// What the validators accept, spelt out: chains, actions, comments, ports and handles.
module FirewallForms {
  import opened Numerals
  import opened FirewallGrammar
  import opened Firewall

  predicate Chain(s: string) { s == "input" || s == "output" || s == "forward" }

  // 36 characters, each a hexadecimal digit with small letters or a dash.
  predicate Id(s: string) {
    |s| == 36 && forall i :: 0 <= i < |s| ==> 0x30 <= s[i] as int <= 0x39 || s[i] in "abcdef-"
  }

  ghost predicate Comment(s: string) { exists id :: s == "helling:" + id && Id(id) }

  lemma CommentIs(s: string)
    ensures ValidComment(s) <==> Comment(s)
  {
    if ValidComment(s) {
      assert s == "helling:" + s[8..] && Id(s[8..]);
    }
    if id :| s == "helling:" + id && Id(id) {
      forall i | 8 <= i < 44 ensures '0' <= s[i] <= '9' || 'a' <= s[i] <= 'f' || s[i] == '-' {
        assert s[i] == id[i - 8];
      }
    }
  }

  lemma RuleParses(args: seq<string>, isCidr: Cidr)
    requires |args| >= 8 && args[..4] == ["add", "rule", "inet", "helling"]
    ensures InGrammar(args, isCidr) <==> Chain(args[4]) && ParseRule(args[5..], isCidr).Good?
  {
    hide InGrammar, ParseRule;
    assert args[..4][0] == args[0] && args[..4][1] == args[1] && args[..4][2] == args[2] && args[..4][3] == args[3];
    RuleInGrammar(args, isCidr);
  }

  // A rule without selectors: any of three chains, a comment of the daemon's, and any of
  // three actions.
  lemma PlainRules(chain: string, comment: string, action: string, isCidr: Cidr)
    ensures InGrammar(["add", "rule", "inet", "helling", chain, "comment", comment, action], isCidr) <==>
              Chain(chain) && Comment(comment) && (action == "accept" || action == "drop" || action == "reject")
  {
    var args := ["add", "rule", "inet", "helling", chain, "comment", comment, action];
    RuleParses(args, isCidr);
    assert args[5..] == ["comment", comment, action];
    CommentIs(comment);
    hide InGrammar, ValidComment, Comment;
  }

  // A rule for a port: the port is a numeral from 1 to 65535.
  lemma PortRules(chain: string, protocol: string, port: string, comment: string, action: string, isCidr: Cidr)
    requires protocol == "tcp" || protocol == "udp"
    ensures InGrammar(["add", "rule", "inet", "helling", chain, protocol, "dport", port, "comment", comment, action], isCidr)
       <==> && InGrammar(["add", "rule", "inet", "helling", chain, "comment", comment, action], isCidr)
            && exists sign, digits, n :: IsNumeral(port, sign, digits, n) && 1 <= n <= 65535
  {
    var args := ["add", "rule", "inet", "helling", chain, protocol, "dport", port, "comment", comment, action];
    var plain := ["add", "rule", "inet", "helling", chain, "comment", comment, action];
    RuleParses(args, isCidr);
    RuleParses(plain, isCidr);
    assert plain[5..] == ["comment", comment, action];
    assert args[5..] == [protocol, "dport", port] + plain[5..];
    assert args[5..][3..] == plain[5..];
    PortNumeral(port);
    hide InGrammar, ValidComment, IsNumeral, ValidPort, ValidAction;
  }

  lemma PortNumeral(port: string)
    ensures ValidPort(port) <==> exists sign, digits, n :: IsNumeral(port, sign, digits, n) && 1 <= n <= 65535
  {
    hide IsNumeral, ParseInt;
    if ValidPort(port) {
      ParseIntIs(port, ParseInt(port).value);
    }
    if sign, digits, n :| IsNumeral(port, sign, digits, n) && 1 <= n <= 65535 {
      ParseIntIs(port, n);
    }
  }

  // Selectors for addresses: "saddr" or "daddr" and what net.ParseCIDR accepts.
  lemma AddressRules(chain: string, direction: string, cidr: string, comment: string, action: string, isCidr: Cidr)
    ensures InGrammar(["add", "rule", "inet", "helling", chain, "ip", direction, cidr, "comment", comment, action], isCidr)
       <==> && InGrammar(["add", "rule", "inet", "helling", chain, "comment", comment, action], isCidr)
            && (direction == "saddr" || direction == "daddr") && isCidr(cidr)
  {
    var args := ["add", "rule", "inet", "helling", chain, "ip", direction, cidr, "comment", comment, action];
    var plain := ["add", "rule", "inet", "helling", chain, "comment", comment, action];
    RuleParses(args, isCidr);
    RuleParses(plain, isCidr);
    assert plain[5..] == ["comment", comment, action];
    assert args[5..] == ["ip", direction, cidr] + plain[5..];
    assert args[5..][3..] == plain[5..];
    hide InGrammar, ValidComment, ValidAction;
  }

  // Deleting takes a handle: a positive numeral of 64 bits, so digits that are not all
  // zeros, with a plus sign or none.
  lemma Deletions(chain: string, handle: string, isCidr: Cidr)
    ensures InGrammar(["delete", "rule", "inet", "helling", chain, "handle", handle], isCidr) <==>
              Chain(chain) && exists sign, digits :: Handle(handle, sign, digits)
  {
    hide InGrammar, ValidHandle;
    DeleteInGrammar(["delete", "rule", "inet", "helling", chain, "handle", handle], isCidr);
    HandleNumeral(handle);
  }

  predicate Handle(s: string, sign: string, digits: string) {
    && s == sign + digits && (sign == "" || sign == "+") && digits != "" && AllDigits(digits)
    && 1 <= Value(digits) <= 9223372036854775807
  }

  lemma HandleNumeral(s: string)
    ensures ValidHandle(s) <==> exists sign, digits :: Handle(s, sign, digits)
  {
    if ValidHandle(s) {
      ParseIntIs(s, ParseInt(s).value);
      var sign, digits :| IsNumeral(s, sign, digits, ParseInt(s).value);
      assert Handle(s, sign, digits);
    }
    if sign, digits :| Handle(s, sign, digits) {
      assert IsNumeral(s, sign, digits, Value(digits));
      ParseIntIs(s, Value(digits));
    }
  }

  // The commands without parameters, and those for a chain.
  lemma Tables(chain: string, isCidr: Cidr)
    ensures InGrammar(["list", "table", "inet", "helling"], isCidr) && InGrammar(["add", "table", "inet", "helling"], isCidr)
    ensures InGrammar(["list", "chain", "inet", "helling", chain], isCidr) <==> Chain(chain)
    ensures InGrammar(["-a", "list", "chain", "inet", "helling", chain], isCidr) <==> Chain(chain)
  {
    hide InGrammar;
    ListInGrammar(["list", "table", "inet", "helling"], isCidr);
    ListInGrammar(["list", "chain", "inet", "helling", chain], isCidr);
    AddInGrammar(["add", "table", "inet", "helling"], isCidr);
    var args := ["-a", "list", "chain", "inet", "helling", chain];
    assert args[1..] == ["list", "chain", "inet", "helling", chain];
    AnnotatedListInGrammar(args, isCidr);
  }

  // A chain is added with a filter hook of its own name, priority 0 and policy accept.
  lemma Chains(chain: string, isCidr: Cidr)
    ensures var args := ["add", "chain", "inet", "helling", chain, "{", "type", "filter", "hook", chain, "priority", "0", ";",
                         "policy", "accept", ";", "}"];
            InGrammar(args, isCidr) <==> Chain(chain)
  {
    hide InGrammar;
    var args := ["add", "chain", "inet", "helling", chain, "{", "type", "filter", "hook", chain, "priority", "0", ";",
                 "policy", "accept", ";", "}"];
    assert args[5..] == ["{", "type", "filter", "hook", chain, "priority", "0", ";", "policy", "accept", ";", "}"];
    ChainInGrammar(args, isCidr);
  }

  lemma CidrParses(direction: string, cidr: Option<string>, rest: seq<string>, isCidr: Cidr)
    requires direction == "saddr" || direction == "daddr"
    ensures ParseRule(CidrArgs(direction, cidr) + rest, isCidr).Good? <==>
              (cidr.Some? ==> isCidr(cidr.value)) && ParseRule(rest, isCidr).Good?
  {
    var tokens := CidrArgs(direction, cidr) + rest;
    if cidr.Some? {
      assert tokens[0] == "ip" && tokens[1] == direction && tokens[2] == cidr.value && tokens[3..] == rest;
    } else {
      assert tokens == rest;
    }
  }

  lemma ProtocolParses(protocol: string, port: Option<int>, rest: seq<string>, isCidr: Cidr)
    requires protocol == "tcp" || protocol == "udp" || protocol == "icmp" || protocol == "any"
    requires port.Some? ==> port.value >= 0 && (protocol == "tcp" || protocol == "udp")
    requires |rest| == 3 && rest[0] == "comment"
    ensures ParseRule(ProtocolArgs(protocol, port) + rest, isCidr).Good? <==>
              (port.Some? ==> 1 <= port.value <= 65535) && ParseRule(rest, isCidr).Good?
  {
    var tokens := ProtocolArgs(protocol, port) + rest;
    if protocol == "any" {
      assert tokens == rest;
    } else if port.Some? {
      ParseDecimal(port.value);
      assert tokens[0] == protocol && tokens[1] == "dport" && tokens[2] == Decimal(port.value) && tokens[3..] == rest;
    } else {
      assert tokens[0] == protocol && tokens[1] == "comment" && tokens[1..] == rest;
    }
  }

  // The API lets through exactly the rules whose command line the helper accepts.
  lemma ApiAgreesWithHelper(r: Row, isCidr: Cidr)
    requires ValidComment(r.comment)
    requires r.protocol == "tcp" || r.protocol == "udp" || r.protocol == "icmp" || r.protocol == "any"
    requires r.port.Some? ==> r.port.value >= 0 && (r.protocol == "tcp" || r.protocol == "udp")
    ensures ValidRow(r, isCidr) <==> InGrammar(NftArgsForRule(r), isCidr)
  {
    var end := ["comment", r.comment, r.action];
    var protocol := ProtocolArgs(r.protocol, r.port) + end;
    var destination := CidrArgs("daddr", r.destination) + protocol;
    var source := CidrArgs("saddr", r.source) + destination;
    var args := NftArgsForRule(r);
    assert args == ["add", "rule", "inet", "helling", r.direction] + source by {
      hide CidrArgs, ProtocolArgs;
    }
    assert args[..4] == ["add", "rule", "inet", "helling"] && args[4] == r.direction && args[5..] == source;
    assert ParseRule(end, isCidr).Good? <==> ValidAction(r.action);
    ProtocolParses(r.protocol, r.port, end, isCidr);
    CidrParses("daddr", r.destination, protocol, isCidr);
    CidrParses("saddr", r.source, destination, isCidr);
    hide ParseRule, InGrammar, NftArgsForRule, ValidComment, ValidAction, CidrArgs, ProtocolArgs;
    RuleParses(args, isCidr);
  }

  // Where the selectors of a stored rule are.
  lemma SelectorsOf(r: Row, isCidr: Cidr)
    requires ValidRow(r, isCidr)
    ensures var s := RuleOf(r).selectors;
            var k := if r.source.Some? then 1 else 0;
            var m := if r.destination.Some? then k + 1 else k;
            && (r.source.Some? ==> |s| > 0 && s[0] == Address("saddr", r.source.value))
            && (r.destination.Some? ==> |s| > k && s[k] == Address("daddr", r.destination.value))
            && (r.protocol == "any" ==> |s| == m)
            && (r.protocol == "icmp" ==> |s| == m + 1 && s[m] == Icmp)
            && (r.protocol == "tcp" || r.protocol == "udp" ==>
                  |s| == m + 1 && s[m] == Transport(r.protocol, if r.port.Some? then Some(Decimal(r.port.value)) else None))
  {
    hide Decimal;
  }

  // No two stored rules become the same command line.
  lemma StoredRulesDiffer(a: Row, b: Row, isCidr: Cidr)
    requires ValidRow(a, isCidr) && ValidComment(a.comment) && ValidRow(b, isCidr) && ValidComment(b.comment)
    requires NftArgsForRule(a) == NftArgsForRule(b)
    ensures a == b
  {
    StoredRulesPass(a, isCidr);
    StoredRulesPass(b, isCidr);
    CommandIsUnambiguous(AddRule(a.direction, RuleOf(a)), AddRule(b.direction, RuleOf(b)), isCidr);
    SelectorsOf(a, isCidr);
    SelectorsOf(b, isCidr);
    if a.port.Some? && b.port.Some? && Decimal(a.port.value) == Decimal(b.port.value) {
      DecimalInjective(a.port.value, b.port.value);
    }
    hide NftArgsForRule, ValidComment, Print, ValidCommand, InGrammar, RuleOf, Decimal;
    var s := RuleOf(a).selectors;
    assert s == RuleOf(b).selectors;
    assert a.source == b.source;
    assert a.destination == b.destination;
  }
}
