// The nft command lines that the firewall helper is for, as trees with one printing each.
module FirewallGrammar {
  import opened Numerals

  // net.ParseCIDR accepts the token.
  type Cidr = string -> bool

  // An address selector, a protocol with or without a port, or icmp.
  datatype Selector =
    | Address(direction: string, cidr: string)
    | Transport(protocol: string, port: Option<string>)
    | Icmp

  datatype Rule = Rule(selectors: seq<Selector>, comment: string, action: string)

  datatype Command =
    | List(annotated: bool, listed: Option<string>)
    | AddTable
    | AddChain(chain: string)
    | AddRule(chain: string, rule: Rule)
    | DeleteRule(chain: string, handle: string)

  predicate ValidChain(s: string) { s == "input" || s == "output" || s == "forward" }

  predicate ValidAction(s: string) { s == "accept" || s == "drop" || s == "reject" }

  // ^helling:[0-9a-f-]{36}$
  predicate ValidComment(s: string) {
    |s| == 44 && "helling:" <= s && forall i :: 8 <= i < 44 ==> '0' <= s[i] <= '9' || 'a' <= s[i] <= 'f' || s[i] == '-'
  }

  predicate ValidPort(s: string) { ParseInt(s).Some? && 1 <= ParseInt(s).value <= 65535 }

  predicate ValidHandle(s: string) { ParseInt(s).Some? && ParseInt(s).value > 0 }

  predicate ValidSelector(s: Selector, isCidr: Cidr) {
    match s
    case Address(direction, cidr) => (direction == "saddr" || direction == "daddr") && isCidr(cidr)
    case Transport(protocol, port) => (protocol == "tcp" || protocol == "udp") && (port.Some? ==> ValidPort(port.value))
    case Icmp => true
  }

  predicate ValidRule(r: Rule, isCidr: Cidr) {
    (forall i :: 0 <= i < |r.selectors| ==> ValidSelector(r.selectors[i], isCidr))
    && ValidComment(r.comment) && ValidAction(r.action)
  }

  predicate ValidCommand(c: Command, isCidr: Cidr) {
    match c
    case List(_, listed) => listed.Some? ==> ValidChain(listed.value)
    case AddTable => true
    case AddChain(chain) => ValidChain(chain)
    case AddRule(chain, rule) => ValidChain(chain) && ValidRule(rule, isCidr)
    case DeleteRule(chain, handle) => ValidChain(chain) && ValidHandle(handle)
  }

  // ----- printing -----

  function PrintSelector(s: Selector): (tokens: seq<string>)
    ensures tokens != []
  {
    match s
    case Address(direction, cidr) => ["ip", direction, cidr]
    case Transport(protocol, None) => [protocol]
    case Transport(protocol, Some(port)) => [protocol, "dport", port]
    case Icmp => ["icmp"]
  }

  function PrintRule(r: Rule): (tokens: seq<string>)
    ensures |tokens| >= 3
    decreases |r.selectors|
  {
    if r.selectors == [] then ["comment", r.comment, r.action]
    else PrintSelector(r.selectors[0]) + PrintRule(r.(selectors := r.selectors[1..]))
  }

  const TARGET := ["inet", "helling"]

  function ChainBody(chain: string): seq<string> {
    ["{", "type", "filter", "hook", chain, "priority", "0", ";", "policy", "accept", ";", "}"]
  }

  function Print(c: Command): seq<string> {
    match c
    case List(annotated, listed) =>
      (if annotated then ["-a"] else [])
      + if listed.None? then ["list", "table"] + TARGET else ["list", "chain"] + TARGET + [listed.value]
    case AddTable => ["add", "table"] + TARGET
    case AddChain(chain) => ["add", "chain"] + TARGET + [chain] + ChainBody(chain)
    case AddRule(chain, rule) => ["add", "rule"] + TARGET + [chain] + PrintRule(rule)
    case DeleteRule(chain, handle) => ["delete", "rule"] + TARGET + [chain, "handle", handle]
  }

  // ----- reading a rule back, token by token -----

  datatype Parsed = Bad | Good(rule: Rule)

  function Prepend(s: Selector, p: Parsed): Parsed {
    if p.Bad? then Bad else Good(p.rule.(selectors := [s] + p.rule.selectors))
  }

  function ParseRule(tokens: seq<string>, isCidr: Cidr): Parsed
    decreases |tokens|
  {
    if tokens == [] then Bad
    else if tokens[0] == "ip" then
      if |tokens| < 3 || (tokens[1] != "saddr" && tokens[1] != "daddr") || !isCidr(tokens[2]) then Bad
      else Prepend(Address(tokens[1], tokens[2]), ParseRule(tokens[3..], isCidr))
    else if tokens[0] == "tcp" || tokens[0] == "udp" then
      if |tokens| > 2 && tokens[1] == "dport" then
        if !ValidPort(tokens[2]) then Bad
        else Prepend(Transport(tokens[0], Some(tokens[2])), ParseRule(tokens[3..], isCidr))
      else Prepend(Transport(tokens[0], None), ParseRule(tokens[1..], isCidr))
    else if tokens[0] == "icmp" then Prepend(Icmp, ParseRule(tokens[1..], isCidr))
    else if tokens[0] == "comment" && |tokens| == 3 && ValidComment(tokens[1]) && ValidAction(tokens[2]) then
      Good(Rule([], tokens[1], tokens[2]))
    else Bad
  }

  // No selector and no rule starts with "dport", so a port is never optional to read.
  lemma PrintedHead(r: Rule, isCidr: Cidr)
    requires ValidRule(r, isCidr)
    ensures PrintRule(r)[0] != "dport"
  {
  }

  lemma PrependTail(s: Selector, r: Rule, isCidr: Cidr)
    requires ValidSelector(s, isCidr) && ValidRule(r, isCidr)
    ensures ValidRule(r.(selectors := [s] + r.selectors), isCidr)
    ensures PrintRule(r.(selectors := [s] + r.selectors)) == PrintSelector(s) + PrintRule(r)
  {
  }

  lemma ParseSelector(s: Selector, rest: seq<string>, isCidr: Cidr)
    requires ValidSelector(s, isCidr) && rest != [] && rest[0] != "dport"
    ensures ParseRule(PrintSelector(s) + rest, isCidr) == Prepend(s, ParseRule(rest, isCidr))
  {
    hide ValidPort, ValidComment, ValidAction;
    var tokens := PrintSelector(s) + rest;
    assert tokens[|PrintSelector(s)|..] == rest;
    match s
    case Address(direction, cidr) => assert tokens[..3] == ["ip", direction, cidr];
    case Transport(protocol, None) => assert tokens[0] == protocol && tokens[1] == rest[0];
    case Transport(protocol, Some(port)) => assert tokens[..3] == [protocol, "dport", port];
    case Icmp => assert tokens[0] == "icmp";
  }

  // The printing of a rule is read back as that rule.
  lemma {:induction false} ParsePrinted(r: Rule, isCidr: Cidr)
    requires ValidRule(r, isCidr)
    ensures ParseRule(PrintRule(r), isCidr) == Good(r)
    decreases |r.selectors|
  {
    hide ValidPort, ValidComment, ValidAction, ValidSelector, PrintSelector;
    if r.selectors != [] {
      hide ParseRule;
      var s, rest := r.selectors[0], r.(selectors := r.selectors[1..]);
      ParsePrinted(rest, isCidr);
      PrintedHead(rest, isCidr);
      ParseSelector(s, PrintRule(rest), isCidr);
      assert [s] + rest.selectors == r.selectors;
    }
  }

  lemma ParsedSelector(tokens: seq<string>, isCidr: Cidr) returns (s: Selector)
    requires ParseRule(tokens, isCidr).Good? && tokens[0] != "comment"
    ensures ValidSelector(s, isCidr) && PrintSelector(s) <= tokens
    ensures ParseRule(tokens, isCidr) == Prepend(s, ParseRule(tokens[|PrintSelector(s)|..], isCidr))
  {
    hide ValidPort, ValidComment, ValidAction;
    s := if tokens[0] == "ip" then Address(tokens[1], tokens[2])
         else if tokens[0] == "icmp" then Icmp
         else if |tokens| > 2 && tokens[1] == "dport" then Transport(tokens[0], Some(tokens[2]))
         else Transport(tokens[0], None);
  }

  // What is read is valid and prints as what was read.
  lemma {:induction false} PrintParsed(tokens: seq<string>, isCidr: Cidr)
    requires ParseRule(tokens, isCidr).Good?
    ensures ValidRule(ParseRule(tokens, isCidr).rule, isCidr) && PrintRule(ParseRule(tokens, isCidr).rule) == tokens
    decreases |tokens|
  {
    hide ValidPort, ValidComment, ValidAction, ValidSelector, PrintSelector;
    if tokens[0] != "comment" {
      var s := ParsedSelector(tokens, isCidr);
      hide ParseRule;
      var rest := tokens[|PrintSelector(s)|..];
      PrintParsed(rest, isCidr);
      PrependTail(s, ParseRule(rest, isCidr).rule, isCidr);
      assert tokens == PrintSelector(s) + rest;
    }
  }

  // Reading succeeds exactly on the printings of valid rules, with the one rule they print.
  lemma RuleIsUnambiguous(tokens: seq<string>, isCidr: Cidr, r: Rule)
    ensures ParseRule(tokens, isCidr) == Good(r) <==> ValidRule(r, isCidr) && PrintRule(r) == tokens
  {
    if ParseRule(tokens, isCidr) == Good(r) {
      PrintParsed(tokens, isCidr);
    }
    if ValidRule(r, isCidr) && PrintRule(r) == tokens {
      ParsePrinted(r, isCidr);
    }
  }

  // No two valid commands print alike.
  lemma CommandIsUnambiguous(a: Command, b: Command, isCidr: Cidr)
    requires ValidCommand(a, isCidr) && ValidCommand(b, isCidr) && Print(a) == Print(b)
    ensures a == b
  {
    hide PrintRule, ValidRule;
    var tokens := Print(a);
    assert tokens[0] == Print(b)[0] && tokens[1] == Print(b)[1];
    if a.AddRule? && b.AddRule? {
      assert a.chain == tokens[4] == b.chain;
      assert PrintRule(a.rule) == tokens[5..] == PrintRule(b.rule);
      RuleIsUnambiguous(tokens[5..], isCidr, a.rule);
      RuleIsUnambiguous(tokens[5..], isCidr, b.rule);
    } else if a.List? && b.List? {
      assert a.annotated == b.annotated;
      assert a.listed.Some? && b.listed.Some? ==> a.listed.value == tokens[|tokens| - 1] == b.listed.value;
    } else if a.AddChain? && b.AddChain? {
      assert a.chain == tokens[4] == b.chain;
    } else if a.DeleteRule? && b.DeleteRule? {
      assert a.chain == tokens[4] == b.chain && a.handle == tokens[6] == b.handle;
    }
  }
}
