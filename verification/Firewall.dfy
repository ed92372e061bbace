// The helper's validators, against the grammar.
module Firewall {
  import opened Numerals
  import opened FirewallGrammar

  datatype Step = Refuse | Next(i: nat) | Finish

  // ----- one token of a rule -----

  function ValidateCidrToken(args: seq<string>, i: nat, isCidr: Cidr): Step
    requires i < |args|
  {
    if i + 2 >= |args| || (args[i + 1] != "saddr" && args[i + 1] != "daddr") then Refuse
    else if !isCidr(args[i + 2]) then Refuse
    else Next(i + 3)
  }

  function ValidateTransportToken(args: seq<string>, i: nat): Step
    requires i < |args|
  {
    if i + 2 < |args| && args[i + 1] == "dport" then
      if ValidPort(args[i + 2]) then Next(i + 3) else Refuse
    else Next(i + 1)
  }

  function ValidateRuleToken(args: seq<string>, i: nat, isCidr: Cidr): Step
    requires i < |args|
  {
    if args[i] == "ip" then ValidateCidrToken(args, i, isCidr)
    else if args[i] == "tcp" || args[i] == "udp" then ValidateTransportToken(args, i)
    else if args[i] == "icmp" then Next(i + 1)
    else if args[i] == "comment" then
      if i + 2 >= |args| || !ValidComment(args[i + 1]) || !ValidAction(args[i + 2]) then Refuse
      else if i + 3 != |args| then Refuse
      else Finish
    else Refuse
  }

  // Each step reads one selector, or the end of the rule, and stays inside the arguments.
  lemma TokenReads(args: seq<string>, i: nat, isCidr: Cidr)
    requires i < |args|
    ensures match ValidateRuleToken(args, i, isCidr)
            case Refuse => ParseRule(args[i..], isCidr).Bad?
            case Next(j) => i < j <= |args| && (ParseRule(args[i..], isCidr).Good? <==> ParseRule(args[j..], isCidr).Good?)
            case Finish => ParseRule(args[i..], isCidr).Good?
  {
  }

  // ----- the command forms -----

  predicate Targets(args: seq<string>) {
    |args| >= 4 && args[2] == "inet" && args[3] == "helling"
  }

  method ValidateAddRuleArgs(args: seq<string>, isCidr: Cidr) returns (ok: bool)
    ensures ok <==> Targets(args) && |args| >= 8 && ValidChain(args[4]) && ParseRule(args[5..], isCidr).Good?
  {
    hide ParseRule, ValidateRuleToken;
    if |args| < 8 || args[2] != "inet" || args[3] != "helling" || !ValidChain(args[4]) {
      return false;
    }
    var i := 5;
    while i < |args|
      invariant 5 <= i <= |args|
      invariant ParseRule(args[5..], isCidr).Good? <==> ParseRule(args[i..], isCidr).Good?
      decreases |args| - i
    {
      TokenReads(args, i, isCidr);
      match ValidateRuleToken(args, i, isCidr) {
        case Refuse => return false;
        case Finish => return true;
        case Next(j) => i := j;
      }
    }
    NothingToRead(args, isCidr);
    return false;
  }

  lemma NothingToRead(args: seq<string>, isCidr: Cidr)
    ensures ParseRule(args[|args|..], isCidr).Bad?
  {
  }

  method ValidateAddChainArgs(args: seq<string>) returns (ok: bool)
    ensures ok <==> Targets(args) && |args| == 17 && ValidChain(args[4]) && args[5..] == ChainBody(args[4])
  {
    if |args| != 17 {
      return false;
    }
    var chain := args[4];
    if args[2] != "inet" || args[3] != "helling" || !ValidChain(chain) {
      return false;
    }
    var want := ChainBody(chain);
    for i := 0 to |want|
      invariant forall j :: 0 <= j < i ==> args[5..][j] == want[j]
    {
      if args[i + 5] != want[i] {
        assert args[5..][i] != want[i];
        return false;
      }
    }
    return true;
  }

  predicate ValidateListArgs(args: seq<string>) {
    (|args| == 4 && Targets(args) && args[1] == "table")
    || (|args| == 5 && Targets(args) && args[1] == "chain" && ValidChain(args[4]))
  }

  predicate ValidateDeleteArgs(args: seq<string>) {
    |args| == 7 && args[1] == "rule" && Targets(args) && ValidChain(args[4]) && args[5] == "handle" && ValidHandle(args[6])
  }

  // Some valid command prints as these arguments.
  ghost predicate InGrammar(args: seq<string>, isCidr: Cidr) {
    exists c :: ValidCommand(c, isCidr) && Print(c) == args
  }

  // Exactly the printings of valid commands are accepted.
  method ValidateNFTArgs(args: seq<string>, isCidr: Cidr) returns (ok: bool)
    ensures ok <==> InGrammar(args, isCidr)
  {
    hide InGrammar, ValidateListArgs, ValidateDeleteArgs, ParseRule, ChainBody, Targets, ValidChain;
    OutsideGrammar(args, isCidr);
    if |args| == 0 {
      return false;
    }
    if args[0] == "-a" {
      if |args| < 2 || args[1] != "list" {
        return false;
      }
      AnnotatedListInGrammar(args, isCidr);
      return ValidateListArgs(args[1..]);
    }
    match args[0] {
      case "list" =>
        ListInGrammar(args, isCidr);
        return ValidateListArgs(args);
      case "add" =>
        if |args| >= 2 {
          AddInGrammar(args, isCidr);
          match args[1] {
            case "table" => return |args| == 4 && args[2] == "inet" && args[3] == "helling";
            case "chain" =>
              ok := ValidateAddChainArgs(args);
              return;
            case "rule" =>
              ok := ValidateAddRuleArgs(args, isCidr);
              return;
            case _ =>
          }
        }
        return false;
      case "delete" =>
        DeleteInGrammar(args, isCidr);
        return ValidateDeleteArgs(args);
      case _ => return false;
    }
  }

  // ----- each form is the printing of a command -----

  lemma OutsideGrammar(args: seq<string>, isCidr: Cidr)
    ensures InGrammar(args, isCidr) ==>
              && |args| >= 4
              && (args[0] == "-a" || args[0] == "list" || args[0] == "add" || args[0] == "delete")
              && (args[0] == "-a" ==> args[1] == "list")
  {
  }

  lemma ListInGrammar(args: seq<string>, isCidr: Cidr)
    requires |args| > 0 && args[0] == "list"
    ensures InGrammar(args, isCidr) <==> ValidateListArgs(args)
  {
    hide PrintRule;
    if ValidateListArgs(args) {
      var c := List(false, if |args| == 4 then None else Some(args[4]));
      assert Print(c) == args && ValidCommand(c, isCidr);
    }
    if c :| ValidCommand(c, isCidr) && Print(c) == args {
    }
  }

  lemma AnnotatedListInGrammar(args: seq<string>, isCidr: Cidr)
    requires |args| > 1 && args[0] == "-a" && args[1] == "list"
    ensures InGrammar(args, isCidr) <==> ValidateListArgs(args[1..])
  {
    hide PrintRule;
    if ValidateListArgs(args[1..]) {
      var c := List(true, if |args| == 5 then None else Some(args[5]));
      assert Print(c) == args && ValidCommand(c, isCidr);
    }
    if c :| ValidCommand(c, isCidr) && Print(c) == args {
    }
  }

  lemma DeleteInGrammar(args: seq<string>, isCidr: Cidr)
    requires |args| > 0 && args[0] == "delete"
    ensures InGrammar(args, isCidr) <==> ValidateDeleteArgs(args)
  {
    hide PrintRule, ValidHandle;
    if ValidateDeleteArgs(args) {
      var c := DeleteRule(args[4], args[6]);
      assert Print(c) == args && ValidCommand(c, isCidr);
    }
    if c :| ValidCommand(c, isCidr) && Print(c) == args {
    }
  }

  lemma RuleInGrammar(args: seq<string>, isCidr: Cidr)
    requires Targets(args) && args[0] == "add" && args[1] == "rule"
    ensures InGrammar(args, isCidr) <==> |args| >= 8 && ValidChain(args[4]) && ParseRule(args[5..], isCidr).Good?
  {
    hide PrintRule, ParseRule, ValidRule;
    if |args| >= 8 && ValidChain(args[4]) && ParseRule(args[5..], isCidr).Good? {
      var rule := ParseRule(args[5..], isCidr).rule;
      RuleIsUnambiguous(args[5..], isCidr, rule);
      assert Print(AddRule(args[4], rule)) == args && ValidCommand(AddRule(args[4], rule), isCidr);
    }
    if c :| ValidCommand(c, isCidr) && Print(c) == args {
      assert args[5..] == PrintRule(c.rule);
      RuleIsUnambiguous(args[5..], isCidr, c.rule);
    }
  }

  lemma ChainInGrammar(args: seq<string>, isCidr: Cidr)
    requires Targets(args) && args[0] == "add" && args[1] == "chain"
    ensures InGrammar(args, isCidr) <==> |args| == 17 && ValidChain(args[4]) && args[5..] == ChainBody(args[4])
  {
    hide PrintRule;
    if |args| == 17 && ValidChain(args[4]) && args[5..] == ChainBody(args[4]) {
      assert Print(AddChain(args[4])) == args && ValidCommand(AddChain(args[4]), isCidr);
    }
    if c :| ValidCommand(c, isCidr) && Print(c) == args {
      assert args[5..] == ChainBody(c.chain);
    }
  }

  lemma AddInGrammar(args: seq<string>, isCidr: Cidr)
    requires |args| > 1 && args[0] == "add"
    ensures InGrammar(args, isCidr) <==>
              || (args[1] == "table" && |args| == 4 && args[2] == "inet" && args[3] == "helling")
              || (args[1] == "chain" && Targets(args) && |args| == 17 && ValidChain(args[4]) && args[5..] == ChainBody(args[4]))
              || (args[1] == "rule" && Targets(args) && |args| >= 8 && ValidChain(args[4]) && ParseRule(args[5..], isCidr).Good?)
  {
    if InGrammar(args, isCidr) {
      AddHasTarget(args, isCidr);
    }
    if Targets(args) && args[1] == "rule" {
      RuleInGrammar(args, isCidr);
    } else if Targets(args) && args[1] == "chain" {
      ChainInGrammar(args, isCidr);
    } else if Targets(args) && args[1] == "table" && |args| == 4 {
      assert Print(AddTable) == args && ValidCommand(AddTable, isCidr);
    }
    hide *;
  }

  lemma AddHasTarget(args: seq<string>, isCidr: Cidr)
    requires InGrammar(args, isCidr) && |args| > 1 && args[0] == "add"
    ensures Targets(args) && ((args[1] == "table" && |args| == 4) || args[1] == "chain" || args[1] == "rule")
  {
    hide PrintRule, ValidRule;
    var c :| ValidCommand(c, isCidr) && Print(c) == args;
  }

  // ----- the daemon's own command lines -----

  // A row of firewall_host_rules.
  datatype Row = Row(direction: string, action: string, protocol: string,
                     source: Option<string>, destination: Option<string>, port: Option<int>, comment: string)

  // validateFirewallRule, on what becomes the row.
  predicate ValidRow(r: Row, isCidr: Cidr) {
    && ValidChain(r.direction) && ValidAction(r.action)
    && (r.protocol == "tcp" || r.protocol == "udp" || r.protocol == "icmp" || r.protocol == "any")
    && (r.source.Some? ==> isCidr(r.source.value))
    && (r.destination.Some? ==> isCidr(r.destination.value))
    && (r.port.Some? ==> 1 <= r.port.value <= 65535 && (r.protocol == "tcp" || r.protocol == "udp"))
  }

  function CidrArgs(direction: string, cidr: Option<string>): seq<string> {
    if cidr.Some? then ["ip", direction, cidr.value] else []
  }

  function ProtocolArgs(protocol: string, port: Option<int>): seq<string>
    requires port.Some? ==> port.value >= 0
  {
    if protocol == "any" then []
    else if port.Some? && (protocol == "tcp" || protocol == "udp") then [protocol, "dport", Decimal(port.value)]
    else [protocol]
  }

  // nftArgsForRule
  function NftArgsForRule(r: Row): seq<string>
    requires r.port.Some? ==> r.port.value >= 0
  {
    ["add", "rule", "inet", "helling", r.direction]
    + CidrArgs("saddr", r.source) + CidrArgs("daddr", r.destination) + ProtocolArgs(r.protocol, r.port)
    + ["comment", r.comment, r.action]
  }

  function CidrSelectors(direction: string, cidr: Option<string>): seq<Selector> {
    if cidr.Some? then [Address(direction, cidr.value)] else []
  }

  function ProtocolSelectors(protocol: string, port: Option<int>): seq<Selector>
    requires port.Some? ==> port.value >= 0
  {
    if protocol == "any" then []
    else if protocol == "icmp" then [Icmp]
    else [Transport(protocol, if port.Some? then Some(Decimal(port.value)) else None)]
  }

  function RuleOf(r: Row): Rule
    requires r.port.Some? ==> r.port.value >= 0
  {
    Rule(CidrSelectors("saddr", r.source) + CidrSelectors("daddr", r.destination) + ProtocolSelectors(r.protocol, r.port),
         r.comment, r.action)
  }

  function PrintSelectors(a: seq<Selector>): seq<string> {
    if a == [] then [] else PrintSelector(a[0]) + PrintSelectors(a[1..])
  }

  lemma {:induction false} PrintSelectorsConcat(a: seq<Selector>, b: seq<Selector>)
    ensures PrintSelectors(a + b) == PrintSelectors(a) + PrintSelectors(b)
  {
    hide PrintSelector;
    if a == [] {
      assert a + b == b;
    } else {
      PrintSelectorsConcat(a[1..], b);
      assert (a + b)[1..] == a[1..] + b;
    }
  }

  lemma {:induction false} PrintRuleIs(r: Rule)
    ensures PrintRule(r) == PrintSelectors(r.selectors) + ["comment", r.comment, r.action]
    decreases |r.selectors|
  {
    hide PrintSelector;
    if r.selectors != [] {
      PrintRuleIs(r.(selectors := r.selectors[1..]));
    }
  }

  lemma CidrPrinted(direction: string, cidr: Option<string>)
    ensures PrintSelectors(CidrSelectors(direction, cidr)) == CidrArgs(direction, cidr)
  {
  }

  lemma ProtocolPrinted(protocol: string, port: Option<int>)
    requires protocol == "tcp" || protocol == "udp" || protocol == "icmp" || protocol == "any"
    requires port.Some? ==> port.value >= 0 && (protocol == "tcp" || protocol == "udp")
    ensures PrintSelectors(ProtocolSelectors(protocol, port)) == ProtocolArgs(protocol, port)
  {
  }

  lemma ValidRuleOf(r: Row, isCidr: Cidr)
    requires ValidRow(r, isCidr) && ValidComment(r.comment)
    ensures ValidRule(RuleOf(r), isCidr)
  {
    hide ValidComment;
    if r.port.Some? {
      ParseDecimal(r.port.value);
    }
    hide ParseInt;
  }

  // Every stored rule becomes a command line that the helper accepts.
  lemma StoredRulesPass(r: Row, isCidr: Cidr)
    requires ValidRow(r, isCidr) && ValidComment(r.comment)
    ensures ValidCommand(AddRule(r.direction, RuleOf(r)), isCidr)
    ensures Print(AddRule(r.direction, RuleOf(r))) == NftArgsForRule(r)
    ensures InGrammar(NftArgsForRule(r), isCidr)
  {
    ValidRuleOf(r, isCidr);
    var source, destination := CidrSelectors("saddr", r.source), CidrSelectors("daddr", r.destination);
    var protocol := ProtocolSelectors(r.protocol, r.port);
    CidrPrinted("saddr", r.source);
    CidrPrinted("daddr", r.destination);
    ProtocolPrinted(r.protocol, r.port);
    hide PrintRule, ValidRule, PrintSelectors, CidrArgs, CidrSelectors, ProtocolArgs, ProtocolSelectors, ValidComment;
    PrintSelectorsConcat(source, destination);
    PrintSelectorsConcat(source + destination, protocol);
    PrintRuleIs(RuleOf(r));
    var head, end := ["add", "rule", "inet", "helling", r.direction], ["comment", r.comment, r.action];
    assert ["add", "rule"] + TARGET + [r.direction] == head;
    Regroup(head, CidrArgs("saddr", r.source), CidrArgs("daddr", r.destination), ProtocolArgs(r.protocol, r.port), end);
  }

  lemma Regroup(a: seq<string>, b: seq<string>, c: seq<string>, d: seq<string>, e: seq<string>)
    ensures a + (b + c + d + e) == a + b + c + d + e
  {
  }
}
