// One-time requests under concurrency: any number of daemons create request files and any
// number of helper processes interleave their check, consume and run steps.
module TrustRequests {
  import opened Numerals
  import opened TrustNames
  import opened TrustHelper

  datatype Command =
    | RegisterCommand(fingerprint: string, project: string, certName: string, requestName: string)
    | RevokeCommand(fingerprint: string, requestName: string)

  // Where a helper process is. It read the user id when it checked its request.
  datatype Phase = Started | Checked(userId: int) | Consumed(userId: int) | Exited

  datatype Process = Process(command: Command, phase: Phase)

  // A request file as it was created.
  datatype Creation = Creation(requestName: string, file: RequestFile)

  // An incus command that was run, and the request it was run on.
  datatype Mutation = Mutation(requestName: string, action: string, userId: int, fingerprint: string, project: string)

  datatype System = System(
    requests: map<string, RequestFile>,
    staged: map<string, string>,
    processes: map<nat, Process>,
    created: seq<Creation>,
    executed: seq<Mutation>)

  datatype Event =
    | Create(requestName: string, file: RequestFile)
    | Stage(certName: string, fingerprint: string)
    | Start(pid: nat, command: Command)
    | Check(pid: nat)
    | Consume(pid: nat)
    | Run(pid: nat)

  function ActionOf(c: Command): string { if c.RegisterCommand? then REGISTER else REVOKE }

  function CheckCommand(policies: map<string, Policy>, s: System, c: Command): Result<int> {
    match c
    case RegisterCommand(fingerprint, project, certName, requestName) =>
      CheckRegister(policies, s.requests, s.staged, fingerprint, project, certName, requestName)
    case RevokeCommand(fingerprint, requestName) =>
      CheckRevoke(policies, s.requests, fingerprint, requestName)
  }

  function MutationOf(c: Command, userId: int): Mutation {
    Mutation(c.requestName, ActionOf(c), userId, c.fingerprint, if c.RegisterCommand? then c.project else "")
  }

  // What one event does. An event that is not possible changes nothing.
  function Step(policies: map<string, Policy>, s: System, e: Event): System {
    match e
    case Create(requestName, file) =>
      // O_EXCL
      if requestName in s.requests then s
      else s.(requests := s.requests[requestName := file], created := s.created + [Creation(requestName, file)])
    case Stage(certName, fingerprint) => s.(staged := s.staged[certName := fingerprint])
    case Start(pid, command) =>
      if pid in s.processes then s else s.(processes := s.processes[pid := Process(command, Started)])
    case Check(pid) =>
      if pid !in s.processes || !s.processes[pid].phase.Started? then s
      else
        var p := s.processes[pid];
        var checked := CheckCommand(policies, s, p.command);
        s.(processes := s.processes[pid := p.(phase := if checked.Ok? then Checked(checked.value) else Exited)])
    case Consume(pid) =>
      if pid !in s.processes || !s.processes[pid].phase.Checked? then s
      else
        var p := s.processes[pid];
        // Removing a file that is gone is an error, and the helper stops.
        if p.command.requestName !in s.requests then s.(processes := s.processes[pid := p.(phase := Exited)])
        else s.(requests := s.requests - {p.command.requestName},
                processes := s.processes[pid := p.(phase := Consumed(p.phase.userId))])
    case Run(pid) =>
      if pid !in s.processes || !s.processes[pid].phase.Consumed? then s
      else
        var p := s.processes[pid];
        s.(executed := s.executed + [MutationOf(p.command, p.phase.userId)],
           processes := s.processes[pid := p.(phase := Exited)])
  }

  function RunAll(policies: map<string, Policy>, s: System, events: seq<Event>): System
    decreases |events|
  {
    if events == [] then s else RunAll(policies, Step(policies, s, events[0]), events[1..])
  }

  const EMPTY := System(map[], map[], map[], [], [])

  // ----- conservation -----

  function TimesCreated(created: seq<Creation>, name: string): nat {
    if created == [] then 0
    else
      var last := |created| - 1;
      TimesCreated(created[..last], name) + if created[last].requestName == name then 1 else 0
  }

  function TimesExecuted(executed: seq<Mutation>, name: string): nat {
    if executed == [] then 0
    else
      var last := |executed| - 1;
      TimesExecuted(executed[..last], name) + if executed[last].requestName == name then 1 else 0
  }

  predicate Holds(p: Process, name: string) {
    p.phase.Consumed? && p.command.requestName == name
  }

  // The processes that hold a request they have consumed and not yet run.
  function Holders(processes: map<nat, Process>, name: string): set<nat> {
    set pid | pid in processes && Holds(processes[pid], name)
  }

  // Every creation of a name is run, held by one process, or still a file.
  ghost predicate Conserved(s: System, name: string) {
    TimesCreated(s.created, name) ==
      TimesExecuted(s.executed, name) + |Holders(s.processes, name)| + if name in s.requests then 1 else 0
  }

  lemma HoldersAfter(processes: map<nat, Process>, pid: nat, p: Process, name: string)
    ensures pid in Holders(processes, name) <==> pid in processes && Holds(processes[pid], name)
    ensures var holders := Holders(processes[pid := p], name);
            |holders| == |Holders(processes, name)|
              + (if Holds(p, name) then 1 else 0)
              - (if pid in processes && Holds(processes[pid], name) then 1 else 0)
  {
    assert Holders(processes[pid := p], name) ==
      if Holds(p, name) then Holders(processes, name) + {pid} else Holders(processes, name) - {pid};
  }

  lemma CreatedSnoc(created: seq<Creation>, r: Creation, name: string)
    ensures TimesCreated(created + [r], name) == TimesCreated(created, name) + if r.requestName == name then 1 else 0
  {
    assert (created + [r])[..|created|] == created;
  }

  lemma ExecutedSnoc(executed: seq<Mutation>, m: Mutation, name: string)
    ensures TimesExecuted(executed + [m], name) == TimesExecuted(executed, name) + if m.requestName == name then 1 else 0
  {
    assert (executed + [m])[..|executed|] == executed;
  }

  lemma ConservedStep(policies: map<string, Policy>, s: System, e: Event, name: string)
    requires Conserved(s, name)
    ensures Conserved(Step(policies, s, e), name)
  {
    hide CheckCommand, Holders, TimesCreated, TimesExecuted;
    var s' := Step(policies, s, e);
    match e
    case Create(requestName, file) => CreatedSnoc(s.created, Creation(requestName, file), name);
    case Stage(_, _) =>
    case Start(pid, _) => HoldersAfter(s.processes, pid, s'.processes[pid], name);
    case Check(pid) =>
      if pid in s.processes {
        HoldersAfter(s.processes, pid, s'.processes[pid], name);
      }
    case Consume(pid) =>
      if pid in s.processes {
        HoldersAfter(s.processes, pid, s'.processes[pid], name);
      }
    case Run(pid) =>
      if pid in s.processes {
        var p := s.processes[pid];
        HoldersAfter(s.processes, pid, s'.processes[pid], name);
        if p.phase.Consumed? {
          ExecutedSnoc(s.executed, MutationOf(p.command, p.phase.userId), name);
        }
      }
  }

  // In every run, from a request name no more commands are run than the name was created.
  lemma {:induction false} RequestsAreUsedOnce(policies: map<string, Policy>, s: System, events: seq<Event>, name: string)
    requires Conserved(s, name)
    ensures var e := RunAll(policies, s, events);
            Conserved(e, name) && TimesExecuted(e.executed, name) <= TimesCreated(e.created, name)
    decreases |events|
  {
    hide Step, Holders;
    if events != [] {
      ConservedStep(policies, s, events[0], name);
      RequestsAreUsedOnce(policies, Step(policies, s, events[0]), events[1..], name);
    }
  }

  // ----- authority -----

  // Some file created under the name said what is now done, and the policy allows it.
  ghost predicate Authorised(policies: map<string, Policy>, created: seq<Creation>, c: Command, userId: int) {
    exists i :: 0 <= i < |created| && Authorises(policies, created[i], c, userId)
  }

  predicate Authorises(policies: map<string, Policy>, r: Creation, c: Command, userId: int) {
    && r.requestName == c.requestName && r.file.Written?
    && var m := r.file.manifest;
    && m.action == ActionOf(c) && m.userId == userId > 0 && m.fingerprint == c.fingerprint
    && (c.RegisterCommand? ==> m.project == c.project && m.certBasename == c.certName)
    && Permits(policies, userId, m.project, m.action)
  }

  // The request directory holds only what was created, processes past their check are
  // authorised, and so was everything that has been run.
  ghost predicate Accountable(policies: map<string, Policy>, s: System) {
    && (forall name :: name in s.requests ==> Creation(name, s.requests[name]) in s.created)
    && (forall pid :: pid in s.processes && (s.processes[pid].phase.Checked? || s.processes[pid].phase.Consumed?)
          ==> Authorised(policies, s.created, s.processes[pid].command, s.processes[pid].phase.userId))
    && (forall i :: 0 <= i < |s.executed| ==> Warranted(policies, s.created, s.executed[i]))
  }

  ghost predicate Warranted(policies: map<string, Policy>, created: seq<Creation>, m: Mutation) {
    exists c: Command :: m == MutationOf(c, m.userId) && Authorised(policies, created, c, m.userId)
  }

  lemma CheckedIsAuthorised(policies: map<string, Policy>, s: System, c: Command)
    requires Accountable(policies, s) && CheckCommand(policies, s, c).Ok?
    ensures Authorised(policies, s.created, c, CheckCommand(policies, s, c).value)
  {
    hide ValidateRequest, Authorised, Accountable, Permits;
    var userId := CheckCommand(policies, s, c).value;
    match c
    case RegisterCommand(fingerprint, project, certName, requestName) =>
      AcceptedRequest(policies, s.requests, REGISTER, userId, fingerprint, project, certName, requestName);
      CreatedAuthorises(policies, s, c, userId);
    case RevokeCommand(fingerprint, requestName) =>
      AcceptedRequest(policies, s.requests, REVOKE, 0, fingerprint, "", "", requestName);
      CreatedAuthorises(policies, s, c, userId);
  }

  lemma CreatedAuthorises(policies: map<string, Policy>, s: System, c: Command, userId: int)
    requires Accountable(policies, s) && c.requestName in s.requests
    requires Authorises(policies, Creation(c.requestName, s.requests[c.requestName]), c, userId)
    ensures Authorised(policies, s.created, c, userId)
  {
  }

  lemma AuthorisedLater(policies: map<string, Policy>, created: seq<Creation>, r: Creation, c: Command, userId: int)
    requires Authorised(policies, created, c, userId)
    ensures Authorised(policies, created + [r], c, userId)
  {
    var i :| 0 <= i < |created| && Authorises(policies, created[i], c, userId);
    assert (created + [r])[i] == created[i];
  }

  lemma AccountableStep(policies: map<string, Policy>, s: System, e: Event)
    requires Accountable(policies, s)
    ensures Accountable(policies, Step(policies, s, e))
  {
    hide CheckCommand, Authorised;
    var s' := Step(policies, s, e);
    match e
    case Create(requestName, file) =>
      if requestName !in s.requests {
        var r := Creation(requestName, file);
        forall c, userId | Authorised(policies, s.created, c, userId) ensures Authorised(policies, s'.created, c, userId) {
          AuthorisedLater(policies, s.created, r, c, userId);
        }
      }
    case Stage(_, _) =>
    case Start(_, _) =>
    case Check(pid) =>
      if pid in s.processes && CheckCommand(policies, s, s.processes[pid].command).Ok? {
        CheckedIsAuthorised(policies, s, s.processes[pid].command);
      }
    case Consume(_) =>
    case Run(pid) =>
      if s' != s {
        var p := s.processes[pid];
        assert Warranted(policies, s.created, MutationOf(p.command, p.phase.userId));
      }
  }

  // In every run, each command that was run repeats a manifest that was created under its
  // request name, for a user, project and action that the policy allows.
  lemma {:induction false} RunsAreAccountable(policies: map<string, Policy>, s: System, events: seq<Event>)
    requires Accountable(policies, s)
    ensures Accountable(policies, RunAll(policies, s, events))
    decreases |events|
  {
    hide Step, Accountable;
    if events != [] {
      AccountableStep(policies, s, events[0]);
      RunsAreAccountable(policies, Step(policies, s, events[0]), events[1..]);
    }
  }

  lemma FromEmpty(policies: map<string, Policy>, events: seq<Event>, name: string)
    ensures var e := RunAll(policies, EMPTY, events);
            && TimesExecuted(e.executed, name) <= TimesCreated(e.created, name)
            && forall i :: 0 <= i < |e.executed| ==> Warranted(policies, e.created, e.executed[i])
  {
    RequestsAreUsedOnce(policies, EMPTY, events, name);
    RunsAreAccountable(policies, EMPTY, events);
  }

  // ----- one manifest, one command -----

  // No request name is created twice. Names end in a random token, so that is what fresh
  // tokens give.
  ghost predicate FreshNames(created: seq<Creation>) {
    forall i, j :: 0 <= i < j < |created| ==> created[i].requestName != created[j].requestName
  }

  // This file is the one that m repeats.
  predicate Repeats(policies: map<string, Policy>, r: Creation, m: Mutation) {
    && r.requestName == m.requestName && r.file.Written?
    && r.file.manifest.action == m.action && r.file.manifest.userId == m.userId
    && r.file.manifest.fingerprint == m.fingerprint
    && (m.action == REGISTER ==> r.file.manifest.project == m.project)
    && Permits(policies, if m.userId < 0 then 0 else m.userId, r.file.manifest.project, m.action)
  }

  ghost predicate RepeatsOne(policies: map<string, Policy>, created: seq<Creation>, m: Mutation) {
    exists k :: 0 <= k < |created| && Repeats(policies, created[k], m)
             && forall i :: 0 <= i < |created| && created[i].requestName == m.requestName ==> i == k
  }

  lemma {:induction false} CreatedAtMostOnce(created: seq<Creation>, name: string)
    requires FreshNames(created)
    ensures TimesCreated(created, name) <= 1
    ensures (forall i :: 0 <= i < |created| ==> created[i].requestName != name) ==> TimesCreated(created, name) == 0
  {
    if created != [] {
      CreatedAtMostOnce(created[..|created| - 1], name);
    }
  }

  lemma {:induction false} ExecutedAtLeast(executed: seq<Mutation>, name: string, i: int, j: int)
    requires 0 <= i < |executed| && executed[i].requestName == name
    ensures TimesExecuted(executed, name) >= 1
    ensures i < j < |executed| && executed[j].requestName == name ==> TimesExecuted(executed, name) >= 2
  {
    var last := |executed| - 1;
    if i < last {
      ExecutedAtLeast(executed[..last], name, i, j);
    }
  }

  // If names are not used again, no two commands are run on one request, and each repeats
  // the one manifest that was created under its name.
  lemma ManifestsAreUsedOnce(policies: map<string, Policy>, events: seq<Event>)
    requires FreshNames(RunAll(policies, EMPTY, events).created)
    ensures var e := RunAll(policies, EMPTY, events);
            && (forall i, j :: 0 <= i < j < |e.executed| ==> e.executed[i].requestName != e.executed[j].requestName)
            && forall i :: 0 <= i < |e.executed| ==> RepeatsOne(policies, e.created, e.executed[i])
  {
    hide RunAll, Permits;
    var e := RunAll(policies, EMPTY, events);
    forall i, j | 0 <= i < j < |e.executed| ensures e.executed[i].requestName != e.executed[j].requestName {
      var name := e.executed[i].requestName;
      FromEmpty(policies, events, name);
      CreatedAtMostOnce(e.created, name);
      if e.executed[j].requestName == name {
        ExecutedAtLeast(e.executed, name, i, j);
      }
    }
    forall i | 0 <= i < |e.executed| ensures RepeatsOne(policies, e.created, e.executed[i]) {
      FromEmpty(policies, events, "");
      WarrantedRepeats(policies, e.created, e.executed[i]);
    }
  }

  lemma WarrantedRepeats(policies: map<string, Policy>, created: seq<Creation>, m: Mutation)
    requires Warranted(policies, created, m) && FreshNames(created)
    ensures RepeatsOne(policies, created, m)
  {
    hide Permits;
    var c: Command :| m == MutationOf(c, m.userId) && Authorised(policies, created, c, m.userId);
    var k :| 0 <= k < |created| && Authorises(policies, created[k], c, m.userId);
    assert Repeats(policies, created[k], m);
  }

  lemma {:induction false} RunSnoc(policies: map<string, Policy>, s: System, events: seq<Event>, e: Event)
    ensures RunAll(policies, s, events + [e]) == Step(policies, RunAll(policies, s, events), e)
    decreases |events|
  {
    hide Step;
    if events == [] {
      assert [] + [e] == [e] && [e][1..] == [];
    } else {
      assert (events + [e])[1..] == events[1..] + [e];
      RunSnoc(policies, Step(policies, s, events[0]), events[1..], e);
    }
  }

  lemma NothingRun(policies: map<string, Policy>)
    ensures RunAll(policies, EMPTY, []) == EMPTY
  {
  }

  lemma Extend(policies: map<string, Policy>, events: seq<Event>, e: Event) returns (longer: seq<Event>)
    ensures RunAll(policies, EMPTY, longer) == Step(policies, RunAll(policies, EMPTY, events), e)
  {
    RunSnoc(policies, EMPTY, events, e);
    longer := events + [e];
  }

  // Two processes that have checked the same file.
  function BothChecked(c: Command, file: RequestFile, id: int): System
    requires c.RegisterCommand?
  {
    System(map[c.requestName := file], map[c.certName := c.fingerprint],
           map[0 := Process(c, Checked(id)), 1 := Process(c, Checked(id))], [Creation(c.requestName, file)], [])
  }

  lemma BothCheck(policies: map<string, Policy>, c: Command, file: RequestFile, id: int) returns (events: seq<Event>)
    requires c.RegisterCommand?
    ensures CheckRegister(policies, map[c.requestName := file], map[c.certName := c.fingerprint],
                          c.fingerprint, c.project, c.certName, c.requestName) == Ok(id)
            ==> RunAll(policies, EMPTY, events) == BothChecked(c, file, id)
  {
    hide CheckRegister, RunAll;
    NothingRun(policies);
    events := Extend(policies, [], Create(c.requestName, file));
    events := Extend(policies, events, Stage(c.certName, c.fingerprint));
    events := Extend(policies, events, Start(0, c));
    events := Extend(policies, events, Start(1, c));
    assert RunAll(policies, EMPTY, events) ==
      BothChecked(c, file, id).(processes := map[0 := Process(c, Started), 1 := Process(c, Started)]);
    events := Extend(policies, events, Check(0));
    events := Extend(policies, events, Check(1));
  }

  // One of them has consumed the file and run its command.
  function OneRun(c: Command, file: RequestFile, id: int): System
    requires c.RegisterCommand?
  {
    System(map[], map[c.certName := c.fingerprint], map[0 := Process(c, Exited), 1 := Process(c, Checked(id))],
           [Creation(c.requestName, file)], [MutationOf(c, id)])
  }

  lemma FirstRuns(policies: map<string, Policy>, checked: seq<Event>, c: Command, file: RequestFile, id: int)
    returns (events: seq<Event>)
    requires c.RegisterCommand? && RunAll(policies, EMPTY, checked) == BothChecked(c, file, id)
    ensures RunAll(policies, EMPTY, events) == OneRun(c, file, id)
  {
    hide CheckCommand, RunAll, MutationOf;
    events := Extend(policies, checked, Consume(0));
    assert RunAll(policies, EMPTY, events).requests == map[];
    events := Extend(policies, events, Run(0));
  }

  lemma SecondRuns(policies: map<string, Policy>, run: seq<Event>, c: Command, first: RequestFile, second: RequestFile, id: int)
    returns (events: seq<Event>)
    requires c.RegisterCommand? && RunAll(policies, EMPTY, run) == OneRun(c, first, id)
    ensures var e := RunAll(policies, EMPTY, events);
            && e.created == [Creation(c.requestName, first), Creation(c.requestName, second)]
            && e.executed == [MutationOf(c, id), MutationOf(c, id)]
  {
    hide CheckCommand, RunAll, MutationOf;
    events := Extend(policies, run, Create(c.requestName, second));
    events := Extend(policies, events, Consume(1));
    events := Extend(policies, events, Run(1));
  }

  // If a name is used again, one manifest can be run twice: two processes check the first
  // file, and the second of them consumes the other file and acts on what it checked.
  lemma OneManifestTwice(
      policies: map<string, Policy>, id: nat, fingerprint: string, project: string, other: string, token: string)
    returns (events: seq<Event>)
    requires ValidUserId(id) && ValidFingerprint(fingerprint) && ValidProject(project) && ValidToken(token)
    requires Permits(policies, id, project, REGISTER) && other != project
    ensures var name := RequestName(REGISTER, id, fingerprint, token);
            var certName := CertName(id, fingerprint);
            var m := Mutation(name, REGISTER, id, fingerprint, project);
            var e := RunAll(policies, EMPTY, events);
            && e.created == [Creation(name, Written(Manifest(REGISTER, id, fingerprint, project, certName))),
                             Creation(name, Written(Manifest(REGISTER, id, fingerprint, other, certName)))]
            && e.executed == [m, m]
            && Repeats(policies, e.created[0], m) && !Repeats(policies, e.created[1], m)
  {
    var name, certName := RequestName(REGISTER, id, fingerprint, token), CertName(id, fingerprint);
    var first := Written(Manifest(REGISTER, id, fingerprint, project, certName));
    var second := Written(Manifest(REGISTER, id, fingerprint, other, certName));
    var c := RegisterCommand(fingerprint, project, certName, name);
    var staged := map[certName := fingerprint];
    var checked := CheckRegister(policies, map[name := first], staged, fingerprint, project, certName, name);
    assert checked == Ok(id) by {
      RegisterAccepted(policies, map[name := first], staged, id, fingerprint, project, token);
      CertMatcherIsThePattern(certName, Decimal(id), fingerprint);
      UserIdRoundTrip(id);
    }
    hide CheckRegister, Permits, RunAll, RequestName, CertName;
    events := BothCheck(policies, c, first, id);
    events := FirstRuns(policies, events, c, first, id);
    events := SecondRuns(policies, events, c, first, second, id);
  }
}
