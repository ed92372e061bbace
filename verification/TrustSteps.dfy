// The steps of UserTrustService on values. Every step may fail; a plan says which do.
// A step yields its trail: the worlds it passes through after the one it starts in.
module TrustSteps {
  import opened Numerals
  import opened TrustNames
  import opened TrustHelper

  // The columns of incus_user_certs that a call can read back.
  datatype Row = Row(cert: string, key: string, fingerprint: string, restricted: bool,
                     project: string, expires: Option<int>, revoked: bool)

  // An entry of the Incus trust store.
  datatype Trust = Trust(userId: int, project: string)

  datatype World = World(
    rows: map<int, Row>,                  // incus_user_certs
    projects: map<int, string>,           // users.incus_project
    requests: map<string, RequestFile>,   // the request directory
    staged: map<string, string>,          // the staging directory: fingerprint of each certificate
    trusted: map<string, Trust>)          // what Incus trusts, by fingerprint

  type Policies = map<string, Policy>
  type Int64 = i: int | -MAX_INT64 - 1 <= i <= MAX_INT64
  type Token = t: string | ValidToken(t) witness "0000000000000000"

  // Where a step that writes a file or runs a command stops, if it does.
  datatype Fault = Fine | Before | Halfway

  // One helper call: the token of its request, and how writing and running fare.
  datatype Ticket = Ticket(token: Token, write: Fault, run: Fault)

  datatype Steps = Steps(trail: seq<World>, ok: bool) {
    function End(w: World): World { Last(w, trail) }
  }

  function Last(w: World, trail: seq<World>): World {
    if trail == [] then w else trail[|trail| - 1]
  }

  lemma LastOfConcat(w: World, a: seq<World>, b: seq<World>)
    ensures Last(w, a + b) == Last(Last(w, a), b) && Last(w, []) == w
  {
  }

  // ----- files and helper -----

  function WriteTrustRequest(
      w: World, action: string, userId: Int64, fingerprint: string, project: string, certName: string, ticket: Ticket): Steps
  {
    if userId <= 0 || !ValidFingerprint(fingerprint) || !ValidProject(project) || ticket.write.Before? then Steps([], false)
    else
      var name := RequestName(action, userId, fingerprint, ticket.token);
      if name in w.requests then Steps([], false)
      else if ticket.write.Halfway? then Steps([w.(requests := w.requests[name := Torn])], false)
      else
        var manifest := Manifest(action, userId, fingerprint, project, certName);
        Steps([w.(requests := w.requests[name := Written(manifest)])], true)
  }

  // The helper consumes the request before it runs the incus command.
  function HelperRegister(
      policies: Policies, w: World, fingerprint: string, project: string, certName: string, requestName: string, run: Fault): Steps
  {
    match CheckRegister(policies, w.requests, w.staged, fingerprint, project, certName, requestName)
    case Refused(_) => Steps([], false)
    case Ok(userId) =>
      var consumed := w.(requests := w.requests - {requestName});
      if run.Before? then Steps([], false)
      else if run.Halfway? then Steps([consumed], false)
      else Steps([consumed, consumed.(trusted := w.trusted[fingerprint := Trust(userId, project)])], true)
  }

  function HelperRevoke(policies: Policies, w: World, fingerprint: string, requestName: string, run: Fault): Steps {
    if CheckRevoke(policies, w.requests, fingerprint, requestName).Refused? || run.Before? then Steps([], false)
    else
      var consumed := w.(requests := w.requests - {requestName});
      if run.Halfway? then Steps([consumed], false)
      else Steps([consumed, consumed.(trusted := w.trusted - {fingerprint})], true)
  }

  function RevokeFingerprint(
      policies: Policies, w: World, userId: Int64, fingerprint: string, project: string, ticket: Ticket): Steps
  {
    var write := WriteTrustRequest(w, REVOKE, userId, fingerprint, project, "", ticket);
    if !write.ok then write
    else
      var run := HelperRevoke(policies, write.End(w), fingerprint,
                              RequestName(REVOKE, userId, fingerprint, ticket.token), ticket.run);
      Steps(write.trail + run.trail, run.ok)
  }

  // ----- the store -----

  // fingerprint is UNIQUE in incus_user_certs.
  predicate TakenByOther(w: World, userId: Int64, fingerprint: string) {
    exists u :: u in w.rows && u != userId && w.rows[u].fingerprint == fingerprint
  }

  function PutRow(w: World, userId: Int64, row: Row): World {
    w.(rows := w.rows[userId := row], projects := w.projects[userId := row.project])
  }

  function Upsert(w: World, userId: Int64, row: Row, works: bool): Steps {
    if works && !TakenByOther(w, userId, row.fingerprint) then Steps([PutRow(w, userId, row)], true) else Steps([], false)
  }

  function Restore(w: World, userId: Int64, row: Row, works: bool): Steps {
    if userId == 0 || row.cert == "" || row.key == "" || row.fingerprint == "" || row.project == "" then Steps([], false)
    else Upsert(w, userId, row, works)
  }

  // The active row of the user.
  function CurrentTrust(w: World, userId: Int64): Option<Row> {
    if userId !in w.rows || w.rows[userId].revoked || w.rows[userId].fingerprint == "" then None
    else Some(w.rows[userId])
  }

  // ----- Provision -----

  datatype Issued = Issued(cert: string, key: string, fingerprint: string, expires: int)

  datatype ProvisionPlan = ProvisionPlan(
    issued: Option<Issued>,   // the new certificate, when one could be made
    stage: bool, register: Ticket, get: bool, upsert: bool,
    previous: Ticket,         // revoking the previous fingerprint
    restore: bool, undo: Ticket)

  // How a call ends. Declined: before anything had to be undone. Undone: storing failed.
  // RolledBack: revoking the previous fingerprint failed.
  datatype Verdict = Done | Declined | Undone(revokedNew: bool) | RolledBack(restored: bool, revokedNew: bool)

  datatype Outcome = Outcome(trail: seq<World>, verdict: Verdict) {
    function End(w: World): World { Last(w, trail) }
  }

  function NewRow(issued: Issued, project: string): Row {
    Row(issued.cert, issued.key, issued.fingerprint, true, project, Some(issued.expires), false)
  }

  function ProjectOf(asked: string): string { if asked == "" then "default" else asked }

  // From the moment the new row is stored.
  function Retire(policies: Policies, w: World, userId: Int64, previous: Row, next: Row, plan: ProvisionPlan): Outcome {
    var revoke := RevokeFingerprint(policies, w, userId, previous.fingerprint, previous.project, plan.previous);
    if revoke.ok then Outcome(revoke.trail, Done)
    else
      var w1 := revoke.End(w);
      var restore := Restore(w1, userId, previous, plan.restore);
      var w2 := restore.End(w1);
      var undo := RevokeFingerprint(policies, w2, userId, next.fingerprint, next.project, plan.undo);
      Outcome(revoke.trail + restore.trail + undo.trail, RolledBack(restore.ok, undo.ok))
  }

  // From the moment the new fingerprint is trusted.
  function Store(
      policies: Policies, w: World, userId: Int64, previous: Option<Row>, next: Row, plan: ProvisionPlan): Outcome
  {
    var upsert := Upsert(w, userId, next, plan.upsert);
    if !upsert.ok then
      var undo := RevokeFingerprint(policies, w, userId, next.fingerprint, next.project, plan.undo);
      Outcome(undo.trail, Undone(undo.ok))
    else if previous.Some? && previous.value.fingerprint != next.fingerprint then
      var retire := Retire(policies, upsert.End(w), userId, previous.value, next, plan);
      Outcome(upsert.trail + retire.trail, retire.verdict)
    else Outcome(upsert.trail, Done)
  }

  // Staging the certificate and writing the request for it.
  function Prepare(w: World, userId: Int64, next: Row, plan: ProvisionPlan): Steps {
    if !plan.stage then Steps([], false)
    else
      var certName := CertName(if userId < 0 then 0 else userId, next.fingerprint);
      var staged := w.(staged := w.staged[certName := next.fingerprint]);
      var write := WriteTrustRequest(staged, REGISTER, userId, next.fingerprint, next.project, certName, plan.register);
      Steps([staged] + write.trail, write.ok)
  }

  function Provision(policies: Policies, w: World, userId: Int64, asked: string, plan: ProvisionPlan): Outcome {
    if !ValidProject(ProjectOf(asked)) || userId <= 0 || plan.issued.None? then Outcome([], Declined)
    else
      var next := NewRow(plan.issued.value, ProjectOf(asked));
      var prepare := Prepare(w, userId, next, plan);
      if !prepare.ok || !plan.get then Outcome(prepare.trail, Declined)
      else
        var w1 := prepare.End(w);
        var register := HelperRegister(policies, w1, next.fingerprint, next.project, CertName(userId, next.fingerprint),
                                       RequestName(REGISTER, userId, next.fingerprint, plan.register.token), plan.register.run);
        if !register.ok then Outcome(prepare.trail + register.trail, Declined)
        else
          var store := Store(policies, register.End(w1), userId, CurrentTrust(w1, userId), next, plan);
          Outcome(prepare.trail + register.trail + store.trail, store.verdict)
  }

  // ----- Revoke -----

  datatype RevokePlan = RevokePlan(get: bool, ticket: Ticket, mark: bool)

  function MarkRevoked(w: World, userId: Int64): World {
    if userId in w.rows then w.(rows := w.rows[userId := w.rows[userId].(revoked := true)]) else w
  }

  function Revoke(policies: Policies, w: World, userId: Int64, plan: RevokePlan): Steps {
    if !plan.get then Steps([], false)
    else
      match CurrentTrust(w, userId)
      case None => Steps([], true)
      case Some(row) =>
        var revoke := RevokeFingerprint(policies, w, userId, row.fingerprint, row.project, plan.ticket);
        if !revoke.ok || !plan.mark then Steps(revoke.trail, false)
        else Steps(revoke.trail + [MarkRevoked(revoke.End(w), userId)], true)
  }
}
