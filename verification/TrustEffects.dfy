// What the steps of the trust protocol do to the database and to what Incus trusts.
module TrustEffects {
  import opened Numerals
  import opened TrustNames
  import opened TrustHelper
  import opened TrustSteps

  // The worlds agree on the database and on what Incus trusts.
  predicate SameCore(a: World, b: World) {
    a.rows == b.rows && a.projects == b.projects && a.trusted == b.trusted
  }

  ghost predicate AllSameCore(trail: seq<World>, w: World) {
    forall i :: 0 <= i < |trail| ==> SameCore(trail[i], w)
  }

  // Along the trail the database stays put and trust is as in w or as in w', ending as in w'.
  ghost predicate TrustMoves(trail: seq<World>, w: World, w': World) {
    && (forall i :: 0 <= i < |trail| ==> SameCore(trail[i], w) || SameCore(trail[i], w'))
    && SameCore(Last(w, trail), w')
  }

  lemma WriteKeepsCore(
      w: World, action: string, userId: Int64, fingerprint: string, project: string, certName: string, ticket: Ticket)
    ensures AllSameCore(WriteTrustRequest(w, action, userId, fingerprint, project, certName, ticket).trail, w)
  {
  }

  lemma HelperRevokeEffect(policies: Policies, w: World, fingerprint: string, requestName: string, run: Fault)
    ensures var steps := HelperRevoke(policies, w, fingerprint, requestName, run);
            TrustMoves(steps.trail, w, if steps.ok then w.(trusted := w.trusted - {fingerprint}) else w)
  {
    hide CheckRevoke;
  }

  lemma MovesAfterKeeping(a: seq<World>, b: seq<World>, w: World, w1: World, w2: World, e: World)
    requires AllSameCore(a, w) && Last(w, a) == w1
    requires TrustMoves(b, w1, w2) && SameCore(w2, e)
    ensures TrustMoves(a + b, w, e)
  {
  }

  // A successful revocation takes exactly this fingerprint out; a failed one changes nothing.
  lemma RevokeFingerprintEffect(
      policies: Policies, w: World, userId: Int64, fingerprint: string, project: string, ticket: Ticket)
    ensures var steps := RevokeFingerprint(policies, w, userId, fingerprint, project, ticket);
            TrustMoves(steps.trail, w, if steps.ok then w.(trusted := w.trusted - {fingerprint}) else w)
  {
    hide CheckRevoke, HelperRevoke, WriteTrustRequest;
    var write := WriteTrustRequest(w, REVOKE, userId, fingerprint, project, "", ticket);
    var steps := RevokeFingerprint(policies, w, userId, fingerprint, project, ticket);
    WriteKeepsCore(w, REVOKE, userId, fingerprint, project, "", ticket);
    if write.ok {
      var w1 := write.End(w);
      WrittenForUser(w, REVOKE, userId, fingerprint, project, "", ticket);
      var name := RequestName(REVOKE, userId, fingerprint, ticket.token);
      var run := HelperRevoke(policies, w1, fingerprint, name, ticket.run);
      HelperRevokeEffect(policies, w1, fingerprint, name, ticket.run);
      MovesAfterKeeping(write.trail, run.trail, w, w1, if run.ok then w1.(trusted := w1.trusted - {fingerprint}) else w1,
                        if run.ok then w.(trusted := w.trusted - {fingerprint}) else w);
    }
  }

  lemma WrittenForUser(
      w: World, action: string, userId: Int64, fingerprint: string, project: string, certName: string, ticket: Ticket)
    ensures WriteTrustRequest(w, action, userId, fingerprint, project, certName, ticket).ok ==> userId > 0
  {
  }

  // The id in the certificate name is the id of the user it was issued for.
  lemma RegisteredUser(policies: Policies, w: World, userId: Int64, fingerprint: string, project: string, requestName: string)
    requires userId > 0
    ensures var checked := CheckRegister(policies, w.requests, w.staged, fingerprint, project, CertName(userId, fingerprint), requestName);
            checked.Ok? ==> checked == Ok(userId)
  {
    CertMatcherIsThePattern(CertName(userId, fingerprint), Decimal(userId), fingerprint);
    UserIdRoundTrip(userId);
  }

  lemma RegisterEffect(
      policies: Policies, w: World, userId: Int64, fingerprint: string, project: string, requestName: string, run: Fault)
    requires userId > 0
    ensures var steps := HelperRegister(policies, w, fingerprint, project, CertName(userId, fingerprint), requestName, run);
            TrustMoves(steps.trail, w,
              if steps.ok then w.(trusted := w.trusted[fingerprint := Trust(userId, project)]) else w)
  {
    hide CheckRegister;
    RegisteredUser(policies, w, userId, fingerprint, project, requestName);
  }

  // ----- what Provision leaves behind -----

  function WithTrust(w: World, next: Row, userId: Int64): World {
    w.(trusted := w.trusted[next.fingerprint := Trust(userId, next.project)])
  }

  function WithoutTrust(w: World, fingerprint: string): World {
    w.(trusted := w.trusted - {fingerprint})
  }

  // Database and trust after a call that started in w and ended this way.
  function Aftermath(w: World, userId: Int64, next: Row, verdict: Verdict): World {
    if verdict.Declined? then w else AfterStore(WithTrust(w, next, userId), userId, next, verdict)
  }

  // The same from the moment the new fingerprint is trusted.
  function AfterStore(w: World, userId: Int64, next: Row, verdict: Verdict): World {
    var previous := CurrentTrust(w, userId);
    match verdict
    case Declined => w
    case Done =>
      var stored := PutRow(w, userId, next);
      if previous.Some? && previous.value.fingerprint != next.fingerprint
      then WithoutTrust(stored, previous.value.fingerprint) else stored
    case Undone(revokedNew) => if revokedNew then WithoutTrust(w, next.fingerprint) else w
    case RolledBack(restored, revokedNew) =>
      var row := PutRow(w, userId, if restored && previous.Some? then previous.value else next);
      if revokedNew then WithoutTrust(row, next.fingerprint) else row
  }

  // Everything that had to be undone was.
  predicate Compensated(verdict: Verdict) {
    match verdict
    case Done => true
    case Declined => true
    case Undone(revokedNew) => revokedNew
    case RolledBack(restored, revokedNew) => restored && revokedNew
  }

  lemma RetireEffect(policies: Policies, w: World, userId: Int64, previous: Row, next: Row, plan: ProvisionPlan)
    ensures var o := Retire(policies, w, userId, previous, next, plan);
            && (o.verdict.Done? || o.verdict.RolledBack?)
            && SameCore(o.End(w),
                 match o.verdict
                 case RolledBack(restored, revokedNew) =>
                   var row := if restored then PutRow(w, userId, previous) else w;
                   if revokedNew then WithoutTrust(row, next.fingerprint) else row
                 case _ => WithoutTrust(w, previous.fingerprint))
  {
    hide RevokeFingerprint;
    RevokeFingerprintEffect(policies, w, userId, previous.fingerprint, previous.project, plan.previous);
    var revoke := RevokeFingerprint(policies, w, userId, previous.fingerprint, previous.project, plan.previous);
    if !revoke.ok {
      var w1 := revoke.End(w);
      var w2 := Restore(w1, userId, previous, plan.restore).End(w1);
      RevokeFingerprintEffect(policies, w2, userId, next.fingerprint, next.project, plan.undo);
    }
  }

  lemma StoreEffect(policies: Policies, w: World, userId: Int64, next: Row, plan: ProvisionPlan)
    ensures var o := Store(policies, w, userId, CurrentTrust(w, userId), next, plan);
            !o.verdict.Declined? && SameCore(o.End(w), AfterStore(w, userId, next, o.verdict))
  {
    hide RevokeFingerprint, Retire;
    RevokeFingerprintEffect(policies, w, userId, next.fingerprint, next.project, plan.undo);
    var previous := CurrentTrust(w, userId);
    if previous.Some? {
      var stored := PutRow(w, userId, next);
      RetireEffect(policies, stored, userId, previous.value, next, plan);
      assert PutRow(stored, userId, previous.value) == PutRow(w, userId, previous.value);
    }
  }

  lemma PrepareEffect(w: World, userId: Int64, next: Row, plan: ProvisionPlan)
    ensures AllSameCore(Prepare(w, userId, next, plan).trail, w)
    ensures SameCore(Prepare(w, userId, next, plan).End(w), w)
  {
  }

  // The table above is what Provision does, whichever steps fail.
  lemma ProvisionEffect(policies: Policies, w: World, userId: Int64, asked: string, plan: ProvisionPlan)
    ensures var o := Provision(policies, w, userId, asked, plan);
            if plan.issued.None? then o.verdict.Declined? && SameCore(o.End(w), w)
            else SameCore(o.End(w), Aftermath(w, userId, NewRow(plan.issued.value, ProjectOf(asked)), o.verdict))
  {
    hide Prepare, HelperRegister, Store, AfterStore;
    var o := Provision(policies, w, userId, asked, plan);
    if ValidProject(ProjectOf(asked)) && userId > 0 && plan.issued.Some? {
      var next := NewRow(plan.issued.value, ProjectOf(asked));
      var prepare := Prepare(w, userId, next, plan);
      var w1 := prepare.End(w);
      PrepareEffect(w, userId, next, plan);
      var name := RequestName(REGISTER, userId, next.fingerprint, plan.register.token);
      var register := HelperRegister(policies, w1, next.fingerprint, next.project, CertName(userId, next.fingerprint),
                                     name, plan.register.run);
      RegisterEffect(policies, w1, userId, next.fingerprint, next.project, name, plan.register.run);
      LastOfConcat(w, prepare.trail, register.trail);
      if prepare.ok && plan.get && register.ok {
        var w2 := register.End(w1);
        StoreEffect(policies, w2, userId, next, plan);
        LastOfConcat(w, prepare.trail + register.trail, o.trail[|prepare.trail| + |register.trail|..]);
        AfterStoreOfCore(w2, WithTrust(w, next, userId), userId, next, o.verdict);
        assert CurrentTrust(w1, userId) == CurrentTrust(w2, userId);
        assert o.trail == prepare.trail + register.trail + Store(policies, w2, userId, CurrentTrust(w2, userId), next, plan).trail;
      }
    }
  }

  lemma PutRowOfCore(a: World, b: World, userId: Int64, row: Row)
    requires SameCore(a, b)
    ensures SameCore(PutRow(a, userId, row), PutRow(b, userId, row))
  {
  }

  lemma WithoutTrustOfCore(a: World, b: World, fingerprint: string)
    requires SameCore(a, b)
    ensures SameCore(WithoutTrust(a, fingerprint), WithoutTrust(b, fingerprint))
  {
  }

  lemma AfterStoreOfCore(a: World, b: World, userId: Int64, next: Row, verdict: Verdict)
    requires SameCore(a, b)
    ensures SameCore(AfterStore(a, userId, next, verdict), AfterStore(b, userId, next, verdict))
  {
    var previous := CurrentTrust(a, userId);
    assert previous == CurrentTrust(b, userId);
    hide SameCore, PutRow, WithoutTrust, CurrentTrust;
    var row := if verdict.RolledBack? && verdict.restored && previous.Some? then previous.value else next;
    PutRowOfCore(a, b, userId, row);
    WithoutTrustOfCore(a, b, next.fingerprint);
    WithoutTrustOfCore(PutRow(a, userId, row), PutRow(b, userId, row), next.fingerprint);
    if previous.Some? {
      WithoutTrustOfCore(PutRow(a, userId, row), PutRow(b, userId, row), previous.value.fingerprint);
    }
  }

  // The new certificate is nobody's yet.
  ghost predicate Unused(w: World, fingerprint: string) {
    fingerprint != "" && fingerprint !in w.trusted && forall u :: u in w.rows ==> w.rows[u].fingerprint != fingerprint
  }
}
