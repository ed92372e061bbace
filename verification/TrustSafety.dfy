// What the calls of the trust protocol keep: all-or-nothing, make-before-break, and safety
// over whole runs. Every condition is on what a call is given, not on how it ends.
module TrustSafety {
  import opened Numerals
  import opened TrustNames
  import opened TrustHelper
  import opened TrustSteps
  import opened TrustEffects
  import opened TrustForecast

  // ----- all or nothing -----

  // users.incus_project is the project of the user's active row.
  ghost predicate Agree(w: World) {
    forall u :: u in w.rows && !w.rows[u].revoked ==> u in w.projects && w.projects[u] == w.rows[u].project
  }

  // A call that succeeds replaces row, project and trust of its user and nothing else; a
  // call that fails with every compensation made leaves everything as it was. The project
  // is given back because it agreed with the row.
  lemma AllOrNothing(policies: Policies, w: World, userId: Int64, asked: string, plan: ProvisionPlan)
    requires plan.issued.Some? ==> Unused(w, plan.issued.value.fingerprint)
    ensures var o := Provision(policies, w, userId, asked, plan);
            var e := o.End(w);
            && (o.verdict.Done? ==>
                  plan.issued.Some? &&
                  var next := NewRow(plan.issued.value, ProjectOf(asked));
                  var previous := CurrentTrust(w, userId);
                  var retired := if previous.Some? then {previous.value.fingerprint} else {};
                  && e.rows == w.rows[userId := next]
                  && e.projects == w.projects[userId := next.project]
                  && e.trusted == (w.trusted - retired)[next.fingerprint := Trust(userId, next.project)])
            && (!o.verdict.Done? && Compensated(o.verdict) ==>
                  e.rows == w.rows && e.trusted == w.trusted && (Agree(w) ==> SameCore(e, w)))
  {
    ProvisionEffect(policies, w, userId, asked, plan);
    var o := Provision(policies, w, userId, asked, plan);
    if plan.issued.Some? {
      OnlyWithPrevious(policies, w, userId, asked, plan);
      hide Provision;
      var next := NewRow(plan.issued.value, ProjectOf(asked));
      AfterStoreMaps(w, userId, next, o.verdict);
    }
  }

  // Rolling back happens only when there was a row to go back to.
  lemma OnlyWithPrevious(policies: Policies, w: World, userId: Int64, asked: string, plan: ProvisionPlan)
    ensures var o := Provision(policies, w, userId, asked, plan);
            o.verdict.RolledBack? ==>
              && CurrentTrust(w, userId).Some? && plan.issued.Some?
              && CurrentTrust(w, userId).value.fingerprint != plan.issued.value.fingerprint
  {
    ProvisionForeseen(policies, w, userId, asked, plan);
    hide Provision, Revokes;
  }

  lemma AfterStoreMaps(w: World, userId: Int64, next: Row, verdict: Verdict)
    requires Unused(w, next.fingerprint)
    requires verdict.RolledBack? ==> CurrentTrust(w, userId).Some?
    ensures var e := Aftermath(w, userId, next, verdict);
            var previous := CurrentTrust(w, userId);
            var retired := if previous.Some? then {previous.value.fingerprint} else {};
            && (verdict.Done? ==>
                && e.rows == w.rows[userId := next]
                && e.projects == w.projects[userId := next.project]
                && e.trusted == (w.trusted - retired)[next.fingerprint := Trust(userId, next.project)])
            && (!verdict.Done? && Compensated(verdict) ==>
                  e.rows == w.rows && e.trusted == w.trusted && (Agree(w) ==> SameCore(e, w)))
  {
    assert w.trusted[next.fingerprint := Trust(userId, next.project)] - {next.fingerprint} == w.trusted;
  }

  // A rollback writes the project of the row it restores, so users.incus_project has its old
  // value exactly when it agreed with that row. The calls keep them in agreement, so they
  // never reach a world where it does not.
  lemma RollbackProject(policies: Policies, w: World, userId: Int64, asked: string, plan: ProvisionPlan)
    ensures var o := Provision(policies, w, userId, asked, plan);
            o.verdict.RolledBack? && o.verdict.restored ==>
              (o.End(w).projects == w.projects
               <==> userId in w.projects && w.projects[userId] == CurrentTrust(w, userId).value.project)
  {
    ProvisionEffect(policies, w, userId, asked, plan);
    OnlyWithPrevious(policies, w, userId, asked, plan);
    hide Provision;
  }

  // A call leaves the database alone, or puts one row with its project: the new row, or the
  // old one again.
  ghost predicate PutsOneRow(w: World, e: World, userId: Int64, next: Row) {
    || (e.rows == w.rows && e.projects == w.projects)
    || (e.rows == w.rows[userId := next] && e.projects == w.projects[userId := next.project])
    || (CurrentTrust(w, userId).Some? && e.rows == w.rows
        && e.projects == w.projects[userId := CurrentTrust(w, userId).value.project])
  }

  lemma AftermathPuts(w: World, userId: Int64, next: Row, verdict: Verdict)
    ensures PutsOneRow(w, Aftermath(w, userId, next, verdict), userId, next)
  {
    var previous := CurrentTrust(w, userId);
    assert previous.Some? ==> w.rows[userId := previous.value] == w.rows;
  }

  lemma ProvisionAgrees(policies: Policies, w: World, userId: Int64, asked: string, plan: ProvisionPlan)
    requires Agree(w)
    ensures Agree(Provision(policies, w, userId, asked, plan).End(w))
  {
    ProvisionEffect(policies, w, userId, asked, plan);
    var o := Provision(policies, w, userId, asked, plan);
    hide Provision, Aftermath;
    if plan.issued.Some? {
      AftermathPuts(w, userId, NewRow(plan.issued.value, ProjectOf(asked)), o.verdict);
    }
  }

  lemma RevokeAgrees(policies: Policies, w: World, userId: Int64, plan: RevokePlan)
    requires Agree(w)
    ensures Agree(Revoke(policies, w, userId, plan).End(w))
  {
    RevokeEffect(policies, w, userId, plan);
    hide Revoke;
  }

  // ----- make before break -----

  // The user's row is active and Incus trusts the fingerprint in it.
  predicate Covered(w: World, userId: Int64) {
    CurrentTrust(w, userId).Some? && CurrentTrust(w, userId).value.fingerprint in w.trusted
  }

  ghost predicate AllCovered(trail: seq<World>, userId: Int64) {
    forall i :: 0 <= i < |trail| ==> Covered(trail[i], userId)
  }

  lemma MovesCovered(trail: seq<World>, w: World, w': World, userId: Int64)
    requires TrustMoves(trail, w, w') && Covered(w, userId) && Covered(w', userId)
    ensures AllCovered(trail, userId) && Covered(Last(w, trail), userId)
  {
  }

  lemma RetireCovered(policies: Policies, w: World, userId: Int64, previous: Row, next: Row, plan: ProvisionPlan)
    requires userId in w.rows && w.rows[userId] == next && !next.revoked && next.fingerprint in w.trusted
    requires !previous.revoked && previous.fingerprint in w.trusted
    requires next.fingerprint != "" && previous.fingerprint != "" && previous.fingerprint != next.fingerprint
    ensures var o := Retire(policies, w, userId, previous, next, plan);
            AllCovered(o.trail, userId) <==> o.verdict != RolledBack(false, true)
  {
    hide RevokeFingerprint;
    var revoke := RevokeFingerprint(policies, w, userId, previous.fingerprint, previous.project, plan.previous);
    RevokeFingerprintEffect(policies, w, userId, previous.fingerprint, previous.project, plan.previous);
    MovesCovered(revoke.trail, w, if revoke.ok then WithoutTrust(w, previous.fingerprint) else w, userId);
    if !revoke.ok {
      var w1 := revoke.End(w);
      var restore := Restore(w1, userId, previous, plan.restore);
      var w2 := restore.End(w1);
      assert AllCovered(restore.trail, userId) && Covered(w2, userId);
      var undo := RevokeFingerprint(policies, w2, userId, next.fingerprint, next.project, plan.undo);
      RevokeFingerprintEffect(policies, w2, userId, next.fingerprint, next.project, plan.undo);
      if restore.ok || !undo.ok {
        MovesCovered(undo.trail, w2, if undo.ok then WithoutTrust(w2, next.fingerprint) else w2, userId);
      } else {
        RetireEffect(policies, w, userId, previous, next, plan);
        var o := Retire(policies, w, userId, previous, next, plan);
        assert !Covered(o.End(w), userId) && o.End(w) != w;
      }
    }
  }

  lemma StoreCovered(policies: Policies, w: World, userId: Int64, next: Row, plan: ProvisionPlan)
    requires Covered(w, userId) && next.fingerprint in w.trusted && !next.revoked && next.fingerprint != ""
    requires CurrentTrust(w, userId).value.fingerprint != next.fingerprint
    ensures var o := Store(policies, w, userId, CurrentTrust(w, userId), next, plan);
            AllCovered(o.trail, userId) <==> o.verdict != RolledBack(false, true)
  {
    hide RevokeFingerprint, Retire;
    var previous := CurrentTrust(w, userId).value;
    var upsert := Upsert(w, userId, next, plan.upsert);
    if upsert.ok {
      var stored := upsert.End(w);
      assert AllCovered(upsert.trail, userId);
      RetireCovered(policies, stored, userId, previous, next, plan);
      CoveredConcat(upsert.trail, Retire(policies, stored, userId, previous, next, plan).trail, userId);
    } else {
      var undo := RevokeFingerprint(policies, w, userId, next.fingerprint, next.project, plan.undo);
      RevokeFingerprintEffect(policies, w, userId, next.fingerprint, next.project, plan.undo);
      MovesCovered(undo.trail, w, if undo.ok then WithoutTrust(w, next.fingerprint) else w, userId);
    }
  }

  lemma CoveredOfCore(a: World, b: World, userId: Int64)
    requires SameCore(a, b)
    ensures Covered(a, userId) == Covered(b, userId)
  {
  }

  lemma CoveredTrail(policies: Policies, w: World, userId: Int64, asked: string, plan: ProvisionPlan)
    requires Covered(w, userId)
    requires plan.issued.Some? ==> Unused(w, plan.issued.value.fingerprint)
    ensures var o := Provision(policies, w, userId, asked, plan);
            AllCovered(o.trail, userId) <==> o.verdict != RolledBack(false, true)
  {
    hide Prepare, HelperRegister, Store;
    if ValidProject(ProjectOf(asked)) && userId > 0 && plan.issued.Some? {
      var next := NewRow(plan.issued.value, ProjectOf(asked));
      var prepare := Prepare(w, userId, next, plan);
      var w1 := prepare.End(w);
      PrepareEffect(w, userId, next, plan);
      MovesCovered(prepare.trail, w, w, userId);
      var name := RequestName(REGISTER, userId, next.fingerprint, plan.register.token);
      var register := HelperRegister(policies, w1, next.fingerprint, next.project, CertName(userId, next.fingerprint),
                                     name, plan.register.run);
      RegisterEffect(policies, w1, userId, next.fingerprint, next.project, name, plan.register.run);
      CoveredOfCore(w1, w, userId);
      MovesCovered(register.trail, w1, if register.ok then WithTrust(w1, next, userId) else w1, userId);
      if prepare.ok && plan.get && register.ok {
        var w2 := register.End(w1);
        assert CurrentTrust(w1, userId) == CurrentTrust(w, userId) == CurrentTrust(w2, userId);
        StoreCovered(policies, w2, userId, next, plan);
        CoveredConcat(prepare.trail + register.trail, Store(policies, w2, userId, CurrentTrust(w2, userId), next, plan).trail, userId);
      }
      CoveredConcat(prepare.trail, register.trail, userId);
    }
  }

  lemma CoveredConcat(a: seq<World>, b: seq<World>, userId: Int64)
    ensures AllCovered(a + b, userId) <==> AllCovered(a, userId) && AllCovered(b, userId)
  {
    if AllCovered(a + b, userId) {
      assert forall i :: 0 <= i < |a| ==> a[i] == (a + b)[i];
      assert forall i :: 0 <= i < |b| ==> b[i] == (a + b)[|a| + i];
    }
  }

  // The new row will be stored, revoking the previous fingerprint and restoring the row will
  // fail, and the new fingerprint will then be revoked.
  predicate Breaks(policies: Policies, w: World, userId: Int64, asked: string, plan: ProvisionPlan)
    requires CurrentTrust(w, userId).Some?
  {
    var previous := CurrentTrust(w, userId).value;
    && Registers(policies, w.requests, userId, asked, plan) && Stores(w, userId, plan)
    && !Revokes(policies, w.requests, userId, previous.fingerprint, previous.project, plan.previous)
    && !Restores(w, userId, previous, plan.restore)
    && Revokes(policies, w.requests, userId, plan.issued.value.fingerprint, ProjectOf(asked), plan.undo)
  }

  // From a covered user, every world Provision passes through keeps the user covered,
  // except when restoring the row fails and the new fingerprint is then revoked.
  lemma MakeBeforeBreak(policies: Policies, w: World, userId: Int64, asked: string, plan: ProvisionPlan)
    requires Covered(w, userId)
    requires plan.issued.Some? ==> Unused(w, plan.issued.value.fingerprint)
    ensures var o := Provision(policies, w, userId, asked, plan);
            && (AllCovered(o.trail, userId) <==> o.verdict != RolledBack(false, true))
            && (AllCovered(o.trail, userId) <==> !Breaks(policies, w, userId, asked, plan))
  {
    CoveredTrail(policies, w, userId, asked, plan);
    ProvisionForeseen(policies, w, userId, asked, plan);
    hide Provision, Revokes, Registers, AllCovered;
  }

  // So a working restore of a complete row is enough, whichever other steps fail.
  lemma NeverUncovered(policies: Policies, w: World, userId: Int64, asked: string, plan: ProvisionPlan)
    requires Covered(w, userId) && Safe(w)
    requires plan.issued.Some? ==> Unused(w, plan.issued.value.fingerprint)
    requires plan.restore && userId != 0 && Complete(CurrentTrust(w, userId).value)
    ensures AllCovered(Provision(policies, w, userId, asked, plan).trail, userId)
  {
    MakeBeforeBreak(policies, w, userId, asked, plan);
    hide Provision, Revokes, Registers, AllCovered;
  }

  // ----- safety -----

  // Whatever Incus trusts is the active fingerprint in the row of the user it is trusted
  // for, in that row's project; and no two rows share a fingerprint.
  ghost predicate Safe(w: World) {
    && (forall f :: f in w.trusted ==> Backed(w, f))
    && (forall u, v :: u in w.rows && v in w.rows && u != v ==> w.rows[u].fingerprint != w.rows[v].fingerprint)
  }

  predicate Backed(w: World, fingerprint: string)
    requires fingerprint in w.trusted
  {
    var t := w.trusted[fingerprint];
    fingerprint != "" && t.userId in w.rows
    && var row := w.rows[t.userId];
    row.fingerprint == fingerprint && !row.revoked && row.project == t.project
  }

  lemma AtMostOneTrusted(w: World, f: string, g: string)
    requires Safe(w) && f in w.trusted && g in w.trusted
    requires w.trusted[f].userId == w.trusted[g].userId
    ensures f == g
  {
  }

  lemma SafeOfCore(a: World, b: World)
    requires SameCore(a, b)
    ensures Safe(a) == Safe(b)
  {
  }

  // A trusted fingerprint other than the user's own current one is backed by another user.
  lemma BackedByOther(w: World, userId: Int64, fingerprint: string)
    requires Safe(w) && fingerprint in w.trusted
    requires CurrentTrust(w, userId).Some? ==> CurrentTrust(w, userId).value.fingerprint != fingerprint
    ensures w.trusted[fingerprint].userId != userId
  {
  }

  // Storing the new row keeps the world safe if the previous fingerprint is not trusted.
  lemma StoredSafe(w: World, userId: Int64, next: Row)
    requires Safe(w) && Unused(w, next.fingerprint) && !next.revoked
    requires CurrentTrust(w, userId).Some? ==> CurrentTrust(w, userId).value.fingerprint !in w.trusted
    ensures Safe(PutRow(w, userId, next)) && Safe(PutRow(WithTrust(w, next, userId), userId, next))
  {
    var a, b := PutRow(w, userId, next), PutRow(WithTrust(w, next, userId), userId, next);
    forall f | f in b.trusted ensures Backed(b, f) && (f in a.trusted ==> Backed(a, f)) {
      if f in w.trusted {
        BackedByOther(w, userId, f);
        assert Backed(w, f);
      }
    }
  }

  lemma LessTrustSafe(w: World, fingerprint: string)
    requires Safe(w)
    ensures Safe(WithoutTrust(w, fingerprint))
  {
  }

  // A failed store leaves the new fingerprint trusted without a row.
  lemma UnbackedTrust(w: World, userId: Int64, next: Row)
    requires Unused(w, next.fingerprint)
    ensures !Safe(WithTrust(w, next, userId))
  {
    assert !Backed(WithTrust(w, next, userId), next.fingerprint);
  }

  // A row replaced while its fingerprint is still trusted leaves that fingerprint without a row.
  lemma UnbackedPrevious(w: World, userId: Int64, next: Row, e: World)
    requires Safe(w) && CurrentTrust(w, userId).Some?
    requires var f := CurrentTrust(w, userId).value.fingerprint;
             f in w.trusted && f in e.trusted && e.trusted[f] == w.trusted[f] && f != next.fingerprint
    requires e.rows == w.rows[userId := next]
    ensures !Safe(e)
  {
  }

  // Exactly when an aftermath is safe.
  lemma AftermathSafe(w: World, userId: Int64, next: Row, verdict: Verdict)
    requires Safe(w) && Unused(w, next.fingerprint) && !next.revoked
    requires verdict.RolledBack? ==> CurrentTrust(w, userId).Some?
    ensures Safe(Aftermath(w, userId, next, verdict)) <==>
              Compensated(verdict)
              || (verdict.RolledBack? && !verdict.restored && CurrentTrust(w, userId).value.fingerprint !in w.trusted)
  {
    var e := Aftermath(w, userId, next, verdict);
    var previous := CurrentTrust(w, userId);
    var trusted := WithTrust(w, next, userId);
    hide Backed, Aftermath, AfterStore;
    match verdict
    case Declined => AftermathIs(w, userId, next, verdict);
    case Done =>
      AftermathIs(w, userId, next, verdict);
      if previous.Some? {
        LessTrustSafe(w, previous.value.fingerprint);
        StoredSafe(WithoutTrust(w, previous.value.fingerprint), userId, next);
      } else {
        StoredSafe(w, userId, next);
      }
    case Undone(revokedNew) =>
      AftermathIs(w, userId, next, verdict);
      UnbackedTrust(w, userId, next);
    case RolledBack(restored, revokedNew) =>
      AftermathIs(w, userId, next, verdict);
      if restored {
        SafeWhateverProjects(w, e.projects);
        SafeWhateverProjects(trusted, e.projects);
        UnbackedTrust(w, userId, next);
      } else if previous.value.fingerprint in w.trusted {
        UnbackedPrevious(w, userId, next, e);
      } else {
        StoredSafe(w, userId, next);
      }
  }

  lemma SafeWhateverProjects(w: World, projects: map<int, string>)
    ensures Safe(w.(projects := projects)) == Safe(w)
  {
  }

  // The aftermath of an unused fingerprint, spelled out in terms of w.
  lemma AftermathIs(w: World, userId: Int64, next: Row, verdict: Verdict)
    requires Unused(w, next.fingerprint)
    requires verdict.RolledBack? ==> CurrentTrust(w, userId).Some?
    ensures var previous := CurrentTrust(w, userId);
            Aftermath(w, userId, next, verdict) ==
            match verdict
            case Declined => w
            case Undone(revokedNew) => if revokedNew then w else WithTrust(w, next, userId)
            case Done =>
              var retired := if previous.Some? then WithoutTrust(w, previous.value.fingerprint) else w;
              PutRow(WithTrust(retired, next, userId), userId, next)
            case RolledBack(restored, revokedNew) =>
              var trust := if revokedNew then w else WithTrust(w, next, userId);
              if restored then trust.(projects := w.projects[userId := previous.value.project]) else PutRow(trust, userId, next)
  {
    assert WithoutTrust(WithTrust(w, next, userId), next.fingerprint) == w by {
      assert w.trusted[next.fingerprint := Trust(userId, next.project)] - {next.fingerprint} == w.trusted;
    }
    var previous := CurrentTrust(w, userId);
    if previous.Some? {
      var f := previous.value.fingerprint;
      assert w.trusted[next.fingerprint := Trust(userId, next.project)] - {f}
          == (w.trusted - {f})[next.fingerprint := Trust(userId, next.project)];
      assert w.rows[userId := previous.value] == w.rows;
    }
  }

  // What a failing step leaves half done will be put right: the new fingerprint revoked and
  // the row restored, or, where the row cannot be restored, there was nothing trusted to keep.
  predicate Recoverable(policies: Policies, w: World, userId: Int64, asked: string, plan: ProvisionPlan) {
    Registers(policies, w.requests, userId, asked, plan) ==>
      var previous := CurrentTrust(w, userId);
      var undone := Revokes(policies, w.requests, userId, plan.issued.value.fingerprint, ProjectOf(asked), plan.undo);
      if !Stores(w, userId, plan) then undone
      else
        || previous.None?
        || Revokes(policies, w.requests, userId, previous.value.fingerprint, previous.value.project, plan.previous)
        || if Restores(w, userId, previous.value, plan.restore) then undone else previous.value.fingerprint !in w.trusted
  }

  // Starting safe, a Provision of an unused certificate ends safe exactly when it is recoverable.
  lemma ProvisionSafe(policies: Policies, w: World, userId: Int64, asked: string, plan: ProvisionPlan)
    requires Safe(w) && (plan.issued.Some? ==> Unused(w, plan.issued.value.fingerprint))
    ensures Safe(Provision(policies, w, userId, asked, plan).End(w)) <==> Recoverable(policies, w, userId, asked, plan)
  {
    ProvisionEffect(policies, w, userId, asked, plan);
    ProvisionForeseen(policies, w, userId, asked, plan);
    var o := Provision(policies, w, userId, asked, plan);
    hide Provision, Revokes, Safe, Aftermath, Restores;
    if plan.issued.Some? {
      var next := NewRow(plan.issued.value, ProjectOf(asked));
      AftermathSafe(w, userId, next, o.verdict);
      SafeOfCore(o.End(w), Aftermath(w, userId, next, o.verdict));
    } else {
      SafeOfCore(o.End(w), w);
    }
  }

  // With no step failing, safety is up to the policy: one that lets the user register in the
  // new project must let the user revoke in the old project or in the new one.
  lemma FaultFreeSafe(policies: Policies, w: World, userId: Int64, asked: string, plan: ProvisionPlan)
    requires Safe(w) && FaultFree(w, userId, plan) && ValidProject(ProjectOf(asked))
    requires Unused(w, plan.issued.value.fingerprint)
    requires CurrentTrust(w, userId).Some? ==>
               var row := CurrentTrust(w, userId).value;
               Complete(row) && ValidProject(row.project)
    ensures Safe(Provision(policies, w, userId, asked, plan).End(w)) <==>
              (Permits(policies, userId, ProjectOf(asked), REGISTER) && CurrentTrust(w, userId).Some? ==>
                 || Permits(policies, userId, CurrentTrust(w, userId).value.project, REVOKE)
                 || Permits(policies, userId, ProjectOf(asked), REVOKE))
  {
    ProvisionSafe(policies, w, userId, asked, plan);
    hide Provision, Permits;
  }

  // A policy file may list registering alone: only its projects are validated.
  const REGISTER_ONLY := Policy(0, "", ["default", "web"], [REGISTER])

  lemma RegisterOnlyPermits(userId: nat, project: string)
    requires project == "default" || project == "web"
    ensures var policies := map[DEFAULT_POLICY := REGISTER_ONLY];
            ValidProject(project) && Permits(policies, userId, project, REGISTER) && !Permits(policies, userId, project, REVOKE)
  {
    assert PolicyName(userId)[0] == 'h' && DEFAULT_POLICY[0] == 'd';
    assert REGISTER[2] != REVOKE[2];
    assert ValidProject("default") && ValidProject("web");
    assert LoadPolicy(map[DEFAULT_POLICY := REGISTER_ONLY], userId) == Ok(REGISTER_ONLY);
  }

  // Under such a policy, moving a user to another project leaves the new fingerprint trusted
  // without a row, although no step fails: the helper refuses to revoke either fingerprint.
  lemma RegisterOnlyStrands() returns (w: World, plan: ProvisionPlan)
    ensures Safe(w) && FaultFree(w, 1, plan) && Unused(w, plan.issued.value.fingerprint)
    ensures var o := Provision(map[DEFAULT_POLICY := REGISTER_ONLY], w, 1, "web", plan);
            o.verdict == RolledBack(true, false) && !Safe(o.End(w))
  {
    var first, second := seq(64, _ => 'a'), seq(64, _ => 'b');
    var row := Row("certificate", "key", first, true, "default", None, false);
    w := World(map[1 := row], map[1 := "default"], map[], map[], map[first := Trust(1, "default")]);
    var ticket := Ticket("0000000000000000", Fine, Fine);
    plan := ProvisionPlan(Some(Issued("certificate", "key", second, 0)), true, ticket, true, true, ticket, true, ticket);
    var policies := map[DEFAULT_POLICY := REGISTER_ONLY];
    RegisterOnlyPermits(1, "default");
    RegisterOnlyPermits(1, "web");
    assert first[0] != second[0];
    assert Safe(w) && Unused(w, second) && ValidFingerprint(first) && ValidFingerprint(second);
    assert CurrentTrust(w, 1) == Some(row) && !TakenByOther(w, 1, first);
    hide Permits, Provision, RequestName, ValidProject, Safe, Unused, TakenByOther, CurrentTrust, ValidFingerprint;
    PolicyDecides(policies, w, 1, "web", plan);
    FaultFreeSafe(policies, w, 1, "web", plan);
  }

  lemma MarkSafe(w: World, userId: Int64)
    requires Safe(w) && CurrentTrust(w, userId).Some?
    requires CurrentTrust(w, userId).value.fingerprint !in w.trusted
    ensures Safe(MarkRevoked(w, userId))
  {
  }

  // Where Revoke can end: nothing changed, the fingerprint out of the trust store, or that
  // and the row marked.
  lemma RevokeEffect(policies: Policies, w: World, userId: Int64, plan: RevokePlan)
    ensures var steps := Revoke(policies, w, userId, plan);
            var e := steps.End(w);
            match CurrentTrust(w, userId)
            case None => SameCore(e, w)
            case Some(row) =>
              var less := WithoutTrust(w, row.fingerprint);
              if steps.ok then SameCore(e, MarkRevoked(less, userId)) else SameCore(e, w) || SameCore(e, less)
  {
    hide RevokeFingerprint;
    var current := CurrentTrust(w, userId);
    if plan.get && current.Some? {
      var row := current.value;
      var revoke := RevokeFingerprint(policies, w, userId, row.fingerprint, row.project, plan.ticket);
      RevokeFingerprintEffect(policies, w, userId, row.fingerprint, row.project, plan.ticket);
      LastOfConcat(w, revoke.trail, [MarkRevoked(revoke.End(w), userId)]);
    }
  }

  // Revoke ends safe whichever of its steps fail; when it reports success the user has no
  // active row and none of the user's fingerprints is trusted.
  lemma RevokeSafe(policies: Policies, w: World, userId: Int64, plan: RevokePlan)
    requires Safe(w)
    ensures var steps := Revoke(policies, w, userId, plan);
            var e := steps.End(w);
            Safe(e)
            && (steps.ok ==> CurrentTrust(e, userId).None? && forall f :: f in e.trusted ==> e.trusted[f].userId != userId)
  {
    RevokeEffect(policies, w, userId, plan);
    var steps := Revoke(policies, w, userId, plan);
    var e := steps.End(w);
    hide Revoke;
    forall f | f in w.trusted && w.trusted[f].userId == userId
      ensures CurrentTrust(w, userId).Some? && CurrentTrust(w, userId).value.fingerprint == f
    {
      assert Backed(w, f);
    }
    hide Safe, Backed;
    if SameCore(e, w) {
      SafeOfCore(e, w);
    }
    if CurrentTrust(w, userId).Some? {
      var less := WithoutTrust(w, CurrentTrust(w, userId).value.fingerprint);
      LessTrustSafe(w, CurrentTrust(w, userId).value.fingerprint);
      MarkSafe(less, userId);
      if SameCore(e, less) {
        SafeOfCore(e, less);
      }
      if SameCore(e, MarkRevoked(less, userId)) {
        SafeOfCore(e, MarkRevoked(less, userId));
      }
    }
  }

  // ----- whole runs -----

  datatype Call =
    | ProvisionCall(userId: Int64, asked: string, plan: ProvisionPlan)
    | RevokeCall(userId: Int64, revoke: RevokePlan)

  function After(policies: Policies, w: World, call: Call): World {
    match call
    case ProvisionCall(userId, asked, plan) => Provision(policies, w, userId, asked, plan).End(w)
    case RevokeCall(userId, plan) => Revoke(policies, w, userId, plan).End(w)
  }

  function AfterAll(policies: Policies, w: World, calls: seq<Call>): World
    decreases |calls|
  {
    if calls == [] then w else AfterAll(policies, After(policies, w, calls[0]), calls[1..])
  }

  // A new certificate is nobody's yet when it is issued.
  ghost predicate Issues(w: World, call: Call) {
    call.ProvisionCall? && call.plan.issued.Some? ==> Unused(w, call.plan.issued.value.fingerprint)
  }

  ghost predicate FreshRun(policies: Policies, w: World, calls: seq<Call>)
    decreases |calls|
  {
    calls != [] ==> Issues(w, calls[0]) && FreshRun(policies, After(policies, w, calls[0]), calls[1..])
  }

  // Each call is recoverable in the world it is made in.
  predicate Clean(policies: Policies, w: World, calls: seq<Call>)
    decreases |calls|
  {
    calls != [] ==>
      && (calls[0].ProvisionCall? ==> Recoverable(policies, w, calls[0].userId, calls[0].asked, calls[0].plan))
      && Clean(policies, After(policies, w, calls[0]), calls[1..])
  }

  ghost predicate SafeThroughout(policies: Policies, w: World, calls: seq<Call>)
    decreases |calls|
  {
    Safe(w) && (calls != [] ==> SafeThroughout(policies, After(policies, w, calls[0]), calls[1..]))
  }

  lemma CallSafe(policies: Policies, w: World, call: Call)
    requires Safe(w) && Issues(w, call)
    ensures Safe(After(policies, w, call)) <==>
              (call.ProvisionCall? ==> Recoverable(policies, w, call.userId, call.asked, call.plan))
  {
    hide Provision, Revoke, Unused, Recoverable, Safe;
    match call
    case ProvisionCall(userId, asked, plan) => ProvisionSafe(policies, w, userId, asked, plan);
    case RevokeCall(userId, plan) => RevokeSafe(policies, w, userId, plan);
  }

  // Whatever calls are made for however many users: after each of them every user has at
  // most one trusted fingerprint, the active one of the user's row, exactly when every
  // call is recoverable where it is made.
  lemma {:induction false} RunsAreSafe(policies: Policies, w: World, calls: seq<Call>)
    requires Safe(w) && FreshRun(policies, w, calls)
    ensures SafeThroughout(policies, w, calls) <==> Clean(policies, w, calls)
    decreases |calls|
  {
    hide After, Issues, Recoverable, Safe;
    if calls != [] {
      var w' := After(policies, w, calls[0]);
      CallSafe(policies, w, calls[0]);
      if Safe(w') {
        RunsAreSafe(policies, w', calls[1..]);
      }
    }
  }

  // Every call keeps rows and projects in agreement, however it ends.
  lemma AgreementKept(policies: Policies, w: World, call: Call)
    requires Agree(w)
    ensures Agree(After(policies, w, call))
  {
    match call
    case ProvisionCall(userId, asked, plan) => ProvisionAgrees(policies, w, userId, asked, plan);
    case RevokeCall(userId, plan) => RevokeAgrees(policies, w, userId, plan);
  }

  // ----- runs that are always safe -----

  // Every active row is one that can be restored.
  ghost predicate Whole(w: World) {
    forall u :: u in w.rows && !w.rows[u].revoked && w.rows[u].fingerprint != "" ==> u != 0 && Complete(w.rows[u])
  }

  // What a caller can see to: a new certificate with its key, a working restore, a working
  // undo under a request name that is not in use, and a policy that lets the user revoke
  // in the new project. Registering, storing and revoking the old fingerprint may all fail.
  ghost predicate Ready(policies: Policies, w: World, call: Call) {
    match call
    case RevokeCall(_, _) => true
    case ProvisionCall(userId, asked, plan) =>
      plan.issued.Some? && userId > 0 ==>
        var issued := plan.issued.value;
        && Unused(w, issued.fingerprint) && issued.cert != "" && issued.key != ""
        && plan.restore && plan.undo.write.Fine? && plan.undo.run.Fine?
        && RequestName(REVOKE, userId, issued.fingerprint, plan.undo.token) !in w.requests
        && Permits(policies, userId, ProjectOf(asked), REVOKE)
  }

  ghost predicate AllReady(policies: Policies, w: World, calls: seq<Call>)
    decreases |calls|
  {
    calls != [] ==> Ready(policies, w, calls[0]) && AllReady(policies, After(policies, w, calls[0]), calls[1..])
  }

  lemma DeclinedKeeps(policies: Policies, w: World, userId: Int64, asked: string, plan: ProvisionPlan)
    requires !Registers(policies, w.requests, userId, asked, plan)
    ensures SameCore(Provision(policies, w, userId, asked, plan).End(w), w)
  {
    ProvisionEffect(policies, w, userId, asked, plan);
    ProvisionForeseen(policies, w, userId, asked, plan);
    hide Provision, Registers;
  }

  lemma WholeKept(policies: Policies, w: World, call: Call)
    requires Whole(w) && Ready(policies, w, call)
    ensures Whole(After(policies, w, call))
  {
    match call
    case ProvisionCall(userId, asked, plan) =>
      ProvisionEffect(policies, w, userId, asked, plan);
      ProvisionForeseen(policies, w, userId, asked, plan);
      var o := Provision(policies, w, userId, asked, plan);
      hide Provision, Revokes, Permits, Aftermath;
      if Registers(policies, w.requests, userId, asked, plan) {
        AftermathPuts(w, userId, NewRow(plan.issued.value, ProjectOf(asked)), o.verdict);
      } else {
        DeclinedKeeps(policies, w, userId, asked, plan);
      }
    case RevokeCall(userId, plan) =>
      RevokeEffect(policies, w, userId, plan);
      hide Revoke;
  }

  lemma ReadySafe(policies: Policies, w: World, call: Call)
    requires Safe(w) && Whole(w) && Ready(policies, w, call)
    ensures Safe(After(policies, w, call))
  {
    hide Provision, Revoke, Permits;
    match call
    case ProvisionCall(userId, asked, plan) =>
      if plan.issued.Some? && userId > 0 {
        assert CurrentTrust(w, userId).Some? ==> !TakenByOther(w, userId, CurrentTrust(w, userId).value.fingerprint);
        ProvisionSafe(policies, w, userId, asked, plan);
      } else {
        DeclinedKeeps(policies, w, userId, asked, plan);
        SafeOfCore(After(policies, w, call), w);
      }
    case RevokeCall(userId, plan) => RevokeSafe(policies, w, userId, plan);
  }

  // A run of ready calls keeps every user safe, every row restorable and every project in
  // agreement with its row, whichever other steps fail.
  lemma {:induction false} ReadyRunsAreSafe(policies: Policies, w: World, calls: seq<Call>)
    requires Safe(w) && Whole(w) && Agree(w) && AllReady(policies, w, calls)
    ensures SafeThroughout(policies, w, calls)
    ensures Whole(AfterAll(policies, w, calls)) && Agree(AfterAll(policies, w, calls))
    decreases |calls|
  {
    hide After, Ready, Whole, Safe, Agree;
    if calls != [] {
      ReadySafe(policies, w, calls[0]);
      WholeKept(policies, w, calls[0]);
      AgreementKept(policies, w, calls[0]);
      ReadyRunsAreSafe(policies, After(policies, w, calls[0]), calls[1..]);
    }
  }

  // ----- other users -----

  // A call touches nobody else's row and nobody else's trust.
  lemma OthersUntouched(policies: Policies, w: World, userId: Int64, asked: string, plan: ProvisionPlan, other: int)
    requires Safe(w) && other != userId
    requires plan.issued.Some? ==> Unused(w, plan.issued.value.fingerprint)
    ensures var e := Provision(policies, w, userId, asked, plan).End(w);
            && (other in e.rows <==> other in w.rows) && (other in w.rows ==> e.rows[other] == w.rows[other])
            && forall f :: f in w.trusted && w.trusted[f].userId == other ==> f in e.trusted && e.trusted[f] == w.trusted[f]
  {
    ProvisionEffect(policies, w, userId, asked, plan);
    OnlyWithPrevious(policies, w, userId, asked, plan);
    var o := Provision(policies, w, userId, asked, plan);
    if plan.issued.Some? {
      var next := NewRow(plan.issued.value, ProjectOf(asked));
      assert next.fingerprint == plan.issued.value.fingerprint;
      hide Provision, Aftermath, NewRow, Safe, Unused, CurrentTrust;
      AftermathOfOthers(w, userId, next, o.verdict, other);
    }
  }

  lemma AftermathOfOthers(w: World, userId: Int64, next: Row, verdict: Verdict, other: int)
    requires Safe(w) && other != userId && Unused(w, next.fingerprint)
    requires verdict.RolledBack? ==> CurrentTrust(w, userId).Some?
    ensures var e := Aftermath(w, userId, next, verdict);
            && (other in e.rows <==> other in w.rows) && (other in w.rows ==> e.rows[other] == w.rows[other])
            && forall f :: f in w.trusted && w.trusted[f].userId == other ==> f in e.trusted && e.trusted[f] == w.trusted[f]
  {
    forall f | f in w.trusted && w.trusted[f].userId == other
      ensures f != next.fingerprint && (CurrentTrust(w, userId).Some? ==> CurrentTrust(w, userId).value.fingerprint != f)
    {
      assert Backed(w, f);
    }
    AftermathIs(w, userId, next, verdict);
    hide Aftermath, Safe, Unused, CurrentTrust;
  }

  lemma OthersUntouchedByRevoke(policies: Policies, w: World, userId: Int64, plan: RevokePlan, other: int)
    requires Safe(w) && other != userId
    ensures var e := Revoke(policies, w, userId, plan).End(w);
            && (other in e.rows <==> other in w.rows) && (other in w.rows ==> e.rows[other] == w.rows[other])
            && forall f :: f in w.trusted && w.trusted[f].userId == other ==> f in e.trusted && e.trusted[f] == w.trusted[f]
  {
    RevokeEffect(policies, w, userId, plan);
    hide Revoke;
    forall f | f in w.trusted && w.trusted[f].userId == other
      ensures CurrentTrust(w, userId).Some? ==> CurrentTrust(w, userId).value.fingerprint != f
    {
      assert Backed(w, f);
    }
  }
}
