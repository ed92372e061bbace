// How a call will end, read off before it starts: from the policies, the stores, the
// request directory and the plan of which steps fail.
module TrustForecast {
  import opened Numerals
  import opened TrustNames
  import opened TrustHelper
  import opened TrustSteps
  import opened TrustEffects

  type Requests = map<string, RequestFile>

  // ----- single steps -----

  // Revoking this fingerprint will succeed.
  predicate Revokes(
      policies: Policies, requests: Requests, userId: Int64, fingerprint: string, project: string, ticket: Ticket)
  {
    && userId > 0 && ValidFingerprint(fingerprint) && ValidProject(project)
    && ticket.write.Fine? && ticket.run.Fine?
    && RequestName(REVOKE, userId, fingerprint, ticket.token) !in requests
    && Permits(policies, userId, project, REVOKE)
  }

  // A certificate will be issued, staged and registered.
  predicate Registers(policies: Policies, requests: Requests, userId: Int64, asked: string, plan: ProvisionPlan) {
    && userId > 0 && ValidProject(ProjectOf(asked))
    && plan.issued.Some? && ValidFingerprint(plan.issued.value.fingerprint)
    && plan.stage && plan.get && plan.register.write.Fine? && plan.register.run.Fine?
    && RequestName(REGISTER, userId, plan.issued.value.fingerprint, plan.register.token) !in requests
    && Permits(policies, userId, ProjectOf(asked), REGISTER)
  }

  // The new row will be stored.
  predicate Stores(w: World, userId: Int64, plan: ProvisionPlan) {
    plan.issued.Some? && plan.upsert && !TakenByOther(w, userId, plan.issued.value.fingerprint)
  }

  // A row that Restore takes.
  predicate Complete(row: Row) {
    row.cert != "" && row.key != "" && row.fingerprint != "" && row.project != ""
  }

  // The row will be restored.
  predicate Restores(w: World, userId: Int64, row: Row, works: bool) {
    works && userId != 0 && Complete(row) && !TakenByOther(w, userId, row.fingerprint)
  }

  // The request directories differ at most in this name.
  predicate SameBut(a: Requests, b: Requests, name: string) {
    a - {name} == b - {name}
  }

  lemma RevokesExactly(
      policies: Policies, w: World, userId: Int64, fingerprint: string, project: string, ticket: Ticket)
    ensures var steps := RevokeFingerprint(policies, w, userId, fingerprint, project, ticket);
            var requests := steps.End(w).requests;
            && (steps.ok <==> Revokes(policies, w.requests, userId, fingerprint, project, ticket))
            && (steps.ok ==> requests == w.requests)
            && (requests == w.requests
                || (userId > 0 && ValidFingerprint(fingerprint)
                    && SameBut(requests, w.requests, RequestName(REVOKE, userId, fingerprint, ticket.token))))
  {
    hide CheckRevoke, Permits, ValidFingerprint, ValidProject, RequestName;
    if userId > 0 && ValidFingerprint(fingerprint) && ValidProject(project) && !ticket.write.Before? {
      var name := RequestName(REVOKE, userId, fingerprint, ticket.token);
      if name !in w.requests && ticket.write.Fine? {
        var w1 := w.(requests := w.requests[name := Written(Manifest(REVOKE, userId, fingerprint, project, ""))]);
        RevokeAccepted(policies, w1.requests, userId, fingerprint, project, ticket.token);
        assert w1.requests - {name} == w.requests;
      }
    }
  }

  // Staging and registering succeed as foreseen; then no request file is left.
  lemma RegistersExactly(policies: Policies, w: World, userId: Int64, asked: string, plan: ProvisionPlan)
    requires userId > 0 && ValidProject(ProjectOf(asked)) && plan.issued.Some?
    ensures var next := NewRow(plan.issued.value, ProjectOf(asked));
            var prepare := Prepare(w, userId, next, plan);
            var w1 := prepare.End(w);
            var name := RequestName(REGISTER, userId, next.fingerprint, plan.register.token);
            var register := HelperRegister(policies, w1, next.fingerprint, next.project,
                                           CertName(userId, next.fingerprint), name, plan.register.run);
            && (prepare.ok && plan.get && register.ok <==> Registers(policies, w.requests, userId, asked, plan))
            && (prepare.ok && register.ok ==> register.End(w1).requests == w.requests)
  {
    var next := NewRow(plan.issued.value, ProjectOf(asked));
    var name := RequestName(REGISTER, userId, next.fingerprint, plan.register.token);
    var prepare := Prepare(w, userId, next, plan);
    var w1 := prepare.End(w);
    if prepare.ok {
      var certName := CertName(userId, next.fingerprint);
      assert w1.requests == w.requests[name := Written(Manifest(REGISTER, userId, next.fingerprint, next.project, certName))];
      assert w1.staged == w.staged[certName := next.fingerprint];
      RegisterAccepted(policies, w1.requests, w1.staged, userId, next.fingerprint, next.project, plan.register.token);
      assert w1.requests - {name} == w.requests;
    }
    hide CheckRegister, Permits;
  }

  // ----- whole calls -----

  // How Provision will end.
  function Foreseen(policies: Policies, w: World, userId: Int64, asked: string, plan: ProvisionPlan): Verdict {
    if !Registers(policies, w.requests, userId, asked, plan) then Declined
    else
      var next := NewRow(plan.issued.value, ProjectOf(asked));
      var previous := CurrentTrust(w, userId);
      var undone := Revokes(policies, w.requests, userId, next.fingerprint, next.project, plan.undo);
      if !Stores(w, userId, plan) then Undone(undone)
      else if previous.None? || previous.value.fingerprint == next.fingerprint then Done
      else if Revokes(policies, w.requests, userId, previous.value.fingerprint, previous.value.project, plan.previous) then Done
      else RolledBack(Restores(w, userId, previous.value, plan.restore), undone)
  }

  lemma RetireForeseen(policies: Policies, w: World, userId: Int64, previous: Row, next: Row, plan: ProvisionPlan)
    requires userId > 0 && previous.fingerprint != next.fingerprint
    ensures var o := Retire(policies, w, userId, previous, next, plan);
            && o.verdict ==
                 (if Revokes(policies, w.requests, userId, previous.fingerprint, previous.project, plan.previous) then Done
                  else RolledBack(Restores(w, userId, previous, plan.restore),
                                  Revokes(policies, w.requests, userId, next.fingerprint, next.project, plan.undo)))
            && (o.verdict.Done? ==> o.End(w).requests == w.requests)
  {
    hide RevokeFingerprint, Permits;
    var revoke := RevokeFingerprint(policies, w, userId, previous.fingerprint, previous.project, plan.previous);
    RevokesExactly(policies, w, userId, previous.fingerprint, previous.project, plan.previous);
    RevokeFingerprintEffect(policies, w, userId, previous.fingerprint, previous.project, plan.previous);
    if !revoke.ok {
      var w1 := revoke.End(w);
      var w2 := Restore(w1, userId, previous, plan.restore).End(w1);
      RevokesExactly(policies, w2, userId, next.fingerprint, next.project, plan.undo);
      SameUndo(policies, w.requests, w2.requests, userId, previous.fingerprint, next, plan);
    }
  }

  // What revoking the previous fingerprint leaves behind is not in the way of the undo.
  lemma SameUndo(
      policies: Policies, a: Requests, b: Requests, userId: Int64, previous: string, next: Row, plan: ProvisionPlan)
    requires userId > 0 && previous != next.fingerprint
    requires b == a
             || (ValidFingerprint(previous) && SameBut(b, a, RequestName(REVOKE, userId, previous, plan.previous.token)))
    ensures Revokes(policies, b, userId, next.fingerprint, next.project, plan.undo)
            == Revokes(policies, a, userId, next.fingerprint, next.project, plan.undo)
  {
    hide Permits, RequestName, ValidProject;
    if b != a && ValidFingerprint(next.fingerprint) {
      var left := RequestName(REVOKE, userId, previous, plan.previous.token);
      var name := RequestName(REVOKE, userId, next.fingerprint, plan.undo.token);
      if name == left {
        RequestNameInjective(REVOKE, userId, previous, plan.previous.token,
                             REVOKE, userId, next.fingerprint, plan.undo.token);
      }
      assert name in a <==> name in a - {left};
      assert name in b <==> name in b - {left};
    }
  }

  lemma TakenAfterPut(w: World, userId: Int64, row: Row, fingerprint: string)
    ensures TakenByOther(PutRow(w, userId, row), userId, fingerprint) == TakenByOther(w, userId, fingerprint)
  {
    var put := PutRow(w, userId, row);
    assert forall u :: u != userId ==> (u in put.rows <==> u in w.rows) && (u in w.rows ==> put.rows[u] == w.rows[u]);
  }

  lemma StoreForeseen(policies: Policies, w: World, userId: Int64, next: Row, plan: ProvisionPlan)
    requires userId > 0 && plan.issued.Some? && next.fingerprint == plan.issued.value.fingerprint
    ensures var previous := CurrentTrust(w, userId);
            var o := Store(policies, w, userId, previous, next, plan);
            var undone := Revokes(policies, w.requests, userId, next.fingerprint, next.project, plan.undo);
            && o.verdict ==
                 (if !Stores(w, userId, plan) then Undone(undone)
                  else if previous.None? || previous.value.fingerprint == next.fingerprint then Done
                  else if Revokes(policies, w.requests, userId, previous.value.fingerprint, previous.value.project, plan.previous)
                  then Done
                  else RolledBack(Restores(w, userId, previous.value, plan.restore), undone))
            && (o.verdict.Done? ==> o.End(w).requests == w.requests)
  {
    hide RevokeFingerprint, Retire, Revokes;
    RevokesExactly(policies, w, userId, next.fingerprint, next.project, plan.undo);
    var previous := CurrentTrust(w, userId);
    if previous.Some? && previous.value.fingerprint != next.fingerprint {
      var stored := PutRow(w, userId, next);
      RetireForeseen(policies, stored, userId, previous.value, next, plan);
      TakenAfterPut(w, userId, next, previous.value.fingerprint);
    }
  }

  lemma DeclinedAtOnce(policies: Policies, requests: Requests, userId: Int64, asked: string, plan: ProvisionPlan)
    ensures Registers(policies, requests, userId, asked, plan) ==>
              userId > 0 && ValidProject(ProjectOf(asked)) && plan.issued.Some?
  {
  }

  // Every call ends as foreseen, whichever of its steps fail.
  lemma ProvisionForeseen(policies: Policies, w: World, userId: Int64, asked: string, plan: ProvisionPlan)
    ensures var o := Provision(policies, w, userId, asked, plan);
            && o.verdict == Foreseen(policies, w, userId, asked, plan)
            && (o.verdict.Done? ==> o.End(w).requests == w.requests)
  {
    hide Prepare, HelperRegister, Store, Revokes, Registers;
    if userId > 0 && ValidProject(ProjectOf(asked)) && plan.issued.Some? {
      var next := NewRow(plan.issued.value, ProjectOf(asked));
      var prepare := Prepare(w, userId, next, plan);
      var w1 := prepare.End(w);
      var name := RequestName(REGISTER, userId, next.fingerprint, plan.register.token);
      var register := HelperRegister(policies, w1, next.fingerprint, next.project, CertName(userId, next.fingerprint),
                                     name, plan.register.run);
      RegistersExactly(policies, w, userId, asked, plan);
      PrepareEffect(w, userId, next, plan);
      RegisterEffect(policies, w1, userId, next.fingerprint, next.project, name, plan.register.run);
      if prepare.ok && plan.get && register.ok {
        var w2 := register.End(w1);
        assert CurrentTrust(w1, userId) == CurrentTrust(w2, userId) == CurrentTrust(w, userId);
        StoreForeseen(policies, w2, userId, next, plan);
        LastOfConcat(w, prepare.trail, register.trail);
        LastOfConcat(w, prepare.trail + register.trail, Store(policies, w2, userId, CurrentTrust(w1, userId), next, plan).trail);
      }
    } else {
      DeclinedAtOnce(policies, w.requests, userId, asked, plan);
    }
  }

  // ----- calls that can be undone, and calls without a fault -----

  // Whatever has to be undone will be: the row can be put back, and the policy lets the
  // user's new fingerprint be revoked again.
  predicate UndoReady(policies: Policies, w: World, userId: Int64, asked: string, plan: ProvisionPlan) {
    && userId > 0 && plan.undo.write.Fine? && plan.undo.run.Fine?
    && (plan.issued.Some? ==> RequestName(REVOKE, userId, plan.issued.value.fingerprint, plan.undo.token) !in w.requests)
    && Permits(policies, userId, ProjectOf(asked), REVOKE)
    && (CurrentTrust(w, userId).Some? ==> Restores(w, userId, CurrentTrust(w, userId).value, plan.restore))
  }

  // Then no failure of another step leaves anything half done.
  lemma UndoReadyCompensates(policies: Policies, w: World, userId: Int64, asked: string, plan: ProvisionPlan)
    requires UndoReady(policies, w, userId, asked, plan)
    ensures Compensated(Provision(policies, w, userId, asked, plan).verdict)
  {
    ProvisionForeseen(policies, w, userId, asked, plan);
    hide Provision;
  }

  // No step of the plan fails, and its request names are not in use.
  predicate FaultFree(w: World, userId: Int64, plan: ProvisionPlan) {
    && userId > 0 && plan.issued.Some? && ValidFingerprint(plan.issued.value.fingerprint)
    && plan.stage && plan.get && plan.upsert && plan.restore
    && plan.register.write.Fine? && plan.register.run.Fine?
    && plan.previous.write.Fine? && plan.previous.run.Fine?
    && plan.undo.write.Fine? && plan.undo.run.Fine?
    && RequestName(REGISTER, userId, plan.issued.value.fingerprint, plan.register.token) !in w.requests
    && RequestName(REVOKE, userId, plan.issued.value.fingerprint, plan.undo.token) !in w.requests
    && (CurrentTrust(w, userId).Some? ==>
          var f := CurrentTrust(w, userId).value.fingerprint;
          ValidFingerprint(f) && RequestName(REVOKE, userId, f, plan.previous.token) !in w.requests)
  }

  // Without a fault the policy alone decides how a call ends. If it lets the user register in
  // the new project but not revoke in the old one, the row is put back, and the new
  // fingerprint is taken out again only if the policy lets the user revoke in the new project.
  lemma PolicyDecides(policies: Policies, w: World, userId: Int64, asked: string, plan: ProvisionPlan)
    requires FaultFree(w, userId, plan) && ValidProject(ProjectOf(asked)) && Unused(w, plan.issued.value.fingerprint)
    requires CurrentTrust(w, userId).Some? ==>
               var row := CurrentTrust(w, userId).value;
               Complete(row) && ValidProject(row.project) && !TakenByOther(w, userId, row.fingerprint)
    ensures Provision(policies, w, userId, asked, plan).verdict ==
              if !Permits(policies, userId, ProjectOf(asked), REGISTER) then Declined
              else if CurrentTrust(w, userId).None?
                   || Permits(policies, userId, CurrentTrust(w, userId).value.project, REVOKE) then Done
              else RolledBack(true, Permits(policies, userId, ProjectOf(asked), REVOKE))
  {
    ProvisionForeseen(policies, w, userId, asked, plan);
    hide Provision, Permits;
  }

  // A call none of whose steps fails succeeds exactly when the policy lets the user register
  // in the new project and revoke in the old one; it leaves no request file behind.
  lemma HealthyProvision(policies: Policies, w: World, userId: Int64, asked: string, plan: ProvisionPlan)
    requires userId > 0 && ValidProject(if asked == "" then "default" else asked)
    requires plan.issued.Some? && ValidFingerprint(plan.issued.value.fingerprint) && Unused(w, plan.issued.value.fingerprint)
    requires plan.stage && plan.get && plan.upsert
    requires plan.register.write.Fine? && plan.register.run.Fine? && plan.previous.write.Fine? && plan.previous.run.Fine?
    requires RequestName(REGISTER, userId, plan.issued.value.fingerprint, plan.register.token) !in w.requests
    requires CurrentTrust(w, userId).Some? ==>
               var row := CurrentTrust(w, userId).value;
               && ValidFingerprint(row.fingerprint) && ValidProject(row.project)
               && RequestName(REVOKE, userId, row.fingerprint, plan.previous.token) !in w.requests
    ensures var o := Provision(policies, w, userId, asked, plan);
            && (o.verdict.Done? <==>
                  && Permits(policies, userId, if asked == "" then "default" else asked, REGISTER)
                  && (CurrentTrust(w, userId).Some? ==>
                        Permits(policies, userId, CurrentTrust(w, userId).value.project, REVOKE)))
            && (o.verdict.Done? ==> o.End(w).requests == w.requests)
  {
    ProvisionForeseen(policies, w, userId, asked, plan);
    hide Provision, Permits;
  }
}
