// What callers of Provision and Revoke get, said on their arguments and on the certificate.
module TrustOutcomes {
  import opened Numerals
  import opened TrustNames
  import opened TrustHelper
  import opened TrustPolicy
  import opened TrustSteps
  import opened TrustEffects
  import opened TrustForecast
  import opened TrustSafety

  // ----- Provision -----

  // After a call that succeeds, row, user and trust entry are in the project asked for, or in
  // "default" when none was, and the row holds the certificate that was issued.
  lemma ProvisionStores(policies: Policies, w: World, userId: Int64, asked: string, plan: ProvisionPlan)
    ensures var o := Provision(policies, w, userId, asked, plan);
            var e := o.End(w);
            o.verdict.Done? ==>
              && plan.issued.Some? && userId in e.rows && userId in e.projects
              && var issued, row := plan.issued.value, e.rows[userId];
              && row.project == (if asked == "" then "default" else asked)
              && e.projects[userId] == (if asked == "" then "default" else asked)
              && issued.fingerprint in e.trusted
              && e.trusted[issued.fingerprint].userId == userId
              && e.trusted[issued.fingerprint].project == (if asked == "" then "default" else asked)
              && row.cert == issued.cert && row.key == issued.key && row.fingerprint == issued.fingerprint
              && row.expires == Some(issued.expires) && row.restricted && !row.revoked
  {
    ProvisionEffect(policies, w, userId, asked, plan);
    ProvisionForeseen(policies, w, userId, asked, plan);
    hide Provision, Revokes, Registers;
  }

  // A call without a fault succeeds exactly when the policy grants registering in the project
  // asked for and revoking in the project of the active row.
  lemma GrantDecides(policies: Policies, w: World, userId: Int64, asked: string, plan: ProvisionPlan)
    requires FaultFree(w, userId, plan) && ValidProject(if asked == "" then "default" else asked)
    requires Unused(w, plan.issued.value.fingerprint)
    requires CurrentTrust(w, userId).Some? ==> ValidProject(CurrentTrust(w, userId).value.project)
    ensures Provision(policies, w, userId, asked, plan).verdict.Done? <==>
              && Granted(policies, userId, if asked == "" then "default" else asked, "register")
              && (CurrentTrust(w, userId).Some? ==>
                    Granted(policies, userId, CurrentTrust(w, userId).value.project, "revoke"))
  {
    ProvisionForeseen(policies, w, userId, asked, plan);
    PermitsIsGranted(policies, userId, if asked == "" then "default" else asked, "register");
    if CurrentTrust(w, userId).Some? {
      PermitsIsGranted(policies, userId, CurrentTrust(w, userId).value.project, "revoke");
    }
    hide Provision, Permits, Granted, ValidProject;
  }

  // ----- Revoke -----

  // When Revoke succeeds and what it does, whichever of its steps fail: the fingerprint leaves
  // the trust store exactly when it can be revoked, and the row is marked exactly when
  // marking works too.
  lemma RevokeForeseen(policies: Policies, w: World, userId: Int64, plan: RevokePlan)
    ensures var steps := Revoke(policies, w, userId, plan);
            var e := steps.End(w);
            match CurrentTrust(w, userId)
            case None => (steps.ok <==> plan.get) && SameCore(e, w) && e.requests == w.requests
            case Some(row) =>
              var revoked := plan.get && Revokes(policies, w.requests, userId, row.fingerprint, row.project, plan.ticket);
              && (steps.ok <==> revoked && plan.mark)
              && e.trusted == (if revoked then w.trusted - {row.fingerprint} else w.trusted)
              && e.rows == (if revoked && plan.mark then w.rows[userId := row.(revoked := true)] else w.rows)
              && e.projects == w.projects
              && (revoked ==> e.requests == w.requests)
  {
    hide RevokeFingerprint, Revokes;
    if plan.get && CurrentTrust(w, userId).Some? {
      var row := CurrentTrust(w, userId).value;
      var revoke := RevokeFingerprint(policies, w, userId, row.fingerprint, row.project, plan.ticket);
      RevokesExactly(policies, w, userId, row.fingerprint, row.project, plan.ticket);
      RevokeFingerprintEffect(policies, w, userId, row.fingerprint, row.project, plan.ticket);
      LastOfConcat(w, revoke.trail, [MarkRevoked(revoke.End(w), userId)]);
    }
  }

  // Without a fault, revoking an active row succeeds exactly when the policy grants it, and
  // then the row is marked and its fingerprint no longer trusted.
  lemma HealthyRevoke(policies: Policies, w: World, userId: Int64, plan: RevokePlan)
    requires userId > 0 && CurrentTrust(w, userId).Some? && plan.get && plan.mark
    requires plan.ticket.write.Fine? && plan.ticket.run.Fine?
    requires var row := CurrentTrust(w, userId).value;
             && ValidFingerprint(row.fingerprint) && ValidProject(row.project)
             && RequestName(REVOKE, userId, row.fingerprint, plan.ticket.token) !in w.requests
    ensures var row := CurrentTrust(w, userId).value;
            var steps := Revoke(policies, w, userId, plan);
            var e := steps.End(w);
            && (steps.ok <==> Granted(policies, userId, row.project, "revoke"))
            && (steps.ok ==> userId in e.rows && e.rows[userId].revoked && row.fingerprint !in e.trusted)
  {
    RevokeForeseen(policies, w, userId, plan);
    PermitsIsGranted(policies, userId, CurrentTrust(w, userId).value.project, "revoke");
    hide Revoke, Permits, Granted;
  }
  // ----- the store and the request directory -----

  ghost predicate Unshared(w: World) {
    forall u, v :: u in w.rows && v in w.rows && u != v ==> w.rows[u].fingerprint != w.rows[v].fingerprint
  }

  // Whatever certificate is issued, no call makes two rows share a fingerprint.
  lemma FingerprintsUnshared(policies: Policies, w: World, userId: Int64, asked: string, plan: ProvisionPlan)
    requires Unshared(w)
    ensures Unshared(Provision(policies, w, userId, asked, plan).End(w))
  {
    ProvisionEffect(policies, w, userId, asked, plan);
    ProvisionForeseen(policies, w, userId, asked, plan);
    var o := Provision(policies, w, userId, asked, plan);
    hide Provision, Revokes, Registers;
    if plan.issued.Some? && (o.verdict.Done? || o.verdict.RolledBack?) {
      hide Aftermath;
      AftermathPuts(w, userId, NewRow(plan.issued.value, ProjectOf(asked)), o.verdict);
    }
  }

  // What writing a request leaves behind: the file with its manifest, a torn file when the
  // write fails halfway, and nothing when the arguments are refused or the name is in use.
  lemma RequestFiles(
      w: World, action: string, userId: Int64, fingerprint: string, project: string, certName: string, ticket: Ticket)
    ensures var steps := WriteTrustRequest(w, action, userId, fingerprint, project, certName, ticket);
            var takes := userId > 0 && ValidFingerprint(fingerprint) && ValidProject(project)
                         && RequestName(action, userId, fingerprint, ticket.token) !in w.requests;
            && (steps.ok <==> takes && ticket.write.Fine?)
            && (!takes || ticket.write.Before? ==> steps.End(w) == w)
            && (takes && !ticket.write.Before? ==>
                  var file := if ticket.write.Halfway? then Torn
                              else Written(Manifest(action, userId, fingerprint, project, certName));
                  var name := RequestName(action, userId, fingerprint, ticket.token);
                  steps.End(w) == w.(requests := w.requests[name := file]))
  {
  }

  // Incus is changed only once the request file is gone.
  lemma ConsumedBeforeRun(
      policies: Policies, w: World, fingerprint: string, project: string, certName: string, requestName: string, run: Fault)
    ensures forall world :: world in HelperRegister(policies, w, fingerprint, project, certName, requestName, run).trail ==>
              world.trusted != w.trusted ==> requestName !in world.requests
    ensures forall world :: world in HelperRevoke(policies, w, fingerprint, requestName, run).trail ==>
              world.trusted != w.trusted ==> requestName !in world.requests
  {
    hide CheckRegister, CheckRevoke;
  }
}
