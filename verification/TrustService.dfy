// UserTrustService and the helper it runs, as methods on the two stores and the two
// directories they share. Each atomic effect is noted in the history.
module TrustService {
  import opened Numerals
  import opened TrustNames
  import opened TrustHelper
  import Steps = TrustSteps
  import opened TrustSteps

  class UserTrustService {
    const policies: Policies
    var rows: map<int, Row>
    var projects: map<int, string>
    var requests: map<string, RequestFile>
    var staged: map<string, string>
    var trusted: map<string, Trust>
    // Every world passed through, oldest first.
    ghost var history: seq<World>

    ghost function State(): World
      reads this
    {
      World(rows, projects, requests, staged, trusted)
    }

    constructor (policies: Policies)
      ensures this.policies == policies && State() == World(map[], map[], map[], map[], map[]) && history == []
    {
      this.policies := policies;
      rows, projects, requests, staged, trusted, history := map[], map[], map[], map[], map[], [];
    }

    ghost method Note()
      modifies this`history
      ensures history == old(history) + [State()]
    {
      history := history + [State()];
    }

    // ----- requests and helper -----

    // The name of the request, when it could be written.
    method WriteTrustRequest(
        action: string, userId: Int64, fingerprint: string, project: string, certName: string, ticket: Ticket)
      returns (requestName: Option<string>)
      modifies this`requests, this`history
      ensures var steps := Steps.WriteTrustRequest(old(State()), action, userId, fingerprint, project, certName, ticket);
              && requestName.Some? == steps.ok
              && State() == steps.End(old(State())) && history == old(history) + steps.trail
              && (steps.ok ==> userId > 0 && requestName.value == RequestName(action, userId, fingerprint, ticket.token))
    {
      if userId <= 0 || !ValidFingerprint(fingerprint) || !ValidProject(project) || ticket.write.Before? {
        return None;
      }
      var name := RequestName(action, userId, fingerprint, ticket.token);
      if name in requests {
        return None;
      }
      if ticket.write.Halfway? {
        requests := requests[name := Torn];
        Note();
        return None;
      }
      requests := requests[name := Written(Manifest(action, userId, fingerprint, project, certName))];
      Note();
      return Some(name);
    }

    method Register(fingerprint: string, project: string, certName: string, requestName: string, run: Fault)
      returns (ok: bool)
      modifies this`requests, this`trusted, this`history
      ensures var steps := HelperRegister(policies, old(State()), fingerprint, project, certName, requestName, run);
              ok == steps.ok && State() == steps.End(old(State())) && history == old(history) + steps.trail
    {
      hide CheckRegister;
      var checked := CheckRegister(policies, requests, staged, fingerprint, project, certName, requestName);
      if checked.Refused? || run.Before? {
        return false;
      }
      requests := requests - {requestName};
      Note();
      if run.Halfway? {
        return false;
      }
      trusted := trusted[fingerprint := Trust(checked.value, project)];
      Note();
      return true;
    }

    method RevokeTrust(fingerprint: string, requestName: string, run: Fault) returns (ok: bool)
      modifies this`requests, this`trusted, this`history
      ensures var steps := HelperRevoke(policies, old(State()), fingerprint, requestName, run);
              ok == steps.ok && State() == steps.End(old(State())) && history == old(history) + steps.trail
    {
      hide CheckRevoke;
      if CheckRevoke(policies, requests, fingerprint, requestName).Refused? || run.Before? {
        return false;
      }
      requests := requests - {requestName};
      Note();
      if run.Halfway? {
        return false;
      }
      trusted := trusted - {fingerprint};
      Note();
      return true;
    }

    method RevokeFingerprint(userId: Int64, fingerprint: string, project: string, ticket: Ticket) returns (ok: bool)
      modifies this`requests, this`trusted, this`history
      ensures var steps := Steps.RevokeFingerprint(policies, old(State()), userId, fingerprint, project, ticket);
              ok == steps.ok && State() == steps.End(old(State())) && history == old(history) + steps.trail
    {
      hide Steps.WriteTrustRequest, HelperRevoke;
      var requestName := WriteTrustRequest(REVOKE, userId, fingerprint, project, "", ticket);
      if requestName.None? {
        return false;
      }
      ok := RevokeTrust(fingerprint, requestName.value, ticket.run);
    }

    // ----- the store -----

    method UpsertRow(userId: Int64, row: Row, works: bool) returns (ok: bool)
      modifies this`rows, this`projects, this`history
      ensures var steps := Upsert(old(State()), userId, row, works);
              ok == steps.ok && State() == steps.End(old(State())) && history == old(history) + steps.trail
    {
      if !works || exists u :: u in rows && u != userId && rows[u].fingerprint == row.fingerprint {
        return false;
      }
      rows := rows[userId := row];
      projects := projects[userId := row.project];
      Note();
      return true;
    }

    method RestoreRow(userId: Int64, row: Row, works: bool) returns (ok: bool)
      modifies this`rows, this`projects, this`history
      ensures var steps := Restore(old(State()), userId, row, works);
              ok == steps.ok && State() == steps.End(old(State())) && history == old(history) + steps.trail
    {
      if userId == 0 || row.cert == "" || row.key == "" || row.fingerprint == "" || row.project == "" {
        return false;
      }
      ok := UpsertRow(userId, row, works);
    }

    // ----- the calls -----

    method StageAndRequest(userId: Int64, next: Row, plan: ProvisionPlan) returns (requestName: Option<string>)
      requires userId > 0
      modifies this`requests, this`staged, this`history
      ensures var steps := Prepare(old(State()), userId, next, plan);
              && requestName.Some? == steps.ok
              && State() == steps.End(old(State())) && history == old(history) + steps.trail
              && (steps.ok ==> requestName.value == RequestName(REGISTER, userId, next.fingerprint, plan.register.token))
    {
      hide Steps.WriteTrustRequest;
      if !plan.stage {
        return None;
      }
      var certName := CertName(userId, next.fingerprint);
      staged := staged[certName := next.fingerprint];
      Note();
      requestName := WriteTrustRequest(REGISTER, userId, next.fingerprint, next.project, certName, plan.register);
    }

    method RetirePrevious(userId: Int64, previous: Row, next: Row, plan: ProvisionPlan) returns (verdict: Verdict)
      modifies this
      ensures var o := Retire(policies, old(State()), userId, previous, next, plan);
              verdict == o.verdict && State() == o.End(old(State())) && history == old(history) + o.trail
    {
      hide Steps.RevokeFingerprint, Restore;
      var revoked := RevokeFingerprint(userId, previous.fingerprint, previous.project, plan.previous);
      if revoked {
        return Done;
      }
      var restored := RestoreRow(userId, previous, plan.restore);
      var revokedNew := RevokeFingerprint(userId, next.fingerprint, next.project, plan.undo);
      return RolledBack(restored, revokedNew);
    }

    method StoreNew(userId: Int64, previous: Option<Row>, next: Row, plan: ProvisionPlan) returns (verdict: Verdict)
      modifies this
      ensures var o := Store(policies, old(State()), userId, previous, next, plan);
              verdict == o.verdict && State() == o.End(old(State())) && history == old(history) + o.trail
    {
      hide Retire, Steps.RevokeFingerprint;
      var stored := UpsertRow(userId, next, plan.upsert);
      if !stored {
        var revokedNew := RevokeFingerprint(userId, next.fingerprint, next.project, plan.undo);
        return Undone(revokedNew);
      }
      if previous.Some? && previous.value.fingerprint != next.fingerprint {
        verdict := RetirePrevious(userId, previous.value, next, plan);
        return;
      }
      return Done;
    }

    method Provision(userId: Int64, asked: string, plan: ProvisionPlan) returns (verdict: Verdict)
      modifies this
      ensures var o := Steps.Provision(policies, old(State()), userId, asked, plan);
              verdict == o.verdict && State() == o.End(old(State())) && history == old(history) + o.trail
    {
      hide Prepare, HelperRegister, Store, ValidProject, RequestName, CertName, Last;
      ghost var before, w := history, State();
      LastOfConcat(w, [], []);
      var project := if asked == "" then "default" else asked;
      if !ValidProject(project) || userId <= 0 || plan.issued.None? {
        return Declined;
      }
      var next := NewRow(plan.issued.value, project);
      ghost var prepare := Prepare(w, userId, next, plan).trail;
      var requestName := StageAndRequest(userId, next, plan);
      if requestName.None? || !plan.get {
        return Declined;
      }
      var previous := None;
      if userId in rows && !rows[userId].revoked && rows[userId].fingerprint != "" {
        previous := Some(rows[userId]);
      }
      var certName := CertName(userId, next.fingerprint);
      ghost var register :=
        HelperRegister(policies, State(), next.fingerprint, project, certName, requestName.value, plan.register.run).trail;
      var registered := Register(next.fingerprint, project, certName, requestName.value, plan.register.run);
      LastOfConcat(w, prepare, register);
      assert history == before + (prepare + register);
      if !registered {
        return Declined;
      }
      ghost var store := Store(policies, State(), userId, previous, next, plan).trail;
      verdict := StoreNew(userId, previous, next, plan);
      LastOfConcat(w, prepare + register, store);
      assert history == before + (prepare + register + store);
    }

    method Revoke(userId: Int64, plan: RevokePlan) returns (ok: bool)
      modifies this
      ensures var steps := Steps.Revoke(policies, old(State()), userId, plan);
              ok == steps.ok && State() == steps.End(old(State())) && history == old(history) + steps.trail
    {
      hide Steps.RevokeFingerprint;
      if !plan.get {
        return false;
      }
      if userId !in rows || rows[userId].revoked || rows[userId].fingerprint == "" {
        return true;
      }
      var row := rows[userId];
      var revoked := RevokeFingerprint(userId, row.fingerprint, row.project, plan.ticket);
      if !revoked || !plan.mark {
        return false;
      }
      rows := rows[userId := row.(revoked := true)];
      Note();
      return true;
    }
  }
}
