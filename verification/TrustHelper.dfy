// The checks of the setuid trust helper, on the files it reads.
module TrustHelper {
  import opened Numerals
  import opened TrustNames

  datatype Manifest = Manifest(action: string, userId: int, fingerprint: string, project: string, certBasename: string)

  // A request file, or what a failed write left of one.
  datatype RequestFile = Written(manifest: Manifest) | Torn

  datatype Policy = Policy(userId: int, project: string, projects: seq<string>, actions: seq<string>)

  datatype Result<+T> = Ok(value: T) | Refused(why: Refusal) {
    predicate IsFailure() { Refused? }

    function PropagateFailure<U>(): Result<U>
      requires Refused?
    {
      Refused(why)
    }

    function Extract(): T
      requires Ok?
    {
      value
    }
  }

  datatype Refusal =
    | NotABasename | BadRequestName | WrongAction | BadUserId | WrongUserId | WrongFingerprint
    | NoRequest | ManifestMismatch | ProjectMismatch
    | NoPolicy | BadPolicy | PolicyForOtherUser | ProjectNotAllowed | ActionNotAllowed
    | BadFingerprint | BadProject | BadCertName | CertForOtherKey | BadCertificate

  function Need(condition: bool, why: Refusal): Result<()> {
    if condition then Ok(()) else Refused(why)
  }

  // The user id in a name: strconv.ParseInt, then a test for a positive number.
  function UserIdOf(digits: string): Result<int> {
    match ParseInt(digits)
    case Some(id) => if id > 0 then Ok(id) else Refused(BadUserId)
    case None => Refused(BadUserId)
  }

  function ParseTrustRequestName(action: string, userId: int, fingerprint: string, requestName: string): Result<int> {
    var _ :- Need(IsBasename(requestName), NotABasename);
    match MatchRequestName(requestName)
    case None => Refused(BadRequestName)
    case Some(m) =>
      var _ :- Need(m.action == action, WrongAction);
      var id :- UserIdOf(m.digits);
      var _ :- Need(action != REGISTER || id == userId, WrongUserId);
      var _ :- Need(m.fingerprint == fingerprint, WrongFingerprint);
      Ok(id)
  }

  function ValidateManifest(
      m: Manifest, action: string, userId: int, fingerprint: string, project: string, certName: string): Result<()>
  {
    var _ :- Need(m.action == action && m.userId == userId && m.fingerprint == fingerprint && m.certBasename == certName,
                  ManifestMismatch);
    Need(action != REGISTER || m.project == project, ProjectMismatch)
  }

  function PolicyAllowsProject(p: Policy, project: string): bool {
    p.project == project || project in p.projects
  }

  function PolicyAllowsAction(p: Policy, action: string): bool {
    action in p.actions
  }

  function ValidatePolicyProjects(p: Policy): Result<()> {
    var _ :- Need(p.project != "" || p.projects != [], BadPolicy);
    var _ :- Need(p.project == "" || ValidProject(p.project), BadPolicy);
    Need(forall i :: 0 <= i < |p.projects| ==> ValidProject(p.projects[i]), BadPolicy)
  }

  const DEFAULT_POLICY := "default.json"

  function PolicyName(userId: nat): string {
    "helling-user-" + Decimal(userId) + ".json"
  }

  // The policy file of the user, or the default one where the user has none.
  function LoadPolicy(policies: map<string, Policy>, userId: nat): Result<Policy> {
    var name := if PolicyName(userId) in policies then PolicyName(userId) else DEFAULT_POLICY;
    if name !in policies then Refused(NoPolicy)
    else
      var p := policies[name];
      var _ :- Need(p.userId >= 0, BadPolicy);
      var _ :- Need(p.userId == 0 || p.userId == userId, PolicyForOtherUser);
      var _ :- ValidatePolicyProjects(p);
      Ok(p)
  }

  // The policy in force lets this user do this in this project.
  predicate Permits(policies: map<string, Policy>, userId: nat, project: string, action: string) {
    && LoadPolicy(policies, userId).Ok?
    && PolicyAllowsProject(LoadPolicy(policies, userId).value, project)
    && PolicyAllowsAction(LoadPolicy(policies, userId).value, action)
  }

  // What every request must show before anything is changed; yields the user id.
  function ValidateRequest(
      policies: map<string, Policy>, requests: map<string, RequestFile>,
      action: string, userId: int, fingerprint: string, project: string, certName: string, requestName: string): Result<int>
  {
    var id :- ParseTrustRequestName(action, userId, fingerprint, requestName);
    var _ :- Need(requestName in requests && requests[requestName].Written?, NoRequest);
    var manifest := requests[requestName].manifest;
    var _ :- ValidateManifest(manifest, action, id, fingerprint, project, certName);
    var policy :- LoadPolicy(policies, id);
    var _ :- Need(policy.userId == 0 || policy.userId == id, PolicyForOtherUser);
    var _ :- Need(PolicyAllowsProject(policy, manifest.project), ProjectNotAllowed);
    var _ :- Need(PolicyAllowsAction(policy, action), ActionNotAllowed);
    Ok(id)
  }

  // The tests `register` makes up to the point where it consumes the request.
  function CheckRegister(
      policies: map<string, Policy>, requests: map<string, RequestFile>, staged: map<string, string>,
      fingerprint: string, project: string, certName: string, requestName: string): Result<int>
  {
    var _ :- Need(ValidFingerprint(fingerprint), BadFingerprint);
    var _ :- Need(ValidProject(project), BadProject);
    match MatchCertName(certName)
    case None => Refused(BadCertName)
    case Some(m) =>
      var _ :- Need(IsBasename(certName), NotABasename);
      var _ :- Need(m.fingerprint == fingerprint, CertForOtherKey);
      var userId :- UserIdOf(m.digits);
      var _ :- ValidateRequest(policies, requests, REGISTER, userId, fingerprint, project, certName, requestName);
      var _ :- Need(certName in staged && staged[certName] == fingerprint, BadCertificate);
      Ok(userId)
  }

  function CheckRevoke(
      policies: map<string, Policy>, requests: map<string, RequestFile>, fingerprint: string, requestName: string): Result<int>
  {
    var _ :- Need(ValidFingerprint(fingerprint), BadFingerprint);
    ValidateRequest(policies, requests, REVOKE, 0, fingerprint, "", "", requestName)
  }

  // ----- what the daemon writes, the helper accepts -----

  predicate ValidUserId(id: int) { 0 < id <= MAX_INT64 }

  predicate ValidToken(token: string) { |token| == 16 && AllLowerHex(token) }

  lemma UserIdRoundTrip(id: nat)
    requires ValidUserId(id)
    ensures UserIdOf(Decimal(id)) == Ok(id)
  {
    ParseDecimal(id);
  }

  // A printed request name is read back as the request it was printed for.
  lemma RequestNameRoundTrip(action: string, id: nat, fingerprint: string, token: string)
    requires action == REGISTER || action == REVOKE
    requires ValidUserId(id) && ValidFingerprint(fingerprint) && ValidToken(token)
    ensures forall userId :: action == REVOKE || userId == id ==>
              ParseTrustRequestName(action, userId, fingerprint, RequestName(action, id, fingerprint, token)) == Ok(id)
  {
    PrintedNamesAreBasenames(action, id, fingerprint, token);
    RequestNameMatches(RequestName(action, id, fingerprint, token), action, Decimal(id), fingerprint, token);
    UserIdRoundTrip(id);
  }

  lemma ParsedRequestName(action: string, userId: int, fingerprint: string, requestName: string)
    requires ParseTrustRequestName(action, userId, fingerprint, requestName).Ok?
    ensures var id := ParseTrustRequestName(action, userId, fingerprint, requestName).value;
            && id > 0 && (action == REGISTER ==> id == userId)
            && exists digits, token :: RequestNameOf(requestName, action, digits, fingerprint, token) && ParseInt(digits) == Some(id)
  {
    MatchedRequestName(requestName);
  }

  // Whatever names it is called with, a request accepted for a fingerprint was written
  // for that action, fingerprint and user, with the user's id in its name.
  lemma AcceptedRequest(
      policies: map<string, Policy>, requests: map<string, RequestFile>,
      action: string, userId: int, fingerprint: string, project: string, certName: string, requestName: string)
    requires ValidateRequest(policies, requests, action, userId, fingerprint, project, certName, requestName).Ok?
    ensures var id := ValidateRequest(policies, requests, action, userId, fingerprint, project, certName, requestName).value;
            && requestName in requests && requests[requestName].Written?
            && var m := requests[requestName].manifest;
            && m.action == action && m.userId == id > 0 && m.fingerprint == fingerprint && m.certBasename == certName
            && (action == REGISTER ==> m.project == project && id == userId)
            && Permits(policies, id, m.project, action)
            && exists digits, token :: RequestNameOf(requestName, action, digits, fingerprint, token) && ParseInt(digits) == Some(id)
  {
    hide ParseTrustRequestName, LoadPolicy, RequestNameOf;
    ParsedRequestName(action, userId, fingerprint, requestName);
  }

  lemma RegisterAccepted(
      policies: map<string, Policy>, requests: map<string, RequestFile>, staged: map<string, string>,
      id: nat, fingerprint: string, project: string, token: string)
    requires ValidUserId(id) && ValidFingerprint(fingerprint) && ValidProject(project) && ValidToken(token)
    requires var name := RequestName(REGISTER, id, fingerprint, token);
             name in requests
             && requests[name] == Written(Manifest(REGISTER, id, fingerprint, project, CertName(id, fingerprint)))
    requires CertName(id, fingerprint) in staged && staged[CertName(id, fingerprint)] == fingerprint
    ensures CheckRegister(policies, requests, staged, fingerprint, project, CertName(id, fingerprint),
                          RequestName(REGISTER, id, fingerprint, token)).Ok?
            <==> Permits(policies, id, project, REGISTER)
  {
    var certName := CertName(id, fingerprint);
    CertMatcherIsThePattern(certName, Decimal(id), fingerprint);
    PrintedNamesAreBasenames(REGISTER, id, fingerprint, token);
    UserIdRoundTrip(id);
    RequestNameRoundTrip(REGISTER, id, fingerprint, token);
    assert ParseTrustRequestName(REGISTER, id, fingerprint, RequestName(REGISTER, id, fingerprint, token)) == Ok(id);
  }

  lemma RevokeAccepted(
      policies: map<string, Policy>, requests: map<string, RequestFile>,
      id: nat, fingerprint: string, project: string, token: string)
    requires ValidUserId(id) && ValidFingerprint(fingerprint) && ValidToken(token)
    requires var name := RequestName(REVOKE, id, fingerprint, token);
             name in requests && requests[name] == Written(Manifest(REVOKE, id, fingerprint, project, ""))
    ensures CheckRevoke(policies, requests, fingerprint, RequestName(REVOKE, id, fingerprint, token)).Ok?
            <==> Permits(policies, id, project, REVOKE)
  {
    RequestNameRoundTrip(REVOKE, id, fingerprint, token);
    assert ParseTrustRequestName(REVOKE, 0, fingerprint, RequestName(REVOKE, id, fingerprint, token)) == Ok(id);
  }
}
