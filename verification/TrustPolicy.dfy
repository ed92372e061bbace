// What the helper's checks come to: which policy file decides, and exactly which requests
// are accepted, said on file names, patterns and fields.
module TrustPolicy {
  import opened Numerals
  import opened TrustNames
  import opened TrustHelper

  function OwnPolicy(id: nat): string { "helling-user-" + Decimal(id) + ".json" }

  // The same policy decides for this user in both directories: the user's own file where
  // there is one, the default file where there is none.
  predicate SamePolicyFor(p: map<string, Policy>, q: map<string, Policy>, id: nat) {
    var own := OwnPolicy(id);
    || (own in p && own in q && p[own] == q[own])
    || (own !in p && own !in q && ("default.json" in p <==> "default.json" in q)
        && ("default.json" in p ==> p["default.json"] == q["default.json"]))
  }

  lemma SameLoaded(p: map<string, Policy>, q: map<string, Policy>, id: nat)
    requires SamePolicyFor(p, q, id)
    ensures LoadPolicy(p, id) == LoadPolicy(q, id)
  {
    assert OwnPolicy(id) == PolicyName(id);
  }

  lemma SameValidated(
      p: map<string, Policy>, q: map<string, Policy>, requests: map<string, RequestFile>, id: nat,
      action: string, userId: int, fingerprint: string, project: string, certName: string, requestName: string)
    requires SamePolicyFor(p, q, id)
    requires MatchRequestName(requestName).Some? && ParseInt(MatchRequestName(requestName).value.digits) == Some(id)
    ensures ValidateRequest(p, requests, action, userId, fingerprint, project, certName, requestName)
         == ValidateRequest(q, requests, action, userId, fingerprint, project, certName, requestName)
  {
    SameLoaded(p, q, id);
    hide LoadPolicy, SamePolicyFor, MatchRequestName, ValidateManifest, IsBasename;
  }

  // No other policy file matters to a command for a request of this user.
  lemma OnlyThatPolicyDecides(
      p: map<string, Policy>, q: map<string, Policy>, requests: map<string, RequestFile>, staged: map<string, string>,
      id: nat, fingerprint: string, project: string, certName: string, requestName: string)
    requires SamePolicyFor(p, q, id)
    requires exists action, digits, f, token ::
               RequestNameOf(requestName, action, digits, f, token) && ParseInt(digits) == Some(id)
    ensures CheckRegister(p, requests, staged, fingerprint, project, certName, requestName)
         == CheckRegister(q, requests, staged, fingerprint, project, certName, requestName)
    ensures CheckRevoke(p, requests, fingerprint, requestName) == CheckRevoke(q, requests, fingerprint, requestName)
  {
    var action, digits, f, token :| RequestNameOf(requestName, action, digits, f, token) && ParseInt(digits) == Some(id);
    RequestNameMatches(requestName, action, digits, f, token);
    hide ValidateRequest, SamePolicyFor, RequestNameOf, MatchRequestName, ParseInt;
    SameRegister(p, q, requests, staged, id, fingerprint, project, certName, requestName);
    SameValidated(p, q, requests, id, REVOKE, 0, fingerprint, "", "", requestName);
  }

  lemma SameRegister(
      p: map<string, Policy>, q: map<string, Policy>, requests: map<string, RequestFile>, staged: map<string, string>,
      id: nat, fingerprint: string, project: string, certName: string, requestName: string)
    requires SamePolicyFor(p, q, id)
    requires MatchRequestName(requestName).Some? && ParseInt(MatchRequestName(requestName).value.digits) == Some(id)
    ensures CheckRegister(p, requests, staged, fingerprint, project, certName, requestName)
         == CheckRegister(q, requests, staged, fingerprint, project, certName, requestName)
  {
    hide ValidateRequest, SamePolicyFor, MatchRequestName, MatchCertName, ParseInt, Need, UserIdOf;
    match MatchCertName(certName)
    case None =>
    case Some(m) =>
      if UserIdOf(m.digits).Ok? {
        SameValidated(p, q, requests, id, REGISTER, UserIdOf(m.digits).value, fingerprint, project, certName, requestName);
      }
  }

  // ----- what is accepted -----

  predicate GrantedBy(p: Policy, id: int, project: string, action: string) {
    && (p.userId == 0 || p.userId == id)
    && (p.project != "" || p.projects != [])
    && (p.project == "" || ValidProject(p.project))
    && (forall i :: 0 <= i < |p.projects| ==> ValidProject(p.projects[i]))
    && (project == p.project || project in p.projects)
    && action in p.actions
  }

  // The user's own policy file says so, or, where there is none, the default one.
  predicate Granted(policies: map<string, Policy>, id: nat, project: string, action: string) {
    var own := OwnPolicy(id);
    if own in policies then GrantedBy(policies[own], id, project, action)
    else "default.json" in policies && GrantedBy(policies["default.json"], id, project, action)
  }

  lemma PermitsIsGranted(policies: map<string, Policy>, id: nat, project: string, action: string)
    requires id > 0
    ensures Permits(policies, id, project, action) == Granted(policies, id, project, action)
  {
    assert OwnPolicy(id) == PolicyName(id);
  }

  // A written request that the policy grants, in a file with this name.
  ghost predicate Requested(
      policies: map<string, Policy>, requests: map<string, RequestFile>,
      action: string, id: int, fingerprint: string, project: string, certName: string, requestName: string)
  {
    && id > 0
    && (exists digits, token :: RequestNameOf(requestName, action, digits, fingerprint, token) && ParseInt(digits) == Some(id))
    && requestName in requests
    && requests[requestName] == Written(Manifest(action, id, fingerprint, project, certName))
    && Granted(policies, id, project, action)
  }

  lemma PatternsAreBasenames(s: string, action: string, digits: string, fingerprint: string, token: string)
    requires RequestNameOf(s, action, digits, fingerprint, token)
    ensures IsBasename(s)
  {
    assert forall c :: IsDigit(c) || IsLowerHex(c) ==> c != '/';
    assert '/' !in digits && '/' !in fingerprint && '/' !in token;
    assert '/' !in "helling-trust-" && '/' !in "register" && '/' !in "revoke" && '/' !in ".json" && '/' !in "-";
  }

  // Exactly the requests that are asked for in writing and granted are validated.
  lemma ValidatedRequest(
      policies: map<string, Policy>, requests: map<string, RequestFile>, action: string, userId: int, id: int,
      fingerprint: string, project: string, certName: string, requestName: string)
    requires action == REGISTER || action == REVOKE
    ensures ValidateRequest(policies, requests, action, userId, fingerprint, project, certName, requestName) == Ok(id)
       <==> (action == REGISTER ==> userId == id)
            && exists written :: Requested(policies, requests, action, id, fingerprint, written, certName, requestName)
                              && (action == REGISTER ==> written == project)
  {
    hide RequestNameOf, MatchRequestName, Granted, Permits, LoadPolicy;
    if ValidateRequest(policies, requests, action, userId, fingerprint, project, certName, requestName) == Ok(id) {
      AcceptedRequest(policies, requests, action, userId, fingerprint, project, certName, requestName);
      var m := requests[requestName].manifest;
      PermitsIsGranted(policies, id, m.project, action);
      assert Requested(policies, requests, action, id, fingerprint, m.project, certName, requestName);
    }
    if written :| Requested(policies, requests, action, id, fingerprint, written, certName, requestName)
                  && (action == REGISTER ==> written == project) && (action == REGISTER ==> userId == id) {
      var digits, token :| RequestNameOf(requestName, action, digits, fingerprint, token) && ParseInt(digits) == Some(id);
      RequestNameMatches(requestName, action, digits, fingerprint, token);
      PatternsAreBasenames(requestName, action, digits, fingerprint, token);
      PermitsIsGranted(policies, id, written, action);
      PermitsMeans(policies, id, written, action);
    }
  }

  lemma PermitsMeans(policies: map<string, Policy>, id: nat, project: string, action: string)
    requires id > 0
    ensures Permits(policies, id, project, action) <==>
              var p := LoadPolicy(policies, id);
              && p.Ok? && (p.value.userId == 0 || p.value.userId == id)
              && PolicyAllowsProject(p.value, project) && PolicyAllowsAction(p.value, action)
  {
  }

  // Exactly these requests register a certificate.
  lemma RegisterLaw(
      policies: map<string, Policy>, requests: map<string, RequestFile>, staged: map<string, string>,
      id: int, fingerprint: string, project: string, certName: string, requestName: string)
    ensures CheckRegister(policies, requests, staged, fingerprint, project, certName, requestName) == Ok(id)
       <==> && ValidFingerprint(fingerprint) && ValidProject(project)
            && (exists digits :: CertNameOf(certName, digits, fingerprint) && ParseInt(digits) == Some(id))
            && Requested(policies, requests, "register", id, fingerprint, project, certName, requestName)
            && certName in staged && staged[certName] == fingerprint
  {
    hide RequestNameOf, MatchRequestName, ValidateRequest, Granted, ValidProject, MatchCertName, CertNameOf, ParseInt;
    ValidatedRequest(policies, requests, REGISTER, id, id, fingerprint, project, certName, requestName);
    match MatchCertName(certName)
    case None =>
      forall digits ensures !CertNameOf(certName, digits, fingerprint) {
        CertMatcherIsThePattern(certName, digits, fingerprint);
      }
    case Some(m) =>
      CertMatcherIsThePattern(certName, m.digits, m.fingerprint);
      CertIsBasename(certName, m.digits, m.fingerprint);
      forall digits ensures CertNameOf(certName, digits, fingerprint) <==> digits == m.digits && fingerprint == m.fingerprint {
        CertMatcherIsThePattern(certName, digits, fingerprint);
      }
      assert (exists digits :: CertNameOf(certName, digits, fingerprint) && ParseInt(digits) == Some(id))
        <==> fingerprint == m.fingerprint && ParseInt(m.digits) == Some(id);
      assert ValidateRequest(policies, requests, REGISTER, id, fingerprint, project, certName, requestName) == Ok(id)
        <==> Requested(policies, requests, REGISTER, id, fingerprint, project, certName, requestName);
      hide Requested;
      if ParseInt(m.digits) == Some(id) && id > 0 {
        AnyOkIsOwn(policies, requests, id, fingerprint, project, certName, requestName);
      }
  }

  lemma AnyOkIsOwn(
      policies: map<string, Policy>, requests: map<string, RequestFile>, id: int,
      fingerprint: string, project: string, certName: string, requestName: string)
    ensures var r := ValidateRequest(policies, requests, REGISTER, id, fingerprint, project, certName, requestName);
            r.Ok? ==> r == Ok(id)
  {
    hide MatchRequestName, IsBasename, LoadPolicy, ValidateManifest;
  }

  lemma CertIsBasename(s: string, digits: string, fingerprint: string)
    requires CertNameOf(s, digits, fingerprint)
    ensures IsBasename(s)
  {
    assert forall c :: IsDigit(c) || IsLowerHex(c) ==> c != '/';
    assert '/' !in digits && '/' !in fingerprint && '/' !in "helling-user-" && '/' !in ".crt" && '/' !in "-";
  }

  // Exactly these requests revoke a fingerprint, in whatever project the request names.
  lemma RevokeLaw(policies: map<string, Policy>, requests: map<string, RequestFile>, id: int, fingerprint: string, requestName: string)
    ensures CheckRevoke(policies, requests, fingerprint, requestName) == Ok(id)
       <==> && ValidFingerprint(fingerprint)
            && exists project :: Requested(policies, requests, "revoke", id, fingerprint, project, "", requestName)
  {
    hide RequestNameOf, ValidateRequest, Granted;
    ValidatedRequest(policies, requests, REVOKE, 0, id, fingerprint, "", "", requestName);
  }
  // What the service writes and stages to register a certificate is accepted exactly when granted.
  lemma OwnRegisterAccepted(
      policies: map<string, Policy>, requests: map<string, RequestFile>, staged: map<string, string>,
      id: nat, fingerprint: string, project: string, token: string)
    requires ValidUserId(id) && ValidFingerprint(fingerprint) && ValidProject(project) && ValidToken(token)
    requires var name := RequestName(REGISTER, id, fingerprint, token);
             name in requests
             && requests[name] == Written(Manifest(REGISTER, id, fingerprint, project, CertName(id, fingerprint)))
    requires CertName(id, fingerprint) in staged && staged[CertName(id, fingerprint)] == fingerprint
    ensures CheckRegister(policies, requests, staged, fingerprint, project, CertName(id, fingerprint),
                          RequestName(REGISTER, id, fingerprint, token)).Ok?
            <==> Granted(policies, id, project, "register")
  {
    RegisterAccepted(policies, requests, staged, id, fingerprint, project, token);
    PermitsIsGranted(policies, id, project, REGISTER);
    hide CheckRegister, Granted, Permits;
  }

  lemma OwnRevokeAccepted(
      policies: map<string, Policy>, requests: map<string, RequestFile>,
      id: nat, fingerprint: string, project: string, token: string)
    requires ValidUserId(id) && ValidFingerprint(fingerprint) && ValidToken(token)
    requires var name := RequestName(REVOKE, id, fingerprint, token);
             name in requests && requests[name] == Written(Manifest(REVOKE, id, fingerprint, project, ""))
    ensures CheckRevoke(policies, requests, fingerprint, RequestName(REVOKE, id, fingerprint, token)).Ok?
            <==> Granted(policies, id, project, "revoke")
  {
    RevokeAccepted(policies, requests, id, fingerprint, project, token);
    PermitsIsGranted(policies, id, project, REVOKE);
    hide CheckRevoke, Granted, Permits;
  }
  // An ASCII digit, capital or small letter.
  predicate Alphanumeric(c: char) {
    var n := c as int;
    0x30 <= n <= 0x39 || 0x41 <= n <= 0x5a || 0x61 <= n <= 0x7a
  }

  // Project names: a letter or digit, then up to 62 of those or of three signs.
  lemma ProjectNames(s: string)
    ensures ValidProject(s) <==>
              exists first, rest :: s == [first] + rest && Alphanumeric(first) && |rest| <= 62
                                 && forall i :: 0 <= i < |rest| ==> Alphanumeric(rest[i]) || rest[i] in "_.-"
  {
    if ValidProject(s) {
      assert s == [s[0]] + s[1..];
    }
  }

  // Fingerprints: 64 hexadecimal digits, the letters small.
  lemma Fingerprints(s: string)
    ensures ValidFingerprint(s) <==> |s| == 64 && forall i :: 0 <= i < |s| ==> 0x30 <= s[i] as int <= 0x39 || s[i] in "abcdef"
  {
  }

  // The names that are matched, with their fixed parts.
  lemma Names(s: string, action: string, digits: string, fingerprint: string, token: string)
    ensures RequestNameOf(s, action, digits, fingerprint, token) ==>
              && s == "helling-trust-" + action + "-" + digits + "-" + fingerprint + "-" + token + ".json"
              && (action == "register" || action == "revoke") && |token| == 16
    ensures CertNameOf(s, digits, fingerprint) ==> s == "helling-user-" + digits + "-" + fingerprint + ".crt"
  {
  }
}
