// The file names that hellingd and the trust helper exchange: the printing side in
// user_trust.go and the regular expressions of trust_helper.go.
module TrustNames {
  import opened Numerals

  const REGISTER := "register"
  const REVOKE := "revoke"
  const REQUEST_PREFIX := "helling-trust-"
  const CERT_PREFIX := "helling-user-"

  predicate IsLowerHex(c: char) { '0' <= c <= '9' || 'a' <= c <= 'f' }

  predicate AllLowerHex(s: string) { forall i :: 0 <= i < |s| ==> IsLowerHex(s[i]) }

  // ^[0-9a-f]{64}$
  predicate ValidFingerprint(s: string) { |s| == 64 && AllLowerHex(s) }

  predicate IsAlnum(c: char) { '0' <= c <= '9' || 'a' <= c <= 'z' || 'A' <= c <= 'Z' }

  // ^[A-Za-z0-9][A-Za-z0-9_.-]{0,62}$
  predicate ValidProject(s: string) {
    && 1 <= |s| <= 63 && IsAlnum(s[0])
    && forall i :: 1 <= i < |s| ==> IsAlnum(s[i]) || s[i] == '_' || s[i] == '.' || s[i] == '-'
  }

  // filepath.Base(s) == s
  predicate IsBasename(s: string) { s == "/" || (s != "" && '/' !in s) }

  // ----- printing -----

  function RequestName(action: string, userId: nat, fingerprint: string, token: string): string {
    REQUEST_PREFIX + action + "-" + Decimal(userId) + "-" + fingerprint + "-" + token + ".json"
  }

  function CertName(userId: nat, fingerprint: string): string {
    CERT_PREFIX + Decimal(userId) + "-" + fingerprint + ".crt"
  }

  // ----- what the regular expressions say -----

  // s is in the language of trustRequestNamePattern, with these submatches.
  ghost predicate RequestNameOf(s: string, action: string, digits: string, fingerprint: string, token: string) {
    && (action == REGISTER || action == REVOKE)
    && digits != "" && AllDigits(digits)
    && ValidFingerprint(fingerprint)
    && |token| == 16 && AllLowerHex(token)
    && s == REQUEST_PREFIX + action + "-" + digits + "-" + fingerprint + "-" + token + ".json"
  }

  // s is in the language of trustCertNamePattern, with these submatches.
  ghost predicate CertNameOf(s: string, digits: string, fingerprint: string) {
    && digits != "" && AllDigits(digits)
    && ValidFingerprint(fingerprint)
    && s == CERT_PREFIX + digits + "-" + fingerprint + ".crt"
  }

  // ----- matching -----

  datatype Ident = Ident(digits: string, fingerprint: string, rest: string)
  datatype RequestMatch = RequestMatch(action: string, digits: string, fingerprint: string)
  datatype CertMatch = CertMatch(digits: string, fingerprint: string)

  // The length of the longest prefix of digits.
  function DigitCount(s: string): (n: nat)
    ensures n <= |s| && AllDigits(s[..n]) && (n < |s| ==> !IsDigit(s[n]))
  {
    if s == [] || !IsDigit(s[0]) then 0
    else
      var n := 1 + DigitCount(s[1..]);
      assert forall i :: 1 <= i < n ==> s[..n][i] == s[1..][..n - 1][i - 1];
      n
  }

  // (\d+)-([0-9a-f]{64}) at the front of s, and what follows it.
  function MatchIdent(s: string): Option<Ident> {
    var n := DigitCount(s);
    if n == 0 || |s| < n + 65 || s[n] != '-' || !ValidFingerprint(s[n + 1..n + 65]) then None
    else Some(Ident(s[..n], s[n + 1..n + 65], s[n + 65..]))
  }

  function MatchRequestTail(action: string, s: string): Option<RequestMatch> {
    match MatchIdent(s)
    case None => None
    case Some(Ident(digits, fingerprint, rest)) =>
      if |rest| == 22 && rest[0] == '-' && AllLowerHex(rest[1..17]) && rest[17..] == ".json"
      then Some(RequestMatch(action, digits, fingerprint)) else None
  }

  // trustRequestNamePattern.FindStringSubmatch
  function MatchRequestName(s: string): Option<RequestMatch> {
    var register, revoke := REQUEST_PREFIX + REGISTER + "-", REQUEST_PREFIX + REVOKE + "-";
    if register <= s then MatchRequestTail(REGISTER, s[|register|..])
    else if revoke <= s then MatchRequestTail(REVOKE, s[|revoke|..])
    else None
  }

  // trustCertNamePattern.FindStringSubmatch
  function MatchCertName(s: string): Option<CertMatch> {
    if !(CERT_PREFIX <= s) then None
    else
      match MatchIdent(s[|CERT_PREFIX|..])
      case None => None
      case Some(Ident(digits, fingerprint, rest)) =>
        if rest == ".crt" then Some(CertMatch(digits, fingerprint)) else None
  }

  // ----- the matchers accept exactly the languages, with the one possible submatch -----

  lemma {:induction false} DigitCountOf(digits: string, rest: string)
    requires AllDigits(digits) && rest != [] && !IsDigit(rest[0])
    ensures DigitCount(digits + rest) == |digits|
  {
    if digits == [] {
      assert digits + rest == rest;
    } else {
      assert (digits + rest)[1..] == digits[1..] + rest;
      DigitCountOf(digits[1..], rest);
    }
  }

  lemma MatchIdentOf(digits: string, fingerprint: string, rest: string)
    requires digits != "" && AllDigits(digits) && ValidFingerprint(fingerprint)
    ensures MatchIdent(digits + "-" + fingerprint + rest) == Some(Ident(digits, fingerprint, rest))
  {
    var s := digits + "-" + fingerprint + rest;
    assert s == digits + ("-" + fingerprint + rest);
    DigitCountOf(digits, "-" + fingerprint + rest);
    assert s[..|digits|] == digits;
    assert s[|digits| + 1..|digits| + 65] == fingerprint;
    assert s[|digits| + 65..] == rest;
  }

  lemma MatchIdentSplits(s: string)
    requires MatchIdent(s).Some?
    ensures var Ident(digits, fingerprint, rest) := MatchIdent(s).value;
            && digits != "" && AllDigits(digits) && ValidFingerprint(fingerprint)
            && s == digits + "-" + fingerprint + rest
  {
  }

  lemma MatchRequestTailOf(action: string, digits: string, fingerprint: string, token: string)
    requires digits != "" && AllDigits(digits) && ValidFingerprint(fingerprint) && |token| == 16 && AllLowerHex(token)
    ensures MatchRequestTail(action, digits + "-" + fingerprint + "-" + token + ".json")
            == Some(RequestMatch(action, digits, fingerprint))
  {
    var rest := "-" + token + ".json";
    assert digits + "-" + fingerprint + "-" + token + ".json" == digits + "-" + fingerprint + rest;
    MatchIdentOf(digits, fingerprint, rest);
    assert rest[1..17] == token && rest[17..] == ".json";
  }

  lemma MatchRequestTailSplits(action: string, s: string) returns (token: string)
    requires MatchRequestTail(action, s).Some?
    ensures var RequestMatch(a, digits, fingerprint) := MatchRequestTail(action, s).value;
            && a == action && digits != "" && AllDigits(digits) && ValidFingerprint(fingerprint)
            && |token| == 16 && AllLowerHex(token)
            && s == digits + "-" + fingerprint + "-" + token + ".json"
  {
    MatchIdentSplits(s);
    var Ident(digits, fingerprint, rest) := MatchIdent(s).value;
    token := rest[1..17];
    assert rest == "-" + token + ".json" by {
      assert rest == [rest[0]] + rest[1..17] + rest[17..];
    }
    assert digits + "-" + fingerprint + rest == digits + "-" + fingerprint + "-" + token + ".json";
  }

  // The two alternatives of the action cannot both match.
  lemma OneAction(s: string)
    ensures !(REQUEST_PREFIX + REGISTER + "-" <= s && REQUEST_PREFIX + REVOKE + "-" <= s)
  {
    assert (REQUEST_PREFIX + REVOKE + "-")[|REQUEST_PREFIX| + 2] == 'v';
    assert (REQUEST_PREFIX + REGISTER + "-")[|REQUEST_PREFIX| + 2] == 'g';
  }

  lemma RequestNameMatches(s: string, action: string, digits: string, fingerprint: string, token: string)
    requires RequestNameOf(s, action, digits, fingerprint, token)
    ensures MatchRequestName(s) == Some(RequestMatch(action, digits, fingerprint))
  {
    hide MatchRequestTail;
    var prefix := REQUEST_PREFIX + action + "-";
    var tail := digits + "-" + fingerprint + "-" + token + ".json";
    assert s == prefix + tail;
    assert s[|prefix|..] == tail && prefix <= s;
    MatchRequestTailOf(action, digits, fingerprint, token);
    OneAction(s);
  }

  lemma MatchedRequestName(s: string)
    requires MatchRequestName(s).Some?
    ensures var RequestMatch(action, digits, fingerprint) := MatchRequestName(s).value;
            exists token :: RequestNameOf(s, action, digits, fingerprint, token)
  {
    hide MatchRequestTail;
    var action := if REQUEST_PREFIX + REGISTER + "-" <= s then REGISTER else REVOKE;
    var prefix := REQUEST_PREFIX + action + "-";
    var token := MatchRequestTailSplits(action, s[|prefix|..]);
    var RequestMatch(_, digits, fingerprint) := MatchRequestName(s).value;
    assert s == prefix + s[|prefix|..];
    assert s == REQUEST_PREFIX + action + "-" + digits + "-" + fingerprint + "-" + token + ".json";
    assert RequestNameOf(s, action, digits, fingerprint, token);
  }

  // A request name determines the action, the digits of the user id and the fingerprint.
  lemma RequestMatcherIsThePattern(s: string, action: string, digits: string, fingerprint: string)
    ensures MatchRequestName(s) == Some(RequestMatch(action, digits, fingerprint))
            <==> exists token :: RequestNameOf(s, action, digits, fingerprint, token)
  {
    if token :| RequestNameOf(s, action, digits, fingerprint, token) {
      RequestNameMatches(s, action, digits, fingerprint, token);
    }
    if MatchRequestName(s).Some? {
      MatchedRequestName(s);
    }
  }

  lemma CertMatcherIsThePattern(s: string, digits: string, fingerprint: string)
    ensures MatchCertName(s) == Some(CertMatch(digits, fingerprint)) <==> CertNameOf(s, digits, fingerprint)
  {
    if CertNameOf(s, digits, fingerprint) {
      assert s[|CERT_PREFIX|..] == digits + "-" + fingerprint + ".crt";
      MatchIdentOf(digits, fingerprint, ".crt");
    }
    if MatchCertName(s).Some? {
      MatchIdentSplits(s[|CERT_PREFIX|..]);
      assert s == CERT_PREFIX + s[|CERT_PREFIX|..];
      var m := MatchCertName(s).value;
      assert s == CERT_PREFIX + m.digits + "-" + m.fingerprint + ".crt";
    }
  }

  // Two printed names are equal only when everything printed in them is.
  lemma RequestNameInjective(
      a1: string, u1: nat, f1: string, t1: string, a2: string, u2: nat, f2: string, t2: string)
    requires (a1 == REGISTER || a1 == REVOKE) && (a2 == REGISTER || a2 == REVOKE)
    requires ValidFingerprint(f1) && ValidFingerprint(f2)
    requires |t1| == 16 && |t2| == 16 && AllLowerHex(t1) && AllLowerHex(t2)
    requires RequestName(a1, u1, f1, t1) == RequestName(a2, u2, f2, t2)
    ensures a1 == a2 && u1 == u2 && f1 == f2 && t1 == t2
  {
    var s := RequestName(a1, u1, f1, t1);
    RequestNameMatches(s, a1, Decimal(u1), f1, t1);
    RequestNameMatches(s, a2, Decimal(u2), f2, t2);
    DecimalInjective(u1, u2);
    assert t1 == s[|s| - 21..|s| - 5] == t2;
  }

  lemma PrintedNamesAreBasenames(action: string, userId: nat, fingerprint: string, token: string)
    requires action == REGISTER || action == REVOKE
    requires ValidFingerprint(fingerprint) && |token| == 16 && AllLowerHex(token)
    ensures IsBasename(RequestName(action, userId, fingerprint, token))
    ensures IsBasename(CertName(userId, fingerprint))
  {
  }
}
