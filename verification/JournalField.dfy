// Cutting a journal field to a number of bytes without splitting a character
// (UTF-8 as in section 4 of RFC 3629).
module JournalField {
  import opened BitGroups

  predicate Continuation(b: Byte) { 0x80 <= b <= 0xBF }

  // The bytes of the first character of s; 0 when s does not start with one.
  function RuneLen(s: seq<Byte>): (n: nat)
    ensures n <= 4 && n <= |s|
  {
    if s == [] then 0
    else if s[0] < 0x80 then 1
    else if 0xC2 <= s[0] <= 0xDF then if |s| >= 2 && Continuation(s[1]) then 2 else 0
    else if 0xE0 <= s[0] <= 0xEF then
      if |s| >= 3 && Continuation(s[1]) && Continuation(s[2])
         && (s[0] == 0xE0 ==> s[1] >= 0xA0) && (s[0] == 0xED ==> s[1] <= 0x9F) then 3 else 0
    else if 0xF0 <= s[0] <= 0xF4 then
      if |s| >= 4 && Continuation(s[1]) && Continuation(s[2]) && Continuation(s[3])
         && (s[0] == 0xF0 ==> s[1] >= 0x90) && (s[0] == 0xF4 ==> s[1] <= 0x8F) then 4 else 0
    else 0
  }

  // utf8.ValidString
  predicate ValidString(s: seq<Byte>)
    decreases |s|
  {
    s == [] || (RuneLen(s) > 0 && ValidString(s[RuneLen(s)..]))
  }

  // Whether a prefix starts with a character is known once it holds all of it.
  lemma RuneOfPrefix(s: seq<Byte>, n: nat)
    requires n <= |s| && RuneLen(s) > 0
    ensures RuneLen(s[..n]) == if RuneLen(s) <= n then RuneLen(s) else 0
  {
  }

  // A character of s ends after k bytes, or k is 0.
  predicate Boundary(s: seq<Byte>, k: nat)
    decreases |s|
  {
    k == 0 || (0 < RuneLen(s) <= k && Boundary(s[RuneLen(s)..], k - RuneLen(s)))
  }

  // The last character boundary of s that is not after n.
  function Cut(s: seq<Byte>, n: nat): (c: nat)
    ensures c <= n && c <= |s| && Boundary(s, c)
    ensures forall k :: c < k <= n ==> !Boundary(s, k)
    decreases |s|
  {
    var r := RuneLen(s);
    if r == 0 || r > n then 0 else r + Cut(s[r..], n - r)
  }

  // The valid prefixes of valid text are those that end at a character boundary.
  lemma {:induction false} ValidPrefixes(s: seq<Byte>, k: nat)
    requires ValidString(s) && k <= |s|
    ensures ValidString(s[..k]) <==> Boundary(s, k)
    decreases |s|
  {
    var r := RuneLen(s);
    if s != [] {
      RuneOfPrefix(s, k);
      if r <= k {
        ValidPrefixes(s[r..], k - r);
        assert s[..k][r..] == s[r..][..k - r];
      }
    }
    hide RuneLen;
  }

  // What follows the cut is valid text whose first character reaches beyond n.
  lemma {:induction false} CutStraddles(s: seq<Byte>, n: nat)
    requires ValidString(s) && n < |s|
    ensures ValidString(s[Cut(s, n)..]) && n < Cut(s, n) + RuneLen(s[Cut(s, n)..])
    decreases |s|
  {
    hide RuneLen;
    var r := RuneLen(s);
    if r <= n {
      CutStraddles(s[r..], n - r);
      assert s[Cut(s, n)..] == s[r..][Cut(s[r..], n - r)..];
    } else {
      assert s[0..] == s;
    }
  }

  lemma EmptyIsValid()
    ensures ValidString([])
  {
  }

  lemma LongestIsCut(s: seq<Byte>, n: nat, maxBytes: nat)
    requires ValidString(s) && n <= maxBytes < |s| && ValidString(s[..n])
    requires forall k :: n < k <= maxBytes ==> !ValidString(s[..k])
    ensures n == Cut(s, maxBytes)
    ensures ValidString(s[n..]) && maxBytes < n + RuneLen(s[n..])
  {
    hide ValidString, RuneLen;
    CutStraddles(s, maxBytes);
    ValidPrefixes(s, n);
    ValidPrefixes(s, Cut(s, maxBytes));
  }

  // A value that is too long becomes its longest valid prefix of at most maxBytes bytes; of
  // valid text that drops only the character that straddles the cut, at most three bytes.
  method TruncateJournalField(value: seq<Byte>, maxBytes: int) returns (field: seq<Byte>)
    ensures maxBytes <= 0 ==> field == []
    ensures 0 < maxBytes && |value| <= maxBytes ==> field == value
    ensures 0 < maxBytes < |value| ==>
              && field <= value && |field| <= maxBytes && ValidString(field)
              && forall k :: |field| < k <= maxBytes ==> !ValidString(value[..k])
    ensures 0 < maxBytes < |value| && ValidString(value) ==>
              && maxBytes - 3 <= |field| && ValidString(value[|field|..])
              && maxBytes < |field| + RuneLen(value[|field|..])
  {
    if maxBytes <= 0 {
      return [];
    }
    if |value| <= maxBytes {
      return value;
    }
    hide ValidString, RuneLen;
    var n := maxBytes;
    assert ValidString(value[..0]) by { EmptyIsValid(); }
    while n > 0 && !ValidString(value[..n])
      invariant 0 <= n <= maxBytes
      invariant forall k :: n < k <= maxBytes ==> !ValidString(value[..k])
    {
      n := n - 1;
    }
    if ValidString(value) {
      LongestIsCut(value, n, maxBytes);
    }
    return value[..n];
  }
}
