// base64.RawStdEncoding: unpadded base64 (section 4 of RFC 4648), decoded as Go does.
module Base64 {
  import opened Numerals
  import opened BitGroups

  predicate InAlphabet(c: char) { 'A' <= c <= 'Z' || 'a' <= c <= 'z' || '0' <= c <= '9' || c == '+' || c == '/' }

  function CharValue(c: char): (v: nat)
    requires InAlphabet(c)
    ensures v < 64
  {
    if 'A' <= c <= 'Z' then c as int - 'A' as int
    else if 'a' <= c <= 'z' then c as int - 'a' as int + 26
    else if '0' <= c <= '9' then c as int - '0' as int + 52
    else if c == '+' then 62 else 63
  }

  function CharOf(v: nat): (c: char)
    requires v < 64
    ensures InAlphabet(c) && CharValue(c) == v
  {
    if v < 26 then (v + 'A' as int) as char
    else if v < 52 then (v - 26 + 'a' as int) as char
    else if v < 62 then (v - 52 + '0' as int) as char
    else if v == 62 then '+' else '/'
  }

  function EncodeToString(bytes: seq<Byte>): (s: string)
    ensures |s| == |Encode(bytes, 6)| && AllInAlphabet(s)
    ensures forall i :: 0 <= i < |s| ==> CharValue(s[i]) == Encode(bytes, 6)[i]
  {
    var groups := Encode(bytes, 6);
    seq(|groups|, i requires 0 <= i < |groups| => CharOf(SixBits(bytes, i)))
  }

  function SixBits(bytes: seq<Byte>, i: nat): (v: nat)
    requires i < |Encode(bytes, 6)|
    ensures v == Encode(bytes, 6)[i] < 64
  {
    RoundTrip(bytes, 6);
    assert Pow2(6) == 64;
    Encode(bytes, 6)[i]
  }

  // Line breaks inside the input are skipped.
  function WithoutBreaks(s: string): string {
    if s == "" then ""
    else
      var c := s[|s| - 1];
      WithoutBreaks(s[..|s| - 1]) + if c == '\r' || c == '\n' then [] else [c]
  }

  predicate AllInAlphabet(s: string) { forall i :: 0 <= i < |s| ==> InAlphabet(s[i]) }

  function Values(s: string): (v: seq<nat>)
    requires AllInAlphabet(s)
    ensures |v| == |s| && forall i :: 0 <= i < |s| ==> v[i] == CharValue(s[i])
  {
    seq(|s|, i requires 0 <= i < |s| => CharValue(s[i]))
  }

  // A single character left over is an error; other leftover bits are ignored.
  function DecodeString(s: string): Option<seq<nat>> {
    var t := WithoutBreaks(s);
    if !AllInAlphabet(t) || |t| % 4 == 1 then None else Some(Decode(Values(t), 6))
  }

  lemma {:induction false} NothingSkipped(s: string)
    requires AllInAlphabet(s)
    ensures WithoutBreaks(s) == s
  {
    if s != "" {
      NothingSkipped(s[..|s| - 1]);
    }
  }

  lemma {:induction false} PaddedLength(bits: seq<bool>)
    ensures |PaddedGroups(bits, 6)| == (|bits| + 5) / 6
    decreases |bits|
  {
    if |bits| >= 6 {
      PaddedLength(bits[6..]);
    }
  }

  // Bytes never leave a single character over.
  lemma NoSingleLeftover(bytes: seq<Byte>)
    ensures |Encode(bytes, 6)| % 4 != 1
  {
    PaddedLength(Concat(bytes, 8));
    ConcatLength(bytes, 8);
    hide *;
    var m := |bytes|;
    assert m == 3 * (m / 3) + m % 3;
    assert (8 * m + 5) / 6 == 4 * (m / 3) + (8 * (m % 3) + 5) / 6;
  }

  // Decoding undoes encoding, for byte strings of every length.
  lemma DecodeEncode(bytes: seq<Byte>)
    ensures DecodeString(EncodeToString(bytes)) == Some(bytes)
  {
    RoundTrip(bytes, 6);
    NoSingleLeftover(bytes);
    hide Encode, Decode, InAlphabet;
    NothingSkipped(EncodeToString(bytes));
    assert Values(EncodeToString(bytes)) == Encode(bytes, 6);
  }
  // Table 1 of RFC 4648.
  lemma Alphabet(v: nat)
    requires v < 64
    ensures v < 26 ==> CharOf(v) == "ABCDEFGHIJKLMNOPQRSTUVWXYZ"[v]
    ensures 26 <= v < 52 ==> CharOf(v) == "abcdefghijklmnopqrstuvwxyz"[v - 26]
    ensures 52 <= v < 62 ==> CharOf(v) == "0123456789"[v - 52]
    ensures CharOf(62) == '+' && CharOf(63) == '/'
  {
  }
  lemma {:induction false} WithoutBreaksConcat(a: string, b: string)
    ensures WithoutBreaks(a + b) == WithoutBreaks(a) + WithoutBreaks(b)
  {
    if b == "" {
      assert a + b == a;
    } else {
      assert (a + b)[..|a + b| - 1] == a + b[..|b| - 1];
      WithoutBreaksConcat(a, b[..|b| - 1]);
    }
  }

  // A line break can stand anywhere.
  lemma BreaksIgnored(a: string, c: char, b: string)
    requires c == '\r' || c == '\n'
    ensures DecodeString(a + [c] + b) == DecodeString(a + b)
  {
    WithoutBreaksConcat(a + [c], b);
    WithoutBreaksConcat(a, [c]);
    WithoutBreaksConcat(a, b);
    assert [c][..0] == "" && WithoutBreaks([c]) == WithoutBreaks("") + "";
    assert WithoutBreaks(a + [c] + b) == WithoutBreaks(a + b);
  }
}
