// The base32 decoder of totp_validate.go: what it computes, and its bit accumulator.
module Base32 {
  import opened BitGroups

  const ALPHABET := "ABCDEFGHIJKLMNOPQRSTUVWXYZ234567"

  predicate InAlphabet(c: char) { 'A' <= c <= 'Z' || '2' <= c <= '7' }

  predicate IsLower(c: char) { 'a' <= c <= 'z' }

  function CharValue(c: char): (v: nat)
    requires InAlphabet(c)
    ensures v < 32
  {
    if 'A' <= c <= 'Z' then c as int - 'A' as int else c as int - '2' as int + 26
  }

  // Upper case for lower case; anything outside the alphabet is left out.
  function Normalize(s: string): (r: string)
    ensures forall i :: 0 <= i < |r| ==> InAlphabet(r[i])
  {
    if s == "" then ""
    else
      var c := s[|s| - 1];
      Normalize(s[..|s| - 1]) + if IsLower(c) then [(c as int - 32) as char] else if InAlphabet(c) then [c] else []
  }

  function Values(s: string): (v: seq<nat>)
    requires forall i :: 0 <= i < |s| ==> InAlphabet(s[i])
    ensures |v| == |s| && forall i :: 0 <= i < |s| ==> v[i] == CharValue(s[i])
  {
    seq(|s|, i requires 0 <= i < |s| => CharValue(s[i]))
  }

  // The bytes a secret stands for.
  function Secret(s: string): seq<nat> {
    Decode(Values(Normalize(s)), 5)
  }

  // Unpadded base32 of a byte string, as NewTOTPSecret issues it.
  function EncodeToString(bytes: seq<Byte>): (s: string)
    ensures |s| == |Encode(bytes, 5)|
  {
    var groups := Encode(bytes, 5);
    RoundTrip(bytes, 5);
    seq(|groups|, i requires 0 <= i < |groups| => ALPHABET[BelowAlphabet(groups, i)])
  }

  function BelowAlphabet(groups: seq<nat>, i: nat): (v: nat)
    requires AllBelow(groups, Pow2(5)) && i < |groups|
    ensures v == groups[i] < |ALPHABET|
  {
    assert Pow2(5) == 32;
    groups[i]
  }

  lemma AlphabetValues(v: nat)
    requires v < 32
    ensures InAlphabet(ALPHABET[v]) && CharValue(ALPHABET[v]) == v
    ensures ALPHABET[v] == if v < 26 then (0x41 + v) as char else (0x32 + (v - 26)) as char
  {
  }

  lemma {:induction false} NormalizeKeeps(s: string)
    requires forall i :: 0 <= i < |s| ==> InAlphabet(s[i])
    ensures Normalize(s) == s
  {
    if s != "" {
      NormalizeKeeps(s[..|s| - 1]);
    }
  }

  lemma {:induction false} NormalizeConcat(a: string, b: string)
    ensures Normalize(a + b) == Normalize(a) + Normalize(b)
  {
    if b == "" {
      assert a + b == a;
    } else {
      assert (a + b)[..|a + b| - 1] == a + b[..|b| - 1];
      NormalizeConcat(a, b[..|b| - 1]);
    }
  }

  // Decoding undoes encoding, for byte strings of every length.
  lemma SecretRoundTrip(bytes: seq<Byte>)
    ensures Secret(EncodeToString(bytes)) == bytes
  {
    var s := EncodeToString(bytes);
    var groups := Encode(bytes, 5);
    RoundTrip(bytes, 5);
    forall i | 0 <= i < |s| ensures InAlphabet(s[i]) && CharValue(s[i]) == groups[i] {
      AlphabetValues(BelowAlphabet(groups, i));
    }
    NormalizeKeeps(s);
    assert Values(s) == groups;
  }

  lemma {:induction false} NormalizeJunk(junk: string)
    requires forall i :: 0 <= i < |junk| ==> !InAlphabet(junk[i]) && !IsLower(junk[i])
    ensures Normalize(junk) == ""
  {
    if junk != "" {
      NormalizeJunk(junk[..|junk| - 1]);
    }
  }

  // Spaces, dashes, padding and the like do not matter, wherever they are.
  lemma JunkIgnored(a: string, junk: string, b: string)
    requires forall i :: 0 <= i < |junk| ==> !InAlphabet(junk[i]) && !IsLower(junk[i])
    ensures Secret(a + junk + b) == Secret(a + b)
  {
    NormalizeJunk(junk);
    NormalizeConcat(a + junk, b);
    NormalizeConcat(a, junk);
    NormalizeConcat(a, b);
    assert Normalize(a + junk + b) == Normalize(a + b);
  }

  function Lower(s: string): string {
    if s == "" then ""
    else
      var c := s[|s| - 1];
      Lower(s[..|s| - 1]) + [if 'A' <= c <= 'Z' then (c as int + 32) as char else c]
  }

  lemma {:induction false} CaseIgnored(s: string)
    ensures Secret(Lower(s)) == Secret(s) && Normalize(Lower(s)) == Normalize(s)
  {
    if s != "" {
      CaseIgnored(s[..|s| - 1]);
      assert Lower(s)[..|Lower(s)| - 1] == Lower(s[..|s| - 1]);
    }
  }

  // n significant characters give the first 5n/8 bytes, rounded down.
  lemma SecretLength(s: string)
    ensures |Secret(s)| == 5 * |Normalize(s)| / 8 && AllBelow(Secret(s), 256)
  {
    DecodeLength(Values(Normalize(s)), 5);
    GroupsAreBytes(Concat(Values(Normalize(s)), 5));
  }

  // ----- the accumulator -----

  lemma SmallPowers()
    ensures Pow2(0) == 1 && Pow2(1) == 2 && Pow2(2) == 4 && Pow2(3) == 8 && Pow2(4) == 16 && Pow2(5) == 32
    ensures Pow2(6) == 64 && Pow2(7) == 128 && Pow2(8) == 256 && Pow2(9) == 512 && Pow2(10) == 1024
    ensures Pow2(11) == 2048 && Pow2(12) == 4096
  {
  }

  // Shifting in a group keeps the accumulator below 2^12, so sixteen bits are enough.
  lemma ShiftIn(tail: seq<bool>, v: nat)
    requires |tail| <= 7 && v < 32
    ensures FromBits(tail + ToBits(v, 5)) == 32 * FromBits(tail) + v < 0x1000
  {
    SmallPowers();
    FromToBits(v, 5);
    ToFromBits(tail);
    PowMonotone(|tail|, 7);
    hide FromBits, ToBits, Pow2;
    FromBitsConcat(tail, ToBits(v, 5));
    assert Pow2(|ToBits(v, 5)|) == 32;
    assert FromBits(tail) < 128;
  }

  lemma {:induction false} PowMonotone(m: nat, n: nat)
    requires m <= n
    ensures Pow2(m) <= Pow2(n)
    decreases n
  {
    if m < n {
      PowMonotone(m, n - 1);
    }
  }

  // bits << 5 | v on sixteen-bit words; v fits in five bits.
  function ShiftLeft5(bits: nat, v: nat): nat { (bits * 32) % 0x10000 + v }

  // bits >> n
  function ShiftRight(bits: nat, n: nat): nat { if n == 0 then bits else ShiftRight(bits / 2, n - 1) }

  // bits & ((1 << n) - 1)
  function Mask(bits: nat, n: nat): nat { if n == 0 then 0 else 2 * Mask(bits / 2, n - 1) + bits % 2 }

  // Shift and mask take a word apart.
  lemma {:induction false} ShiftAndMask(top: seq<bool>, rest: seq<bool>)
    ensures ShiftRight(FromBits(top + rest), |rest|) == FromBits(top)
    ensures Mask(FromBits(top + rest), |rest|) == FromBits(rest)
  {
    if rest == [] {
      assert top + rest == top;
    } else {
      var last := |rest| - 1;
      ShiftAndMask(top, rest[..last]);
      assert (top + rest)[..|top + rest| - 1] == top + rest[..last];
    }
  }

  // The groups seen so far are the bytes put out and the bits kept; a group comes in ...
  lemma AbsorbIn(seen: seq<nat>, v: nat, buf: seq<nat>, tail: seq<bool>)
    requires Concat(seen, 5) == Concat(buf, 8) + tail && |tail| <= 7 && v < 32
    ensures var all := tail + ToBits(v, 5);
            && FromBits(all) == 32 * FromBits(tail) + v < 0x1000
            && FromBits(all) < Pow2(|all|)
            && Concat(seen + [v], 5) == Concat(buf, 8) + all
  {
    hide FromBits, ToBits, Concat, Pow2;
    ShiftIn(tail, v);
    ConcatSnoc(seen, v, 5);
    ToFromBits(tail + ToBits(v, 5));
  }

  // ... and a byte goes out.
  lemma AbsorbOut(seen: seq<nat>, buf: seq<nat>, top: seq<bool>, rest: seq<bool>)
    requires Concat(seen, 5) == Concat(buf, 8) + top + rest && |top| == 8
    ensures var word := FromBits(top + rest);
            && ShiftRight(word, |rest|) < 256
            && Mask(word, |rest|) == FromBits(rest) < Pow2(|rest|)
            && Concat(seen, 5) == Concat(buf + [ShiftRight(word, |rest|)], 8) + rest
  {
    assert Pow2(8) == 256;
    hide FromBits, ToBits, Concat, Pow2, ShiftRight, Mask;
    ShiftAndMask(top, rest);
    ConcatSnoc(buf, FromBits(top), 8);
    ToFromBits(top);
    ToFromBits(rest);
  }

  method BuildLookup() returns (lookup: map<char, nat>)
    ensures forall c :: c in lookup <==> InAlphabet(c)
    ensures forall c :: c in lookup ==> lookup[c] == CharValue(c)
  {
    lookup := map[];
    for i := 0 to |ALPHABET|
      invariant forall c :: c in lookup <==> InAlphabet(c) && CharValue(c) < i
      invariant forall c :: c in lookup ==> lookup[c] == CharValue(c)
    {
      AlphabetValues(i);
      assert forall c :: InAlphabet(c) && CharValue(c) == i ==> c == ALPHABET[i];
      lookup := lookup[ALPHABET[i] := i];
    }
  }

  method NormalizeLoop(s: string) returns (normalized: string)
    ensures normalized == Normalize(s)
  {
    normalized := "";
    for i := 0 to |s|
      invariant normalized == Normalize(s[..i])
    {
      var c := s[i];
      assert s[..i + 1][..i] == s[..i];
      if IsLower(c) {
        normalized := normalized + [(c as int - 32) as char];
      } else if InAlphabet(c) {
        normalized := normalized + [c];
      }
    }
    assert s[..|s|] == s;
  }

  // Pads to a multiple of eight characters.
  method PadLoop(normalized: string) returns (padded: string)
    ensures normalized <= padded
    ensures forall i :: |normalized| <= i < |padded| ==> padded[i] == '='
  {
    padded := normalized;
    ghost var full := (|normalized| + 7) / 8 * 8;
    while |padded| % 8 != 0
      invariant normalized <= padded && |padded| <= full
      invariant forall i :: |normalized| <= i < |padded| ==> padded[i] == '='
      decreases full - |padded|
    {
      padded := padded + "=";
    }
  }

  // The bits kept after some groups: their number, their value, and what went out before.
  ghost predicate Accumulated(seen: seq<nat>, buf: seq<nat>, bits: nat, bitsLen: nat, tail: seq<bool>) {
    && bitsLen == |tail| <= 7 && bits == FromBits(tail) < Pow2(bitsLen)
    && Concat(seen, 5) == Concat(buf, 8) + tail
    && AllBelow(buf, 256)
  }

  // Five bits more, when a byte is not full yet ...
  lemma KeepBits(v: nat, buf: seq<nat>, bits: nat, bitsLen: nat, seen: seq<nat>, tail: seq<bool>)
    requires v < 32 && Accumulated(seen, buf, bits, bitsLen, tail)
    ensures ShiftLeft5(bits, v) == 32 * bits + v < 0x1000 && bitsLen == |tail| <= 7
    ensures bitsLen < 3 ==> Accumulated(seen + [v], buf, ShiftLeft5(bits, v), bitsLen + 5, tail + ToBits(v, 5))
  {
    hide FromBits, ToBits, Concat, Pow2;
    AbsorbIn(seen, v, buf, tail);
  }

  // ... and when it is.
  lemma PutByte(v: nat, buf: seq<nat>, bits: nat, bitsLen: nat, seen: seq<nat>, tail: seq<bool>)
    requires v < 32 && Accumulated(seen, buf, bits, bitsLen, tail) && bitsLen >= 3
    ensures var word, n := ShiftLeft5(bits, v), bitsLen - 3;
            && ShiftRight(word, n) < 256 && |tail| >= 3
            && Accumulated(seen + [v], buf + [ShiftRight(word, n)], Mask(word, n), n, (tail + ToBits(v, 5))[8..])
  {
    hide FromBits, ToBits, Concat, Pow2, ShiftLeft5, ShiftRight, Mask, AllBelow;
    KeepBits(v, buf, bits, bitsLen, seen, tail);
    AbsorbIn(seen, v, buf, tail);
    var all := tail + ToBits(v, 5);
    var top, rest := all[..8], all[8..];
    assert all == top + rest;
    assert Concat(buf, 8) + all == Concat(buf, 8) + top + rest;
    AbsorbOut(seen + [v], buf, top, rest);
    BytesSnoc(buf, ShiftRight(FromBits(all), bitsLen - 3));
  }

  lemma BytesSnoc(buf: seq<nat>, byte: nat)
    requires AllBelow(buf, 256) && byte < 256
    ensures AllBelow(buf + [byte], 256)
  {
  }

  // The body of the loop.
  method Push(v: nat, buf: seq<nat>, bits: nat, bitsLen: nat, ghost seen: seq<nat>, ghost tail: seq<bool>)
    returns (buf': seq<nat>, bits': nat, bitsLen': nat, ghost tail': seq<bool>)
    requires v < 32 && Accumulated(seen, buf, bits, bitsLen, tail)
    ensures Accumulated(seen + [v], buf', bits', bitsLen', tail')
    ensures buf <= buf' && |buf'| == |buf| + (bitsLen + 5) / 8 && bitsLen' == (bitsLen + 5) % 8
  {
    hide Accumulated, ToBits, ShiftLeft5, ShiftRight, Mask;
    KeepBits(v, buf, bits, bitsLen, seen, tail);
    bits' := ShiftLeft5(bits, v);
    bitsLen' := bitsLen + 5;
    buf' := buf;
    tail' := tail + ToBits(v, 5);
    if bitsLen' >= 8 {
      PutByte(v, buf, bits, bitsLen, seen, tail);
      bitsLen' := bitsLen' - 8;
      buf' := buf + [ShiftRight(bits', bitsLen') % 256];
      bits' := Mask(bits', bitsLen');
      tail' := tail'[8..];
    }
  }

  method DecodeBase32(s: string) returns (buf: seq<nat>)
    ensures buf == Secret(s)
  {
    hide Normalize, Accumulated, Concat;
    var normalized := NormalizeLoop(s);
    var padded := PadLoop(normalized);
    assert forall k :: 0 <= k < |normalized| ==> padded[k] == normalized[k] && InAlphabet(padded[k]);
    var lookup := BuildLookup();
    ghost var values := Values(normalized);
    ghost var tail: seq<bool> := [];
    buf := [];
    var bits, bitsLen := 0, 0;
    StartEmpty();
    var i := 0;
    while i < |padded| && padded[i] != '='
      invariant i <= |values| && Accumulated(values[..i], buf, bits, bitsLen, tail)
      decreases |padded| - i
    {
      if padded[i] !in lookup {
        assert false;
      }
      var v := lookup[padded[i]];
      assert values[..i + 1] == values[..i] + [v];
      buf, bits, bitsLen, tail := Push(v, buf, bits, bitsLen, values[..i], tail);
      i := i + 1;
    }
    assert values[..i] == values;
    FullBytes(values, buf, bits, bitsLen, tail);
  }

  lemma FullBytes(seen: seq<nat>, buf: seq<nat>, bits: nat, bitsLen: nat, tail: seq<bool>)
    requires Accumulated(seen, buf, bits, bitsLen, tail)
    ensures Decode(seen, 5) == buf
  {
    GroupsOfBytes(buf, tail);
  }

  lemma StartEmpty()
    ensures Accumulated([], [], 0, 0, [])
  {
  }
}
