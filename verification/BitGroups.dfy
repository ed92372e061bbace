// Regrouping the bits of a byte string, as base32 and base64 do (sections 4 and 6 of RFC 4648).
module BitGroups {

  type Byte = b: int | 0 <= b < 256

  function Pow2(n: nat): (p: nat)
    ensures p >= 1
  {
    if n == 0 then 1 else 2 * Pow2(n - 1)
  }

  // The low n bits of v, most significant first.
  function ToBits(v: nat, n: nat): (bits: seq<bool>)
    ensures |bits| == n
  {
    if n == 0 then [] else ToBits(v / 2, n - 1) + [v % 2 == 1]
  }

  function FromBits(bits: seq<bool>): nat {
    if bits == [] then 0
    else 2 * FromBits(bits[..|bits| - 1]) + if bits[|bits| - 1] then 1 else 0
  }

  lemma {:induction false} FromToBits(v: nat, n: nat)
    requires v < Pow2(n)
    ensures FromBits(ToBits(v, n)) == v
  {
    if n > 0 {
      FromToBits(v / 2, n - 1);
      assert ToBits(v, n)[..n - 1] == ToBits(v / 2, n - 1);
    }
  }

  lemma {:induction false} ToFromBits(bits: seq<bool>)
    ensures ToBits(FromBits(bits), |bits|) == bits && FromBits(bits) < Pow2(|bits|)
  {
    if bits != [] {
      ToFromBits(bits[..|bits| - 1]);
    }
  }

  lemma {:induction false} FromBitsConcat(a: seq<bool>, b: seq<bool>)
    ensures FromBits(a + b) == FromBits(a) * Pow2(|b|) + FromBits(b)
  {
    if b == [] {
      assert a + b == a;
    } else {
      var last := |b| - 1;
      FromBitsConcat(a, b[..last]);
      assert (a + b)[..|a + b| - 1] == a + b[..last];
      assert FromBits(a) * Pow2(|b|) == 2 * (FromBits(a) * Pow2(last));
    }
  }

  // The last m bits of a number do not depend on how many come before them, and are those of
  // its remainder.
  lemma {:induction false} LowBits(v: nat, n: nat, m: nat)
    ensures ToBits(v, n + m)[n..] == ToBits(v, m)
  {
    if m > 0 {
      LowBits(v / 2, n, m - 1);
    }
  }

  lemma {:induction false} FromLowBits(v: nat, m: nat)
    ensures FromBits(ToBits(v, m)) == v % Pow2(m)
  {
    if m > 0 {
      FromLowBits(v / 2, m - 1);
      HalfModulo(v, Pow2(m - 1));
      assert ToBits(v, m)[..m - 1] == ToBits(v / 2, m - 1);
    }
  }

  lemma HalfModulo(v: nat, p: nat)
    requires p >= 1
    ensures v / (2 * p) == v / 2 / p && v % (2 * p) == 2 * (v / 2 % p) + v % 2
  {
    var q, r := v / 2 / p, v / 2 % p;
    assert v / 2 == q * p + r;
    assert v == q * (2 * p) + (2 * r + v % 2);
    UniqueQuotient(v, 2 * p, q, 2 * r + v % 2);
  }

  lemma UniqueQuotient(v: nat, d: nat, q: nat, r: nat)
    requires d >= 1 && v == q * d + r && r < d
    ensures v / d == q && v % d == r
  {
    assert v == d * (v / d) + v % d;
    Multiple(d, q, v / d);
    Multiple(d, v / d, q);
  }

  lemma {:induction false} Multiple(d: nat, a: nat, b: nat)
    ensures a < b ==> d * a + d <= d * b
  {
    if a < b {
      assert d * b == d * (b - 1) + d;
      Multiple(d, a, b - 1);
    }
  }

  // The concatenated bits of groups of n bits each.
  function Concat(groups: seq<nat>, n: nat): (bits: seq<bool>) {
    if groups == [] then [] else ToBits(groups[0], n) + Concat(groups[1..], n)
  }

  // The full groups of n bits at the front; bits that do not fill a group are dropped.
  function Groups(bits: seq<bool>, n: nat): seq<nat>
    requires n > 0
  {
    if |bits| < n then [] else [FromBits(bits[..n])] + Groups(bits[n..], n)
  }

  function Zeros(n: nat): (bits: seq<bool>)
    ensures |bits| == n
  {
    seq(n, _ => false)
  }

  // All groups of n bits, the last one filled up with zeros.
  function PaddedGroups(bits: seq<bool>, n: nat): seq<nat>
    requires n > 0
  {
    if bits == [] then []
    else if |bits| < n then [FromBits(bits + Zeros(n - |bits|))]
    else [FromBits(bits[..n])] + PaddedGroups(bits[n..], n)
  }

  predicate AllBelow(groups: seq<nat>, bound: nat) {
    forall i :: 0 <= i < |groups| ==> groups[i] < bound
  }

  // Bytes as groups of n bits.
  function Encode(bytes: seq<Byte>, n: nat): seq<nat>
    requires n > 0
  {
    PaddedGroups(Concat(bytes, 8), n)
  }

  // The full bytes in a string of groups of n bits.
  function Decode(groups: seq<nat>, n: nat): seq<nat> {
    Groups(Concat(groups, n), 8)
  }

  lemma {:induction false} ConcatSnoc(groups: seq<nat>, g: nat, n: nat)
    ensures Concat(groups + [g], n) == Concat(groups, n) + ToBits(g, n)
  {
    if groups == [] {
      assert [] + [g] == [g];
    } else {
      assert (groups + [g])[1..] == groups[1..] + [g];
      ConcatSnoc(groups[1..], g, n);
    }
  }

  // Bytes followed by less than a byte of bits are read back as the bytes.
  lemma {:induction false} GroupsOfBytes(bytes: seq<nat>, tail: seq<bool>)
    requires AllBelow(bytes, 256) && |tail| < 8
    ensures Groups(Concat(bytes, 8) + tail, 8) == bytes
  {
    if bytes == [] {
      assert Concat(bytes, 8) + tail == tail;
    } else {
      var bits := Concat(bytes, 8) + tail;
      var rest := Concat(bytes[1..], 8) + tail;
      assert bits == ToBits(bytes[0], 8) + rest;
      assert bits[..8] == ToBits(bytes[0], 8) && bits[8..] == rest;
      assert Pow2(8) == 256;
      FromToBits(bytes[0], 8);
      GroupsOfBytes(bytes[1..], tail);
    }
  }

  // Padding adds less than one group of zeros.
  lemma {:induction false} ConcatOfPadded(bits: seq<bool>, n: nat) returns (pad: nat)
    requires n > 0
    ensures pad < n && Concat(PaddedGroups(bits, n), n) == bits + Zeros(pad)
    ensures AllBelow(PaddedGroups(bits, n), Pow2(n))
    decreases |bits|
  {
    pad := 0;
    if |bits| < n {
      if bits != [] {
        pad := n - |bits|;
        ToFromBits(bits + Zeros(pad));
      }
    } else {
      pad := ConcatOfPadded(bits[n..], n);
      ToFromBits(bits[..n]);
      assert bits == bits[..n] + bits[n..];
    }
  }

  // Every byte string survives a trip through groups of at most eight bits.
  lemma RoundTrip(bytes: seq<Byte>, n: nat)
    requires 0 < n <= 8
    ensures Decode(Encode(bytes, n), n) == bytes
    ensures AllBelow(Encode(bytes, n), Pow2(n))
  {
    var pad := ConcatOfPadded(Concat(bytes, 8), n);
    GroupsOfBytes(bytes, Zeros(pad));
  }

  lemma {:induction false} ConcatLength(groups: seq<nat>, n: nat)
    ensures |Concat(groups, n)| == n * |groups|
  {
    if groups != [] {
      ConcatLength(groups[1..], n);
      assert n * |groups| == n + n * |groups[1..]|;
    }
  }

  lemma {:induction false} GroupsLength(bits: seq<bool>)
    ensures |Groups(bits, 8)| == |bits| / 8
    decreases |bits|
  {
    if |bits| >= 8 {
      GroupsLength(bits[8..]);
    }
  }

  // Decoding g groups of n bits yields the first n*g/8 bytes, rounded down.
  lemma DecodeLength(groups: seq<nat>, n: nat)
    ensures |Decode(groups, n)| == n * |groups| / 8
  {
    ConcatLength(groups, n);
    GroupsLength(Concat(groups, n));
  }

  lemma {:induction false} GroupsAreBytes(bits: seq<bool>)
    ensures AllBelow(Groups(bits, 8), 256)
    decreases |bits|
  {
    if |bits| >= 8 {
      assert Pow2(8) == 256;
      ToFromBits(bits[..8]);
      GroupsAreBytes(bits[8..]);
    }
  }
}
