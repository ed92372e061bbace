// TOTP validation: dynamic truncation (section 5.3 of RFC 4226), the time step
// (section 4.2 of RFC 6238) and one step of drift either way.
module Totp {
  import opened Numerals
  import opened BitGroups
  import opened Base32

  const PERIOD := 30
  const MAC_SIZE := 20

  type Digest = d: seq<Byte> | |d| == MAC_SIZE witness seq(MAC_SIZE, _ => 0)

  // HMAC-SHA-1 of an eight-byte counter, by key.
  type Hmac = (seq<nat>, nat) -> Digest

  // binary.BigEndian.Uint32
  function BigEndian32(b: seq<Byte>): (n: nat)
    requires |b| == 4
    ensures n < 0x1_0000_0000
  {
    var b0: int, b1: int, b2: int, b3: int := b[0], b[1], b[2], b[3];
    b0 * 0x100_0000 + b1 * 0x1_0000 + b2 * 0x100 + b3
  }

  function Truncate(sum: Digest): (otp: nat)
    ensures otp < 1_000_000
  {
    var offset := sum[MAC_SIZE - 1] % 16;
    (BigEndian32(sum[offset..offset + 4]) % 0x8000_0000) % 1_000_000
  }

  // %06d
  function SixDigits(n: nat): string {
    var s := Decimal(n);
    if |s| < 6 then seq(6 - |s|, _ => '0') + s else s
  }

  // The code for one counter value.
  function Code(hmac: Hmac, key: seq<nat>, counter: nat): string {
    SixDigits(Truncate(hmac(key, counter)))
  }

  function TotpAt(hmac: Hmac, secret: string, t: int): string {
    if t < 0 || Secret(secret) == [] then "" else Code(hmac, Secret(secret), t / PERIOD)
  }

  lemma {:induction false} DecimalLength(n: nat, digits: nat, bound: nat)
    requires digits >= 1 && bound == Pow10(digits)
    ensures n < bound ==> |Decimal(n)| <= digits
    decreases digits
  {
    if n >= 10 && digits > 1 {
      DecimalLength(n / 10, digits - 1, Pow10(digits - 1));
    }
  }

  function Pow10(n: nat): nat { if n == 0 then 1 else 10 * Pow10(n - 1) }

  lemma {:induction false} LeadingZeros(zeros: nat, s: string)
    requires AllDigits(s)
    ensures AllDigits(seq(zeros, _ => '0') + s) && Value(seq(zeros, _ => '0') + s) == Value(s)
    decreases |s|
  {
    var padded := seq(zeros, _ => '0') + s;
    if s == "" {
      assert padded == seq(zeros, _ => '0');
      OnlyZeros(zeros);
    } else {
      LeadingZeros(zeros, s[..|s| - 1]);
      assert padded[..|padded| - 1] == seq(zeros, _ => '0') + s[..|s| - 1];
    }
  }

  lemma {:induction false} OnlyZeros(zeros: nat)
    ensures Value(seq(zeros, _ => '0')) == 0
  {
    if zeros > 0 {
      OnlyZeros(zeros - 1);
      assert seq(zeros, _ => '0')[..zeros - 1] == seq(zeros - 1, _ => '0');
    }
  }

  // A code always has six digits and determines the number it was printed from.
  lemma SixDigitsOf(n: nat)
    requires n < 1_000_000
    ensures |SixDigits(n)| == 6 && AllDigits(SixDigits(n)) && Value(SixDigits(n)) == n
  {
    assert Pow10(4) == 10_000 && Pow10(6) == 1_000_000;
    DecimalLength(n, 6, 1_000_000);
    ValueOfDecimal(n);
    LeadingZeros(6 - |Decimal(n)|, Decimal(n));
    assert seq(0, _ => '0') + Decimal(n) == Decimal(n);
  }

  // Dynamic truncation on the bits of the MAC: the low four bits of its last byte say where
  // four bytes are read; their bits without the first are a number, of which six digits stay.
  function TruncatedBits(sum: Digest): (otp: nat)
    ensures otp < 1_000_000
  {
    LowFourBits(sum[19]);
    var k := FromBits(ToBits(sum[19], 8)[4..]);
    FromBits(Concat(sum[k..k + 4], 8)[1..]) % 1_000_000
  }

  lemma LowFourBits(b: Byte)
    ensures FromBits(ToBits(b, 8)[4..]) == b % 16 < 16
    ensures forall s: seq<nat> :: |s| == 4 ==> |Concat(s, 8)| == 32
  {
    LowBits(b, 4, 4);
    FromLowBits(b, 4);
    assert Pow2(4) == 16;
    forall s: seq<nat> | |s| == 4 ensures |Concat(s, 8)| == 32 {
      ConcatLength(s, 8);
    }
  }

  lemma FourBytes(b: seq<Byte>)
    requires |b| == 4
    ensures |Concat(b, 8)| == 32 && FromBits(Concat(b, 8)) == BigEndian32(b)
  {
    hide FromBits, ToBits;
    ConcatLength(b, 8);
    assert Concat(b, 8) == ToBits(b[0], 8) + (ToBits(b[1], 8) + (ToBits(b[2], 8) + ToBits(b[3], 8))) by {
      assert b[1..][1..] == b[2..] && b[2..][1..] == b[3..] && b[3..][1..] == [];
      assert Concat(b[3..], 8) == ToBits(b[3], 8) + Concat([], 8);
      assert Concat(b[2..], 8) == ToBits(b[2], 8) + Concat(b[3..], 8);
      assert Concat(b[1..], 8) == ToBits(b[1], 8) + Concat(b[2..], 8);
    }
    Powers();
    FromBitsConcat(ToBits(b[2], 8), ToBits(b[3], 8));
    FromBitsConcat(ToBits(b[1], 8), ToBits(b[2], 8) + ToBits(b[3], 8));
    FromBitsConcat(ToBits(b[0], 8), ToBits(b[1], 8) + (ToBits(b[2], 8) + ToBits(b[3], 8)));
    FromToBits(b[0], 8);
    FromToBits(b[1], 8);
    FromToBits(b[2], 8);
    FromToBits(b[3], 8);
  }

  lemma Powers()
    ensures Pow2(8) == 0x100 && Pow2(16) == 0x1_0000 && Pow2(24) == 0x100_0000 && Pow2(31) == 0x8000_0000
  {
    assert Pow2(4) == 16;
    assert Pow2(8) == 0x100;
    assert Pow2(12) == 0x1000;
    assert Pow2(16) == 0x1_0000;
    assert Pow2(20) == 0x10_0000;
    assert Pow2(24) == 0x100_0000;
    assert Pow2(28) == 0x1000_0000;
    assert Pow2(31) == 0x8000_0000;
  }

  // Clearing the sign bit of a word drops its first bit.
  lemma WithoutSign(bits: seq<bool>)
    requires |bits| == 32
    ensures FromBits(bits[1..]) == FromBits(bits) % 0x8000_0000
  {
    Powers();
    assert bits == bits[..1] + bits[1..];
    FromBitsConcat(bits[..1], bits[1..]);
    ToFromBits(bits[1..]);
    UniqueQuotient(FromBits(bits), 0x8000_0000, FromBits(bits[..1]), FromBits(bits[1..]));
  }

  lemma TruncateOnBits(sum: Digest)
    ensures Truncate(sum) == TruncatedBits(sum)
  {
    var k := sum[19] % 16;
    LowFourBits(sum[19]);
    FourBytes(sum[k..k + 4]);
    WithoutSign(Concat(sum[k..k + 4], 8));
    hide FromBits, ToBits, Concat;
  }

  lemma {:induction false} ValueInjective(a: string, b: string)
    requires |a| == |b| && AllDigits(a) && AllDigits(b) && Value(a) == Value(b)
    ensures a == b
  {
    if a != "" {
      var last := |a| - 1;
      assert DigitValue(a[last]) == Value(a) % 10 && DigitValue(b[last]) == Value(b) % 10;
      ValueInjective(a[..last], b[..last]);
      assert a == a[..last] + [a[last]] && b == b[..last] + [b[last]];
    }
  }

  // The code for a counter is the one string of six digits with the truncated value.
  lemma CodeIs(hmac: Hmac, key: seq<nat>, counter: nat, code: string)
    ensures code == Code(hmac, key, counter) <==>
              |code| == 6 && AllDigits(code) && Value(code) == TruncatedBits(hmac(key, counter))
  {
    hide SixDigits, Truncate, TruncatedBits;
    var otp := Truncate(hmac(key, counter));
    TruncateOnBits(hmac(key, counter));
    SixDigitsOf(otp);
    if |code| == 6 && AllDigits(code) && Value(code) == otp {
      ValueInjective(code, SixDigits(otp));
    }
  }

  // The code is that of a counter at most one away from the current time step, which may be
  // any floor(now / 30); counters are not negative and the secret decodes to some key.
  ghost predicate Accepts(hmac: Hmac, secret: string, code: string, now: int) {
    && Secret(secret) != []
    && exists c: nat :: now / PERIOD - 1 <= c <= now / PERIOD + 1 && code == Code(hmac, Secret(secret), c)
  }

  // totpAt, from the decoder up.
  method ComputeTotp(hmac: Hmac, secret: string, t: int) returns (code: string)
    ensures code == TotpAt(hmac, secret, t)
    ensures t < 0 || Secret(secret) == [] ==> code == ""
    ensures t >= 0 && Secret(secret) != [] ==>
              |code| == 6 && AllDigits(code) && Value(code) == TruncatedBits(hmac(Secret(secret), t / 30))
  {
    hide SixDigits, Truncate, Secret, TruncatedBits;
    if t < 0 {
      return "";
    }
    var counter := t / PERIOD;
    var key := DecodeBase32(secret);
    if |key| == 0 {
      return "";
    }
    code := SixDigits(Truncate(hmac(key, counter)));
    CodeIs(hmac, key, counter, code);
  }

  // Exactly the codes of the current time step and its neighbours are accepted, at any time.
  method ValidateTOTP(hmac: Hmac, secret: string, code: string, now: int) returns (ok: bool)
    ensures ok <==> Accepts(hmac, secret, code, now)
    ensures ok <==> && |code| == 6 && AllDigits(code) && Secret(secret) != []
                    && exists c: nat :: now / 30 - 1 <= c <= now / 30 + 1
                                     && Value(code) == TruncatedBits(hmac(Secret(secret), c))
  {
    hide TotpAt, Accepts, TruncatedBits, Secret;
    AcceptsIs(hmac, secret, code, now);
    if |code| != 6 {
      WrongLength(hmac, secret, code, now);
      return false;
    }
    var offsets := [0, -30, 30];
    for i := 0 to |offsets|
      invariant forall j :: 0 <= j < i ==> TotpAt(hmac, secret, now + offsets[j]) != code
    {
      var candidate := ComputeTotp(hmac, secret, now + offsets[i]);
      if candidate == code {
        OneOffset(hmac, secret, code, now, offsets[i]);
        return true;
      }
    }
    assert offsets[0] == 0 && offsets[1] == -30 && offsets[2] == 30;
    NoOffset(hmac, secret, code, now);
    return false;
  }

  lemma AcceptsIs(hmac: Hmac, secret: string, code: string, now: int)
    ensures Accepts(hmac, secret, code, now) <==>
              && |code| == 6 && AllDigits(code) && Secret(secret) != []
              && exists c: nat :: now / 30 - 1 <= c <= now / 30 + 1
                               && Value(code) == TruncatedBits(hmac(Secret(secret), c))
  {
    hide Code, Secret, TruncatedBits, SixDigits, Truncate;
    forall c: nat
      ensures code == Code(hmac, Secret(secret), c) <==>
                |code| == 6 && AllDigits(code) && Value(code) == TruncatedBits(hmac(Secret(secret), c))
    {
      CodeIs(hmac, Secret(secret), c, code);
    }
  }

  lemma WrongLength(hmac: Hmac, secret: string, code: string, now: int)
    requires |code| != 6
    ensures !Accepts(hmac, secret, code, now)
  {
    hide SixDigits, Truncate, Secret;
    forall c: nat ensures code != Code(hmac, Secret(secret), c) {
      SixDigitsOf(Truncate(hmac(Secret(secret), c)));
    }
  }

  lemma OneOffset(hmac: Hmac, secret: string, code: string, now: int, offset: int)
    requires |code| == 6 && (offset == 0 || offset == -30 || offset == 30)
    requires TotpAt(hmac, secret, now + offset) == code
    ensures Accepts(hmac, secret, code, now)
  {
  }

  lemma NoOffset(hmac: Hmac, secret: string, code: string, now: int)
    requires |code| == 6
    ensures Accepts(hmac, secret, code, now) ==>
              TotpAt(hmac, secret, now) == code || TotpAt(hmac, secret, now - 30) == code || TotpAt(hmac, secret, now + 30) == code
  {
    hide Code, Secret;
    var step := now / PERIOD;
    assert (now - 30) / PERIOD == step - 1 && (now + 30) / PERIOD == step + 1;
    if Accepts(hmac, secret, code, now) {
      var c: nat :| step - 1 <= c <= step + 1 && code == Code(hmac, Secret(secret), c);
      assert c == step - 1 || c == step || c == step + 1;
    }
  }

  // A code made within thirty seconds of now, before or after, is accepted.
  lemma DriftTolerated(hmac: Hmac, secret: string, made: int, now: int)
    requires made >= 0 && Secret(secret) != [] && -PERIOD <= now - made <= PERIOD
    ensures Accepts(hmac, secret, TotpAt(hmac, secret, made), now)
  {
  }

  // An accepted code is that of some moment less than sixty seconds away.
  lemma DriftBounded(hmac: Hmac, secret: string, code: string, now: int)
    ensures Accepts(hmac, secret, code, now) ==>
              exists made :: made >= 0 && -2 * PERIOD < now - made < 2 * PERIOD && code == TotpAt(hmac, secret, made)
  {
    hide Code, Secret;
    if Accepts(hmac, secret, code, now) {
      var c: nat :| now / PERIOD - 1 <= c <= now / PERIOD + 1 && code == Code(hmac, Secret(secret), c);
      var made := if c == now / PERIOD + 1 then c * PERIOD else c * PERIOD + PERIOD - 1;
      assert made / PERIOD == c;
      assert code == TotpAt(hmac, secret, made);
    }
  }
}
