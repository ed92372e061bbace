// Password hashes as PHC strings: printing, parsing and verifying.
module Argon2id {
  import opened Numerals
  import opened BitGroups
  import opened Text
  import Base64

  const VERSION := 19

  type Uint32 = n: int | 0 <= n <= 0xffff_ffff
  type Uint8 = n: int | 0 <= n <= 0xff

  datatype Params = Params(time: Uint32, memoryKiB: Uint32, parallelism: Uint8, saltLen: Uint32, keyLen: Uint32)

  // argon2.IDKey: password, salt, time, memory, threads, key length.
  type KeyFunction = (string, seq<nat>, Uint32, Uint32, Uint8, Uint32) -> seq<Byte>

  datatype Decoded = Invalid | Decoded(params: Params, salt: seq<nat>, key: seq<nat>)

  // ----- Hash -----

  function Encoded(p: Params, salt: seq<Byte>, key: seq<Byte>): string {
    "$argon2id$v=" + Decimal(VERSION) + "$m=" + Decimal(p.memoryKiB) + ",t=" + Decimal(p.time) + ",p=" + Decimal(p.parallelism)
    + "$" + Base64.EncodeToString(salt) + "$" + Base64.EncodeToString(key)
  }

  // The salt is p.saltLen random bytes. An empty password is refused.
  function Hash(idKey: KeyFunction, password: string, p: Params, salt: seq<Byte>): Option<string>
    requires |salt| == p.saltLen
  {
    if password == "" then None
    else Some(Encoded(p, salt, idKey(password, salt, p.time, p.memoryKiB, p.parallelism, p.keyLen)))
  }

  // ----- fmt.Sscanf, as far as the two formats need it -----

  datatype Scan = Fail | Got(value: int, rest: string)

  // The spaces fmt skips; a line feed among them is an error.
  predicate IsSpace(c: char) {
    || '\t' <= c <= '\r' || c == ' ' || c == '\U{85}' || c == '\U{a0}' || c == '\U{1680}'
    || '\U{2000}' <= c <= '\U{200a}' || c == '\U{2028}' || c == '\U{2029}' || c == '\U{202f}'
    || c == '\U{205f}' || c == '\U{3000}'
  }

  function SkipSpace(s: string): Option<string> {
    if s == "" || !IsSpace(s[0]) then Some(s) else if s[0] == '\n' then None else SkipSpace(s[1..])
  }

  function DigitCount(s: string): (n: nat)
    ensures n <= |s| && AllDigits(s[..n])
  {
    if s == "" || !IsDigit(s[0]) then 0
    else
      var n := 1 + DigitCount(s[1..]);
      assert forall i :: 1 <= i < n ==> s[..n][i] == s[1..][..n - 1][i - 1];
      n
  }

  // %d into an unsigned integer of at most this value: spaces, then digits, no sign.
  function ScanUint(s: string, max: nat): Scan {
    match SkipSpace(s)
    case None => Fail
    case Some(t) =>
      var n := DigitCount(t);
      if n == 0 || Value(t[..n]) > max then Fail else Got(Value(t[..n]), t[n..])
  }

  // %d into an int: a sign is accepted.
  function ScanInt(s: string): Scan {
    match SkipSpace(s)
    case None => Fail
    case Some(t) =>
      var sign := if t != "" && (t[0] == '+' || t[0] == '-') then 1 else 0;
      var n := DigitCount(t[sign..]);
      if n == 0 || ParseInt(t[..sign + n]).None? then Fail else Got(ParseInt(t[..sign + n]).value, t[sign + n..])
  }

  function Literal(s: string, literal: string): Option<string> {
    if literal <= s then Some(s[|literal|..]) else None
  }

  // Sscanf(s, "v=%d", &version); what follows the number is not looked at.
  function ScanVersion(s: string): Scan {
    match Literal(s, "v=")
    case None => Fail
    case Some(t) => ScanInt(t)
  }

  datatype Costs = NoCosts | Costs(memoryKiB: Uint32, time: Uint32, parallelism: Uint8)

  function ScanField(s: string, literal: string, max: nat): (r: Scan)
    ensures r.Got? ==> 0 <= r.value <= max
  {
    match Literal(s, literal)
    case None => Fail
    case Some(t) => ScanUint(t, max)
  }

  // Sscanf(s, "m=%d,t=%d,p=%d", ...)
  function ScanCosts(s: string): Costs {
    var m := ScanField(s, "m=", 0xffff_ffff);
    if m.Fail? then NoCosts
    else
      var t := ScanField(m.rest, ",t=", 0xffff_ffff);
      if t.Fail? then NoCosts
      else
        var p := ScanField(t.rest, ",p=", 0xff);
        if p.Fail? then NoCosts else Costs(m.value, t.value, p.value)
  }

  // ----- decodeArgon2idHash -----

  function ToUint32(n: nat): Uint32 { n % 0x1_0000_0000 }

  function Decode(encoded: string): Decoded {
    DecodeParts(Split(encoded, '$'))
  }

  function DecodeParts(parts: seq<string>): Decoded {
    if |parts| != 6 || parts[1] != "argon2id" then Invalid
    else
      var version := ScanVersion(parts[2]);
      var costs := ScanCosts(parts[3]);
      var salt := Base64.DecodeString(parts[4]);
      var key := Base64.DecodeString(parts[5]);
      if version.Fail? || version.value != VERSION || costs.NoCosts? || salt.None? || key.None? then Invalid
      else
        var p := Params(costs.time, costs.memoryKiB, costs.parallelism, ToUint32(|salt.value|), ToUint32(|key.value|));
        Decoded(p, salt.value, key.value)
  }

  // The answer, when the hash could be parsed.
  function Verify(idKey: KeyFunction, encoded: string, password: string): Option<bool> {
    match Decode(encoded)
    case Invalid => None
    case Decoded(p, salt, key) =>
      Some(key == idKey(password, salt, p.time, p.memoryKiB, p.parallelism, ToUint32(|key|)))
  }

  // ----- the printed parts are read back -----

  lemma {:induction false} DigitCountOf(digits: string, rest: string)
    requires AllDigits(digits) && (rest != "" ==> !IsDigit(rest[0]))
    ensures DigitCount(digits + rest) == |digits|
  {
    if digits == "" {
      assert digits + rest == rest;
    } else {
      assert (digits + rest)[1..] == digits[1..] + rest;
      DigitCountOf(digits[1..], rest);
    }
  }

  lemma ScanDecimal(n: nat, rest: string, max: nat)
    requires n <= max && (rest != "" ==> !IsDigit(rest[0]))
    ensures ScanUint(Decimal(n) + rest, max) == Got(n, rest)
    ensures n <= MAX_INT64 ==> ScanInt(Decimal(n) + rest) == Got(n, rest)
  {
    var t := Decimal(n) + rest;
    assert IsDigit(Decimal(n)[0]) && t[0] == Decimal(n)[0];
    DigitCountOf(Decimal(n), rest);
    assert t[..|Decimal(n)|] == Decimal(n) && t[|Decimal(n)|..] == rest && t[0..] == t;
    ValueOfDecimal(n);
    ParseDecimal(n);
    hide DigitCount;
  }

  lemma ScanPrintedField(literal: string, n: nat, rest: string, max: nat)
    requires n <= max && (rest != "" ==> !IsDigit(rest[0]))
    ensures ScanField(literal + Decimal(n) + rest, literal, max) == Got(n, rest)
  {
    var s := literal + Decimal(n) + rest;
    assert literal <= s && s[|literal|..] == Decimal(n) + rest;
    ScanDecimal(n, rest, max);
  }

  function CostsText(p: Params): string {
    "m=" + Decimal(p.memoryKiB) + (",t=" + Decimal(p.time) + (",p=" + Decimal(p.parallelism) + ""))
  }

  lemma ScanPrintedCosts(p: Params)
    ensures ScanCosts(CostsText(p)) == Costs(p.memoryKiB, p.time, p.parallelism)
  {
    hide ScanField;
    var third := ",p=" + Decimal(p.parallelism) + "";
    var second := ",t=" + Decimal(p.time) + third;
    ScanPrintedField("m=", p.memoryKiB, second, 0xffff_ffff);
    ScanPrintedField(",t=", p.time, third, 0xffff_ffff);
    ScanPrintedField(",p=", p.parallelism, "", 0xff);
  }

  lemma ScanPrintedVersion()
    ensures ScanVersion("v=" + Decimal(VERSION)) == Got(VERSION, "")
  {
    var s := "v=" + Decimal(VERSION);
    assert "v=" <= s && s[2..] == Decimal(VERSION) + "";
    ScanDecimal(VERSION, "", VERSION);
  }

  function Parts(p: Params, salt: seq<Byte>, key: seq<Byte>): seq<string> {
    ["", "argon2id", "v=" + Decimal(VERSION), CostsText(p), Base64.EncodeToString(salt), Base64.EncodeToString(key)]
  }

  lemma NoDollar(p: Params, salt: seq<Byte>, key: seq<Byte>)
    ensures forall i :: 0 <= i < 6 ==> '$' !in Parts(p, salt, key)[i]
  {
  }

  lemma JoinCons(part: string, rest: seq<string>, sep: char)
    requires rest != []
    ensures Join([part] + rest, sep) == part + [sep] + Join(rest, sep)
  {
  }

  lemma JoinSix(a: string, b: string, c: string, d: string, e: string, f: string, sep: char)
    ensures Join([a, b, c, d, e, f], sep) == a + [sep] + (b + [sep] + (c + [sep] + (d + [sep] + (e + [sep] + f))))
  {
    JoinCons(e, [f], sep);
    JoinCons(d, [e, f], sep);
    JoinCons(c, [d, e, f], sep);
    JoinCons(b, [c, d, e, f], sep);
    JoinCons(a, [b, c, d, e, f], sep);
    assert [e] + [f] == [e, f] && [d] + [e, f] == [d, e, f] && [c] + [d, e, f] == [c, d, e, f];
    assert [b] + [c, d, e, f] == [b, c, d, e, f] && [a] + [b, c, d, e, f] == [a, b, c, d, e, f];
  }

  lemma EncodedJoins(p: Params, salt: seq<Byte>, key: seq<Byte>)
    ensures Encoded(p, salt, key) == Join(Parts(p, salt, key), '$')
  {
    hide Decimal, Base64.EncodeToString, Join;
    var s, k := Base64.EncodeToString(salt), Base64.EncodeToString(key);
    JoinSix("", "argon2id", "v=" + Decimal(VERSION), CostsText(p), s, k, '$');
    Flatten(Decimal(VERSION), Decimal(p.memoryKiB), Decimal(p.time), Decimal(p.parallelism), s, k);
  }

  lemma Flatten(v: string, m: string, t: string, p: string, s: string, k: string)
    ensures "$argon2id$v=" + v + "$m=" + m + ",t=" + t + ",p=" + p + "$" + s + "$" + k
         == "" + "$" + ("argon2id" + "$" + ("v=" + v + "$" + ("m=" + m + (",t=" + t + (",p=" + p + "")) + "$" + (s + "$" + k))))
  {
    var costs := "m=" + m + (",t=" + t + (",p=" + p + ""));
    FlattenCosts("$argon2id$v=" + v, m, t, p);
    FlattenHead("v=" + v, costs, s, k);
    assert "$argon2id$v=" + v == "$argon2id$" + ("v=" + v);
  }

  lemma FlattenCosts(head: string, m: string, t: string, p: string)
    ensures head + "$m=" + m + ",t=" + t + ",p=" + p == head + "$" + ("m=" + m + (",t=" + t + (",p=" + p + "")))
  {
  }

  lemma FlattenHead(v: string, costs: string, s: string, k: string)
    ensures "$argon2id$" + v + "$" + costs + "$" + s + "$" + k
         == "" + "$" + ("argon2id" + "$" + (v + "$" + (costs + "$" + (s + "$" + k))))
  {
  }

  lemma PartsDecoded(p: Params, salt: seq<Byte>, key: seq<Byte>)
    requires |salt| == p.saltLen && |key| == p.keyLen
    ensures DecodeParts(Parts(p, salt, key)) == Decoded(p, salt, key)
  {
    hide ScanVersion, ScanCosts, CostsText, Decimal, Base64.DecodeString, Base64.EncodeToString;
    ScanPrintedVersion();
    ScanPrintedCosts(p);
    Base64.DecodeEncode(salt);
    Base64.DecodeEncode(key);
  }

  // Parsing undoes printing, for all parameters, salts and keys.
  lemma DecodeEncoded(p: Params, salt: seq<Byte>, key: seq<Byte>)
    requires |salt| == p.saltLen && |key| == p.keyLen
    ensures Decode(Encoded(p, salt, key)) == Decoded(p, salt, key)
  {
    EncodedJoins(p, salt, key);
    NoDollar(p, salt, key);
    SplitJoin(Parts(p, salt, key), '$');
    PartsDecoded(p, salt, key);
    hide Split, Join, Encoded, DecodeParts;
  }

  // A hash verifies with its own password, and with another one exactly when the key
  // function makes the same key of it.
  lemma HashVerifies(idKey: KeyFunction, password: string, p: Params, salt: seq<Byte>, other: string)
    requires password != "" && |salt| == p.saltLen
    requires |idKey(password, salt, p.time, p.memoryKiB, p.parallelism, p.keyLen)| == p.keyLen
    ensures var encoded := Hash(idKey, password, p, salt).value;
            && Verify(idKey, encoded, password) == Some(true)
            && Verify(idKey, encoded, other) ==
                 Some(idKey(password, salt, p.time, p.memoryKiB, p.parallelism, p.keyLen)
                      == idKey(other, salt, p.time, p.memoryKiB, p.parallelism, p.keyLen))
  {
    DecodeEncoded(p, salt, idKey(password, salt, p.time, p.memoryKiB, p.parallelism, p.keyLen));
  }
}
