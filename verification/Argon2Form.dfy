// The PHC strings that are parsed, and what they are parsed as.
module Argon2Form {
  import opened Numerals
  import opened Text
  import opened Argon2id
  import BitGroups
  import Base64

  // Spaces that fmt skips.
  predicate Blank(s: string) { forall i :: 0 <= i < |s| ==> IsSpace(s[i]) && s[i] != '\n' }

  // s is blanks and all the digits that follow them, with this value, and then the rest.
  predicate Number(s: string, blanks: string, digits: string, rest: string, value: int) {
    && s == blanks + (digits + rest) && Blank(blanks) && digits != "" && AllDigits(digits)
    && (rest == "" || !IsDigit(rest[0])) && value == Value(digits)
  }

  lemma {:induction false} SkipBlanks(blanks: string, t: string)
    requires Blank(blanks) && (t == "" || !IsSpace(t[0]))
    ensures SkipSpace(blanks + t) == Some(t)
  {
    if blanks == "" {
      assert blanks + t == t;
    } else {
      assert (blanks + t)[1..] == blanks[1..] + t;
      SkipBlanks(blanks[1..], t);
    }
  }

  lemma {:induction false} SkippedBlanks(s: string) returns (blanks: string)
    requires SkipSpace(s).Some?
    ensures Blank(blanks) && s == blanks + SkipSpace(s).value
    ensures SkipSpace(s).value != "" ==> !IsSpace(SkipSpace(s).value[0])
  {
    if s == "" || !IsSpace(s[0]) {
      blanks := "";
    } else {
      var more := SkippedBlanks(s[1..]);
      blanks := [s[0]] + more;
      assert s == [s[0]] + s[1..];
    }
  }

  lemma {:induction false} CountStops(s: string)
    ensures DigitCount(s) < |s| ==> !IsDigit(s[DigitCount(s)])
  {
    if s != "" && IsDigit(s[0]) {
      CountStops(s[1..]);
    }
  }

  lemma ScannedUint(s: string, max: nat) returns (blanks: string, digits: string)
    requires ScanUint(s, max).Got?
    ensures ScanUint(s, max).value <= max && Number(s, blanks, digits, ScanUint(s, max).rest, ScanUint(s, max).value)
  {
    hide IsSpace, Value, DigitCount, SkipSpace, Blank;
    blanks := SkippedBlanks(s);
    var t := SkipSpace(s).value;
    CountStops(t);
    digits := t[..DigitCount(t)];
    assert t == digits + t[DigitCount(t)..];
  }

  lemma ScanNumberOf(s: string, max: nat, blanks: string, digits: string, rest: string, value: int)
    requires Number(s, blanks, digits, rest, value) && value <= max
    ensures ScanUint(s, max) == Got(value, rest)
  {
    hide IsSpace, Value, DigitCount, SkipSpace, Blank;
    var t := digits + rest;
    assert s == blanks + t && IsDigit(t[0]) && t[0] == digits[0];
    DigitsAreNoSpaces(digits[0]);
    SkipBlanks(blanks, t);
    DigitCountOf(digits, rest);
    assert t[..|digits|] == digits && t[|digits|..] == rest;
  }

  // %d into an unsigned integer takes exactly such a number, if it is not too large.
  lemma ScanUintIs(s: string, max: nat, value: int, rest: string)
    ensures ScanUint(s, max) == Got(value, rest) <==>
              value <= max && exists blanks, digits :: Number(s, blanks, digits, rest, value)
  {
    hide ScanUint, Number;
    if ScanUint(s, max) == Got(value, rest) {
      var blanks, digits := ScannedUint(s, max);
    }
    if blanks, digits :| Number(s, blanks, digits, rest, value) && value <= max {
      ScanNumberOf(s, max, blanks, digits, rest, value);
    }
  }

  lemma DigitsAreNoSpaces(c: char)
    ensures IsDigit(c) || c == '+' || c == '-' ==> !IsSpace(c)
  {
  }

  // The version: 19, whatever follows the number.
  ghost predicate Version19(s: string) {
    exists blanks, sign, digits, rest ::
      s == "v=" + (blanks + (sign + (digits + rest))) && Signed19(blanks, sign, digits, rest)
  }

  predicate Signed19(blanks: string, sign: string, digits: string, rest: string) {
    && Blank(blanks) && (sign == "" || sign == "+") && digits != "" && AllDigits(digits) && Value(digits) == 19
    && (rest == "" || !IsDigit(rest[0]))
  }

  lemma ScannedInt(u: string) returns (blanks: string, sign: string, digits: string)
    requires ScanInt(u).Got? && ScanInt(u).value == 19
    ensures u == blanks + (sign + (digits + ScanInt(u).rest)) && Signed19(blanks, sign, digits, ScanInt(u).rest)
  {
    hide IsSpace, Value, DigitCount, ParseInt, SkipSpace, Blank;
    blanks := SkippedBlanks(u);
    var t := SkipSpace(u).value;
    var k := if t != "" && (t[0] == '+' || t[0] == '-') then 1 else 0;
    var n := DigitCount(t[k..]);
    sign, digits := t[..k], t[k..][..n];
    var rest := t[k + n..];
    CountStops(t[k..]);
    assert t[..k + n] == sign + digits && t[k..][n..] == rest;
    assert t[k..] == digits + rest && t == sign + (digits + rest);
    SignOf(sign, digits);
  }

  lemma ScanSigned(u: string, blanks: string, sign: string, digits: string, rest: string)
    requires u == blanks + (sign + (digits + rest)) && Signed19(blanks, sign, digits, rest)
    ensures ScanInt(u) == Got(19, rest)
  {
    hide IsSpace, Value, DigitCount, ParseInt, SkipSpace, Blank;
    var t := sign + (digits + rest);
    assert u == blanks + t && t[0] == if sign == "" then digits[0] else sign[0];
    DigitsAreNoSpaces(t[0]);
    SkipBlanks(blanks, t);
    assert t[|sign|..] == digits + rest;
    DigitCountOf(digits, rest);
    assert t[..|sign| + |digits|] == sign + digits && t[|sign| + |digits|..] == rest;
    assert IsNumeral(sign + digits, sign, digits, 19);
    ParseIntIs(sign + digits, 19);
  }

  lemma ScanVersionIs(s: string)
    ensures ScanVersion(s).Got? && ScanVersion(s).value == 19 <==> Version19(s)
  {
    hide ScanInt, Signed19;
    if ScanVersion(s).Got? && ScanVersion(s).value == 19 {
      var blanks, sign, digits := ScannedInt(s[2..]);
      assert s == "v=" + s[2..];
    }
    if blanks, sign, digits, rest :| s == "v=" + (blanks + (sign + (digits + rest))) && Signed19(blanks, sign, digits, rest) {
      assert "v=" <= s && s[2..] == blanks + (sign + (digits + rest));
      ScanSigned(s[2..], blanks, sign, digits, rest);
    }
  }

  lemma SignOf(sign: string, digits: string)
    requires |sign| <= 1 && (sign != "" ==> sign[0] == '+' || sign[0] == '-') && AllDigits(digits) && digits != ""
    requires ParseInt(sign + digits) == Some(19)
    ensures (sign == "" || sign == "+") && Value(digits) == 19
  {
    assert sign == "" ==> sign + digits == digits;
    assert sign != "" ==> (sign + digits)[1..] == digits && (sign + digits)[0] == sign[0];
    assert sign != "" ==> sign == [sign[0]];
  }

  // The three costs, each within its width, whatever follows the last.
  ghost predicate CostsAre(s: string, m: int, t: int, p: int) {
    exists first, second, third, rest ::
      && s == "m=" + (first + (",t=" + (second + (",p=" + (third + rest)))))
      && m <= 0xffff_ffff && t <= 0xffff_ffff && p <= 0xff
      && IsNumber(first, m) && IsNumber(second, t) && IsNumber(third, p)
      && (rest == "" || !IsDigit(rest[0]))
  }

  ghost predicate IsNumber(s: string, value: int) {
    exists blanks, digits :: Number(s, blanks, digits, "", value)
  }

  lemma ScanNumber(s: string, max: nat, number: string, rest: string, value: int)
    requires s == number + rest && IsNumber(number, value) && (rest == "" || !IsDigit(rest[0])) && value <= max
    ensures ScanUint(s, max) == Got(value, rest)
  {
    var blanks, digits :| Number(number, blanks, digits, "", value);
    assert number == blanks + digits && blanks + (digits + rest) == number + rest && digits + "" == digits;
    assert Number(s, blanks, digits, rest, value);
    ScanUintIs(s, max, value, rest);
  }

  lemma ScannedNumber(s: string, max: nat) returns (number: string)
    requires ScanUint(s, max).Got?
    ensures var r := ScanUint(s, max);
            s == number + r.rest && IsNumber(number, r.value) && r.value <= max && (r.rest == "" || !IsDigit(r.rest[0]))
  {
    var r := ScanUint(s, max);
    ScanUintIs(s, max, r.value, r.rest);
    var blanks, digits :| Number(s, blanks, digits, r.rest, r.value);
    number := blanks + digits;
    assert number == blanks + (digits + "") && s == number + r.rest;
    assert Number(number, blanks, digits, "", r.value);
  }

  // A field is its name and a number.
  lemma ScanFieldIs(s: string, name: string, max: nat, value: int, rest: string)
    ensures ScanField(s, name, max) == Got(value, rest) <==>
              && value <= max && (rest == "" || !IsDigit(rest[0]))
              && exists number :: s == name + (number + rest) && IsNumber(number, value)
  {
    hide ScanUint, IsNumber;
    if ScanField(s, name, max) == Got(value, rest) {
      var number := ScannedNumber(s[|name|..], max);
      assert s == name + s[|name|..];
    }
    if number :| s == name + (number + rest) && IsNumber(number, value) && value <= max && (rest == "" || !IsDigit(rest[0])) {
      assert name <= s && s[|name|..] == number + rest;
      ScanNumber(s[|name|..], max, number, rest, value);
    }
  }

  lemma CostsScan(s: string, a: string, b: string, c: string, rest: string, m: Uint32, t: Uint32, p: Uint8)
    requires s == "m=" + (a + (",t=" + (b + (",p=" + (c + rest)))))
    requires IsNumber(a, m) && IsNumber(b, t) && IsNumber(c, p) && (rest == "" || !IsDigit(rest[0]))
    ensures ScanCosts(s) == Costs(m, t, p)
  {
    hide ScanField, IsNumber;
    var third := ",p=" + (c + rest);
    var second := ",t=" + (b + third);
    assert third[0] == ',' && second[0] == ',';
    ScanFieldIs(s, "m=", 0xffff_ffff, m, second);
    ScanFieldIs(second, ",t=", 0xffff_ffff, t, third);
    ScanFieldIs(third, ",p=", 0xff, p, rest);
  }

  lemma CostsScanned(s: string, m: Uint32, t: Uint32, p: Uint8)
    requires ScanCosts(s) == Costs(m, t, p)
    ensures CostsAre(s, m, t, p)
  {
    hide ScanField, IsNumber;
    var second := ScanField(s, "m=", 0xffff_ffff).rest;
    var third := ScanField(second, ",t=", 0xffff_ffff).rest;
    var rest := ScanField(third, ",p=", 0xff).rest;
    ScanFieldIs(s, "m=", 0xffff_ffff, m, second);
    ScanFieldIs(second, ",t=", 0xffff_ffff, t, third);
    ScanFieldIs(third, ",p=", 0xff, p, rest);
    var a :| s == "m=" + (a + second) && IsNumber(a, m);
    var b :| second == ",t=" + (b + third) && IsNumber(b, t);
    var c :| third == ",p=" + (c + rest) && IsNumber(c, p);
  }

  lemma ScanCostsIs(s: string, m: Uint32, t: Uint32, p: Uint8)
    ensures ScanCosts(s) == Costs(m, t, p) <==> CostsAre(s, m, t, p)
  {
    hide ScanCosts, IsNumber;
    if ScanCosts(s) == Costs(m, t, p) {
      CostsScanned(s, m, t, p);
    }
    if CostsAre(s, m, t, p) {
      var a, b, c, rest :|
        && s == "m=" + (a + (",t=" + (b + (",p=" + (c + rest)))))
        && IsNumber(a, m) && IsNumber(b, t) && IsNumber(c, p) && (rest == "" || !IsDigit(rest[0]));
      CostsScan(s, a, b, c, rest, m, t, p);
    }
  }

  // Exactly the strings that are parsed as these parameters, salt and key.
  lemma DecodedForm(encoded: string, p: Params, salt: seq<nat>, key: seq<nat>)
    ensures Decode(encoded) == Decoded(p, salt, key) <==>
              var parts := Split(encoded, '$');
              && |parts| == 6 && parts[1] == "argon2id" && Version19(parts[2])
              && CostsAre(parts[3], p.memoryKiB, p.time, p.parallelism)
              && Base64.DecodeString(parts[4]) == Some(salt) && Base64.DecodeString(parts[5]) == Some(key)
              && p.saltLen == |salt| % 0x1_0000_0000 && p.keyLen == |key| % 0x1_0000_0000
  {
    hide Split, ScanVersion, ScanCosts, Version19, CostsAre, Base64.DecodeString;
    var parts := Split(encoded, '$');
    if |parts| == 6 {
      ScanVersionIs(parts[2]);
      ScanCostsIs(parts[3], p.memoryKiB, p.time, p.parallelism);
    }
  }

  // Nothing else verifies, with any password: a string that is not of this form is an error.
  lemma VerifiedForm(idKey: KeyFunction, encoded: string, password: string)
    ensures Verify(idKey, encoded, password).Some? <==>
              exists p, salt, key :: Decode(encoded) == Decoded(p, salt, key)
    ensures Verify(idKey, encoded, password) == Some(true) ==>
              |Split(encoded, '$')| == 6 && Split(encoded, '$')[1] == "argon2id" && Version19(Split(encoded, '$')[2])
  {
    hide Split, Version19;
    match Decode(encoded)
    case Invalid =>
    case Decoded(p, salt, key) => DecodedForm(encoded, p, salt, key);
  }
  // Only the empty password is refused.
  lemma OnlyEmptyRefused(idKey: KeyFunction, password: string, p: Params, salt: seq<BitGroups.Byte>)
    requires |salt| == p.saltLen
    ensures Hash(idKey, password, p, salt).None? <==> password == ""
  {
  }

  // The blanks that may stand before a number: ASCII ones, and nineteen others.
  lemma Blanks(c: char)
    ensures c < '\U{80}' ==> (IsSpace(c) <==> c in "\t\n\U{0b}\U{0c}\r ")
    ensures c >= '\U{80}' ==> (IsSpace(c) <==>
              || c in "\U{85}\U{a0}\U{1680}\U{2028}\U{2029}\U{202f}\U{205f}\U{3000}"
              || c in "\U{2000}\U{2001}\U{2002}\U{2003}\U{2004}\U{2005}\U{2006}\U{2007}\U{2008}\U{2009}\U{200a}")
  {
  }
}
