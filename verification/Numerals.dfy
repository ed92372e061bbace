// Decimal numerals as Go's fmt and strconv print and read them.
module Numerals {

  datatype Option<+T> = None | Some(value: T)

  const MAX_INT64 := 0x7fff_ffff_ffff_ffff

  predicate IsDigit(c: char) { '0' <= c <= '9' }

  predicate AllDigits(s: string) { forall i :: 0 <= i < |s| ==> IsDigit(s[i]) }

  function DigitValue(c: char): nat
    requires IsDigit(c)
  {
    c as int - '0' as int
  }

  function Digit(d: nat): (c: char)
    requires d < 10
    ensures IsDigit(c) && DigitValue(c) == d
  {
    ('0' as int + d) as char
  }

  // %d of a number that is not negative.
  function Decimal(n: nat): (s: string)
    ensures s != [] && AllDigits(s)
  {
    if n < 10 then [Digit(n)] else Decimal(n / 10) + [Digit(n % 10)]
  }

  function Value(s: string): nat
    requires AllDigits(s)
  {
    if s == [] then 0 else 10 * Value(s[..|s| - 1]) + DigitValue(s[|s| - 1])
  }

  // strconv.ParseInt(s, 10, 64), which strconv.Atoi agrees with on 64-bit machines.
  function ParseInt(s: string): Option<int> {
    var digits := if s != [] && (s[0] == '+' || s[0] == '-') then s[1..] else s;
    if digits == [] || !AllDigits(digits) then None
    else
      var size: int := Value(digits);
      var n := if s[0] == '-' then -size else size;
      if -MAX_INT64 - 1 <= n <= MAX_INT64 then Some(n) else None
  }

  lemma {:induction false} ValueOfDecimal(n: nat)
    ensures Value(Decimal(n)) == n
  {
    if n < 10 {
      assert [Digit(n)][..0] == [];
    } else {
      var s := Decimal(n / 10);
      ValueOfDecimal(n / 10);
      assert (s + [Digit(n % 10)])[..|s|] == s;
    }
  }

  lemma DecimalInjective(m: nat, n: nat)
    requires Decimal(m) == Decimal(n)
    ensures m == n
  {
    ValueOfDecimal(m);
    ValueOfDecimal(n);
  }

  // Every int64 that is not negative reads back as it was printed.
  lemma ParseDecimal(n: nat)
    ensures ParseInt(Decimal(n)) == if n <= MAX_INT64 then Some(n) else None
  {
    ValueOfDecimal(n);
    assert IsDigit(Decimal(n)[0]);
  }
  // Exactly the numerals that are read: a sign or none, then digits, with a value that fits
  // 64 bits.
  lemma ParseIntIs(s: string, n: int)
    ensures ParseInt(s) == Some(n) <==>
              exists sign, digits :: IsNumeral(s, sign, digits, n)
  {
    if ParseInt(s) == Some(n) {
      var sign := if s[0] == '+' then "+" else if s[0] == '-' then "-" else "";
      assert s == sign + s[|sign|..];
      assert IsNumeral(s, sign, s[|sign|..], n);
    }
    if sign, digits :| IsNumeral(s, sign, digits, n) {
      assert IsDigit(digits[0]);
      if sign == "" {
        assert s == digits;
      } else {
        assert s[0] == sign[0] && s[1..] == digits && (s[0] == '-' <==> sign == "-");
      }
    }
  }

  predicate IsNumeral(s: string, sign: string, digits: string, n: int) {
    && s == sign + digits && (sign == "" || sign == "+" || sign == "-") && digits != "" && AllDigits(digits)
    && n == (if sign == "-" then -(Value(digits) as int) else Value(digits) as int)
    && -9223372036854775808 <= n <= 9223372036854775807
  }

  // The digits, and how they are put together.
  lemma TenDigits()
    ensures Digit(0) == '0' && Digit(1) == '1' && Digit(2) == '2' && Digit(3) == '3' && Digit(4) == '4'
    ensures Digit(5) == '5' && Digit(6) == '6' && Digit(7) == '7' && Digit(8) == '8' && Digit(9) == '9'
    ensures Decimal(7) == "7" && Decimal(10) == "10" && Decimal(120) == "120"
  {
    assert Decimal(12) == "12";
  }
}
