// UTF-8 as an encoder writes it (section 3 of RFC 3629), and the byte strings it can write.
module Utf8 {
  import opened BitGroups
  import opened JournalField

  // A Unicode scalar value: no surrogate.
  type Scalar = c: int | 0 <= c < 0xD800 || 0xE000 <= c <= 0x10FFFF witness 0

  function EncodeScalar(c: Scalar): (bytes: seq<Byte>)
    ensures 1 <= |bytes| <= 4
  {
    if c < 0x80 then [c]
    else if c < 0x800 then [0xC0 + c / 0x40, 0x80 + c % 0x40]
    else if c < 0x1_0000 then [0xE0 + c / 0x1000, 0x80 + c / 0x40 % 0x40, 0x80 + c % 0x40]
    else [0xF0 + c / 0x4_0000, 0x80 + c / 0x1000 % 0x40, 0x80 + c / 0x40 % 0x40, 0x80 + c % 0x40]
  }

  function EncodeText(text: seq<Scalar>): seq<Byte> {
    if text == [] then [] else EncodeScalar(text[0]) + EncodeText(text[1..])
  }

  // The number in two, three and four bytes.
  function Two(a: int, b: int): int { (a - 0xC0) * 0x40 + (b - 0x80) }

  function Three(a: int, b: int, c: int): int { (a - 0xE0) * 0x1000 + (b - 0x80) * 0x40 + (c - 0x80) }

  function Four(a: int, b: int, c: int, d: int): int {
    (a - 0xF0) * 0x4_0000 + (b - 0x80) * 0x1000 + (c - 0x80) * 0x40 + (d - 0x80)
  }

  // The scalar value of the character that s starts with.
  function DecodeScalar(s: seq<Byte>): (c: Scalar)
    requires RuneLen(s) > 0
  {
    if s[0] < 0x80 then s[0]
    else if s[0] < 0xE0 then Two(s[0], s[1])
    else if s[0] < 0xF0 then Three(s[0], s[1], s[2])
    else Four(s[0], s[1], s[2], s[3])
  }

  lemma SixBits(high: int, b: int)
    requires 0x80 <= b <= 0xBF
    ensures (high * 0x40 + (b - 0x80)) / 0x40 == high && (high * 0x40 + (b - 0x80)) % 0x40 == b - 0x80
  {
  }

  lemma TwoBytes(a: int, b: int)
    requires 0xC2 <= a <= 0xDF && 0x80 <= b <= 0xBF
    ensures 0x80 <= Two(a, b) < 0x800 && EncodeScalar(Two(a, b)) == [a, b]
  {
    SixBits(a - 0xC0, b);
  }

  lemma ThreeBytes(a: int, b: int, c: int)
    requires 0xE0 <= a <= 0xEF && 0x80 <= b <= 0xBF && 0x80 <= c <= 0xBF
    requires (a == 0xE0 ==> b >= 0xA0) && (a == 0xED ==> b <= 0x9F)
    ensures 0x800 <= Three(a, b, c) < 0x1_0000 && !(0xD800 <= Three(a, b, c) < 0xE000)
    ensures EncodeScalar(Three(a, b, c)) == [a, b, c]
  {
    var n := Three(a, b, c);
    var high := (a - 0xE0) * 0x40 + (b - 0x80);
    assert n == high * 0x40 + (c - 0x80);
    SixBits(high, c);
    SixBits(a - 0xE0, b);
    assert n / 0x1000 == n / 0x40 / 0x40;
  }

  lemma FourBytes(a: int, b: int, c: int, d: int)
    requires 0xF0 <= a <= 0xF4 && 0x80 <= b <= 0xBF && 0x80 <= c <= 0xBF && 0x80 <= d <= 0xBF
    requires (a == 0xF0 ==> b >= 0x90) && (a == 0xF4 ==> b <= 0x8F)
    ensures 0x1_0000 <= Four(a, b, c, d) <= 0x10FFFF && EncodeScalar(Four(a, b, c, d)) == [a, b, c, d]
  {
    var n := Four(a, b, c, d);
    var top := (a - 0xF0) * 0x40 + (b - 0x80);
    var high := top * 0x40 + (c - 0x80);
    assert n == high * 0x40 + (d - 0x80);
    SixBits(high, d);
    SixBits(top, c);
    SixBits(a - 0xF0, b);
    assert n / 0x1000 == n / 0x40 / 0x40 && n / 0x4_0000 == n / 0x1000 / 0x40;
  }

  // What is taken for a character is one, ...
  lemma EncodeDecoded(s: seq<Byte>)
    requires RuneLen(s) > 0
    ensures s[..RuneLen(s)] == EncodeScalar(DecodeScalar(s))
  {
    hide EncodeScalar, Two, Three, Four;
    if s[0] < 0x80 {
      OneByte(s[0]);
    } else if s[0] < 0xE0 {
      TwoBytes(s[0], s[1]);
    } else if s[0] < 0xF0 {
      ThreeBytes(s[0], s[1], s[2]);
    } else {
      FourBytes(s[0], s[1], s[2], s[3]);
    }
  }

  lemma OneByte(a: int)
    requires 0 <= a < 0x80
    ensures EncodeScalar(a) == [a]
  {
  }

  // ... and every character is taken for itself, whatever follows it.
  lemma EncodedIsRune(c: Scalar, rest: seq<Byte>)
    ensures RuneLen(EncodeScalar(c) + rest) == |EncodeScalar(c)|
  {
  }

  function DecodeText(s: seq<Byte>): seq<Scalar>
    requires ValidString(s)
    decreases |s|
  {
    if s == [] then [] else [DecodeScalar(s)] + DecodeText(s[RuneLen(s)..])
  }

  lemma {:induction false} EncodeDecodedText(s: seq<Byte>)
    requires ValidString(s)
    ensures EncodeText(DecodeText(s)) == s
    decreases |s|
  {
    hide RuneLen, DecodeScalar, EncodeScalar;
    if s != [] {
      EncodeDecoded(s);
      EncodeDecodedText(s[RuneLen(s)..]);
      assert s == s[..RuneLen(s)] + s[RuneLen(s)..];
    }
  }

  lemma {:induction false} EncodedIsValid(text: seq<Scalar>)
    ensures ValidString(EncodeText(text))
  {
    hide RuneLen, EncodeScalar;
    if text != [] {
      var rest := EncodeText(text[1..]);
      EncodedIsRune(text[0], rest);
      EncodedIsValid(text[1..]);
      assert (EncodeScalar(text[0]) + rest)[|EncodeScalar(text[0])|..] == rest;
    }
  }

  // The valid strings are exactly the encodings of texts.
  lemma ValidIsEncoded(s: seq<Byte>)
    ensures ValidString(s) <==> exists text :: s == EncodeText(text)
  {
    hide ValidString, EncodeText;
    if ValidString(s) {
      EncodeDecodedText(s);
    }
    if text :| s == EncodeText(text) {
      EncodedIsValid(text);
    }
  }

  lemma {:induction false} EncodeConcat(a: seq<Scalar>, b: seq<Scalar>)
    ensures EncodeText(a + b) == EncodeText(a) + EncodeText(b)
  {
    hide EncodeScalar;
    if a == [] {
      assert a + b == b;
    } else {
      EncodeConcat(a[1..], b);
      assert (a + b)[1..] == a[1..] + b;
    }
  }
  lemma {:induction false} AfterText(text: seq<Scalar>, rest: seq<Byte>)
    ensures ValidString(EncodeText(text) + rest) == ValidString(rest)
  {
    hide RuneLen, EncodeScalar;
    if text == [] {
      assert EncodeText(text) + rest == rest;
    } else {
      var more := EncodeText(text[1..]) + rest;
      assert EncodeText(text) + rest == EncodeScalar(text[0]) + more;
      EncodedIsRune(text[0], more);
      assert (EncodeScalar(text[0]) + more)[|EncodeScalar(text[0])|..] == more;
      AfterText(text[1..], rest);
    }
  }

  // No valid prefix ends inside a character.
  lemma InsideCharacter(text: seq<Scalar>, k: nat, n: nat)
    requires k < |text| && |EncodeText(text[..k])| < n < |EncodeText(text[..k + 1])|
    ensures n <= |EncodeText(text)| && !ValidString(EncodeText(text)[..n])
  {
    hide RuneLen, EncodeScalar;
    var before, c := EncodeText(text[..k]), EncodeScalar(text[k]);
    var after := EncodeText(text[k + 1..]);
    assert text == text[..k] + text[k..] && text[k..][1..] == text[k + 1..] && text[..k + 1] == text[..k] + [text[k]];
    EncodeConcat(text[..k], text[k..]);
    EncodeConcat(text[..k], [text[k]]);
    assert EncodeText([text[k]]) == c + EncodeText([]);
    var m := n - |before|;
    assert EncodeText(text)[..n] == before + (c + after)[..m];
    AfterText(text[..k], (c + after)[..m]);
    EncodedIsRune(text[k], after);
    RuneOfPrefix(c + after, m);
  }

  // How many characters of the text fit in n bytes.
  function Fit(text: seq<Scalar>, n: nat): (k: nat)
    ensures k <= |text| && |EncodeText(text[..k])| <= n
    ensures k < |text| ==> n < |EncodeText(text[..k + 1])|
  {
    if text == [] || |EncodeScalar(text[0])| > n then
      assert text != [] ==> text[..1][1..] == [];
      0
    else
      var k := 1 + Fit(text[1..], n - |EncodeScalar(text[0])|);
      assert text[..k][1..] == text[1..][..k - 1] && (k < |text| ==> text[..k + 1][1..] == text[1..][..k]);
      k
  }

  // The longest valid prefix within a limit is as many whole characters of the text as fit.
  lemma TruncatedText(text: seq<Scalar>, maxBytes: nat, field: seq<Byte>)
    requires maxBytes < |EncodeText(text)|
    requires field <= EncodeText(text) && |field| <= maxBytes && ValidString(field)
    requires forall k :: |field| < k <= maxBytes ==> !ValidString(EncodeText(text)[..k])
    ensures field == EncodeText(text[..Fit(text, maxBytes)])
  {
    hide EncodeText, ValidString, Fit;
    var k := Fit(text, maxBytes);
    assert text[..|text|] == text;
    var kept := EncodeText(text[..k]);
    assert text == text[..k] + text[k..];
    EncodeConcat(text[..k], text[k..]);
    EncodedIsValid(text[..k]);
    assert EncodeText(text)[..|kept|] == kept;
    assert EncodeText(text)[..|field|] == field;
    if |field| > |kept| {
      InsideCharacter(text, k, |field|);
    }
  }
}
