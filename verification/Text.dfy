// Splitting a string at a separator and joining it again.
module Text {

  // strings.Split and str.split with a separator of one character.
  function Split(text: string, sep: char): (parts: seq<string>)
    ensures parts != []
    ensures forall i :: 0 <= i < |parts| ==> sep !in parts[i]
  {
    if text == "" then [""]
    else
      var rest := Split(text[1..], sep);
      if text[0] == sep then [""] + rest else [[text[0]] + rest[0]] + rest[1..]
  }

  function Join(parts: seq<string>, sep: char): string {
    if parts == [] then "" else if |parts| == 1 then parts[0] else parts[0] + [sep] + Join(parts[1..], sep)
  }

  lemma {:induction false} JoinSplit(text: string, sep: char)
    ensures Join(Split(text, sep), sep) == text
  {
    if text != "" {
      var rest := Split(text[1..], sep);
      JoinSplit(text[1..], sep);
      if text[0] == sep {
        assert ([""] + rest)[1..] == rest;
        assert text == "" + [sep] + text[1..];
      } else {
        var parts := [[text[0]] + rest[0]] + rest[1..];
        assert |rest| > 1 ==> parts[1..] == rest[1..];
        assert text == [text[0]] + text[1..];
      }
    }
  }

  lemma {:induction false} SplitFirst(part: string, text: string, sep: char)
    requires sep !in part
    ensures Split(part + [sep] + text, sep) == [part] + Split(text, sep)
    ensures Split(part, sep) == [part]
  {
    if part == "" {
      assert part + [sep] + text == [sep] + text;
      assert ([sep] + text)[1..] == text;
    } else {
      assert (part + [sep] + text)[1..] == part[1..] + [sep] + text;
      SplitFirst(part[1..], text, sep);
      assert part == [part[0]] + part[1..];
    }
  }

  lemma {:induction false} SplitJoin(parts: seq<string>, sep: char)
    requires parts != [] && forall i :: 0 <= i < |parts| ==> sep !in parts[i]
    ensures Split(Join(parts, sep), sep) == parts
  {
    SplitFirst(parts[0], Join(parts[1..], sep), sep);
    if |parts| > 1 {
      SplitJoin(parts[1..], sep);
    }
  }
}
