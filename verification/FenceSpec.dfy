// Labelling bare Markdown fences: the line patterns of fix-md-fences.py, a one-pass state
// machine that says which lines get a label, and what a second pass finds.
module FenceSpec {
  import opened Text

  datatype Marker = Backticks | Tildes {
    function Fence(): (s: string)
      ensures |s| == 3
    {
      if Backticks? then "```" else "~~~"
    }
  }

  // What \s matches in a Python str pattern.
  predicate IsSpace(c: char) {
    || '\t' <= c <= '\r' || '\U{1c}' <= c <= ' ' || c == '\U{85}' || c == '\U{a0}' || c == '\U{1680}'
    || '\U{2000}' <= c <= '\U{200a}' || c == '\U{2028}' || c == '\U{2029}' || c == '\U{202f}'
    || c == '\U{205f}' || c == '\U{3000}'
  }

  predicate AllSpace(s: string) { forall i :: 0 <= i < |s| ==> IsSpace(s[i]) }

  // [a-zA-Z0-9_+.-]
  predicate IsLabelChar(c: char) {
    'a' <= c <= 'z' || 'A' <= c <= 'Z' || '0' <= c <= '9' || c == '_' || c == '+' || c == '.' || c == '-'
  }

  predicate IsLabel(s: string) { s != "" && forall i :: 0 <= i < |s| ==> IsLabelChar(s[i]) }

  type Label = s: string | IsLabel(s) witness "text"

  // ----- the patterns -----

  // ^(\s*)(```|~~~)\s*$
  ghost predicate BareFence(line: string, indent: string, marker: Marker) {
    exists trail :: AllSpace(indent) && AllSpace(trail) && line == indent + marker.Fence() + trail
  }

  // ^(\s*)(```|~~~)[a-zA-Z0-9_+.-]+\s*$
  ghost predicate LabeledFence(line: string, marker: Marker) {
    exists indent, lang, trail ::
      AllSpace(indent) && IsLabel(lang) && AllSpace(trail) && line == indent + marker.Fence() + lang + trail
  }

  datatype Line = Plain | Bare(indent: string, marker: Marker) | Labeled(marker: Marker)

  // How many characters at the front of s are spaces.
  function Spaces(s: string): (n: nat)
    ensures n <= |s| && AllSpace(s[..n]) && (n < |s| ==> !IsSpace(s[n]))
  {
    if s == "" || !IsSpace(s[0]) then 0
    else
      var n := 1 + Spaces(s[1..]);
      assert forall i :: 1 <= i < n ==> s[..n][i] == s[1..][..n - 1][i - 1];
      n
  }

  function LabelChars(s: string): (n: nat)
    ensures n <= |s| && (forall i :: 0 <= i < n ==> IsLabelChar(s[i])) && (n < |s| ==> !IsLabelChar(s[n]))
  {
    if s == "" || !IsLabelChar(s[0]) then 0
    else
      var n := 1 + LabelChars(s[1..]);
      assert forall i :: 1 <= i < n ==> s[i] == s[1..][i - 1];
      n
  }

  function ScanTail(indent: string, marker: Marker, tail: string): Line {
    var k := LabelChars(tail);
    if AllSpace(tail) then Bare(indent, marker)
    else if k > 0 && AllSpace(tail[k..]) then Labeled(marker)
    else Plain
  }

  datatype Found = Nothing | Found(marker: Marker)

  function MarkerOf(rest: string): (f: Found)
    ensures f.Found? ==> |rest| >= 3 && rest == f.marker.Fence() + rest[3..]
  {
    if Backticks.Fence() <= rest then Found(Backticks)
    else if Tildes.Fence() <= rest then Found(Tildes)
    else Nothing
  }

  // Which pattern a line matches.
  function Scan(line: string): Line {
    var n := Spaces(line);
    match MarkerOf(line[n..])
    case Nothing => Plain
    case Found(marker) => ScanTail(line[..n], marker, line[n..][3..])
  }

  lemma {:induction false} SpacesOf(indent: string, rest: string)
    requires AllSpace(indent) && rest != "" && !IsSpace(rest[0])
    ensures Spaces(indent + rest) == |indent|
  {
    if indent == "" {
      assert indent + rest == rest;
    } else {
      assert (indent + rest)[1..] == indent[1..] + rest;
      SpacesOf(indent[1..], rest);
    }
  }

  lemma {:induction false} LabelCharsOf(lang: string, trail: string)
    requires (forall i :: 0 <= i < |lang| ==> IsLabelChar(lang[i])) && AllSpace(trail)
    ensures LabelChars(lang + trail) == |lang|
  {
    if lang == "" {
      assert lang + trail == trail;
    } else {
      assert (lang + trail)[1..] == lang[1..] + trail;
      LabelCharsOf(lang[1..], trail);
    }
  }

  lemma MarkerFound(marker: Marker, tail: string)
    ensures MarkerOf(marker.Fence() + tail) == Found(marker) && !IsSpace((marker.Fence() + tail)[0])
  {
  }

  lemma ScanOf(indent: string, marker: Marker, tail: string)
    requires AllSpace(indent)
    ensures Scan(indent + marker.Fence() + tail) == ScanTail(indent, marker, tail)
  {
    MarkerFound(marker, tail);
    hide IsSpace, MarkerOf, ScanTail;
    var line := indent + marker.Fence() + tail;
    assert line == indent + (marker.Fence() + tail);
    SpacesOf(indent, marker.Fence() + tail);
    assert line[|indent|..] == marker.Fence() + tail && line[..|indent|] == indent;
    assert (marker.Fence() + tail)[3..] == tail;
  }

  lemma ScanSplits(line: string)
    requires !Scan(line).Plain?
    ensures var n := Spaces(line);
            && n + 3 <= |line| && AllSpace(line[..n])
            && line == line[..n] + Scan(line).marker.Fence() + line[n + 3..]
            && Scan(line) == ScanTail(line[..n], Scan(line).marker, line[n + 3..])
  {
    hide IsSpace, AllSpace, ScanTail, MarkerOf, Marker.Fence;
    var n := Spaces(line);
    var marker := MarkerOf(line[n..]).marker;
    var tail := line[n..][3..];
    assert tail == line[n + 3..];
    ScanTailMarker(line[..n], marker, tail);
    Rejoin(line, n, marker.Fence(), tail);
  }

  lemma Rejoin(line: string, n: nat, text: string, tail: string)
    requires n <= |line| && line[n..] == text + tail
    ensures line == line[..n] + text + tail
  {
  }

  lemma ScanTailMarker(indent: string, marker: Marker, tail: string)
    ensures ScanTail(indent, marker, tail).Plain? || ScanTail(indent, marker, tail).marker == marker
  {
  }

  lemma TailIsFence(indent: string, marker: Marker, tail: string)
    requires AllSpace(indent)
    ensures var line := indent + marker.Fence() + tail;
            match ScanTail(indent, marker, tail)
            case Plain => true
            case Bare(i, m) => BareFence(line, i, m)
            case Labeled(m) => LabeledFence(line, m)
  {
    hide IsSpace, AllSpace, IsLabelChar, Marker.Fence;
    if ScanTail(indent, marker, tail).Labeled? {
      var lang, trail := tail[..LabelChars(tail)], tail[LabelChars(tail)..];
      assert IsLabel(lang);
      assert tail == lang + trail;
      assert indent + marker.Fence() + tail == indent + marker.Fence() + lang + trail;
    }
  }

  lemma ScannedLine(line: string)
    ensures match Scan(line)
            case Plain => true
            case Bare(indent, marker) => BareFence(line, indent, marker)
            case Labeled(marker) => LabeledFence(line, marker)
  {
    if !Scan(line).Plain? {
      ScanSplits(line);
      var n := Spaces(line);
      TailIsFence(line[..n], Scan(line).marker, line[n + 3..]);
      hide *;
    }
  }

  lemma BareScans(line: string, indent: string, marker: Marker)
    requires BareFence(line, indent, marker)
    ensures Scan(line) == Bare(indent, marker)
  {
    hide IsSpace, IsLabelChar, Scan;
    var trail :| AllSpace(indent) && AllSpace(trail) && line == indent + marker.Fence() + trail;
    ScanOf(indent, marker, trail);
  }

  lemma LabeledScans(line: string, marker: Marker)
    requires LabeledFence(line, marker)
    ensures Scan(line) == Labeled(marker)
  {
    var indent, lang, trail :|
      AllSpace(indent) && IsLabel(lang) && AllSpace(trail) && line == indent + marker.Fence() + lang + trail;
    assert (lang + trail)[0] == lang[0] && !IsSpace(lang[0]);
    hide IsSpace, IsLabelChar, Scan;
    assert line == indent + marker.Fence() + (lang + trail);
    ScanOf(indent, marker, lang + trail);
    LabelCharsOf(lang, trail);
    assert (lang + trail)[|lang|..] == trail;
  }

  // Scan decides the two patterns, with the one possible indent and marker.
  lemma ScanIsThePatterns(line: string, indent: string, marker: Marker)
    ensures Scan(line) == Bare(indent, marker) <==> BareFence(line, indent, marker)
    ensures Scan(line) == Labeled(marker) <==> LabeledFence(line, marker)
  {
    hide Scan, BareFence, LabeledFence;
    ScannedLine(line);
    if BareFence(line, indent, marker) {
      BareScans(line, indent, marker);
    }
    if LabeledFence(line, marker) {
      LabeledScans(line, marker);
    }
  }

  // ----- the state machine -----

  datatype Mode = Outside | Inside(marker: Marker)

  // A bare fence with the marker of the block ends it, whatever its indent.
  predicate Closes(line: string, marker: Marker) {
    Scan(line).Bare? && Scan(line).marker == marker
  }

  function Step(mode: Mode, line: string): Mode {
    match mode
    case Outside => if Scan(line).Plain? then Outside else Inside(Scan(line).marker)
    case Inside(marker) => if Closes(line, marker) then Outside else mode
  }

  // The mode in which line i is met.
  function ModeAt(lines: seq<string>, i: nat): Mode
    requires i <= |lines|
  {
    if i == 0 then Outside else Step(ModeAt(lines, i - 1), lines[i - 1])
  }

  // Line i opens a block without a label.
  predicate Unlabeled(lines: seq<string>, i: nat)
    requires i < |lines|
  {
    ModeAt(lines, i).Outside? && Scan(lines[i]).Bare?
  }

  // The lines from i to the end of the block.
  function Body(lines: seq<string>, i: nat, marker: Marker): seq<string>
    requires i <= |lines|
    decreases |lines| - i
  {
    if i == |lines| || Closes(lines[i], marker) then [] else [lines[i]] + Body(lines, i + 1, marker)
  }

  function LabelAt(lines: seq<string>, i: nat, classify: string -> Label): Label
    requires i < |lines| && Unlabeled(lines, i)
  {
    classify(Join(Body(lines, i + 1, Scan(lines[i]).marker), '\n'))
  }

  // Line i after the pass.
  function FixedLine(lines: seq<string>, i: nat, classify: string -> Label): string
    requires i < |lines|
  {
    if Unlabeled(lines, i)
    then Scan(lines[i]).indent + Scan(lines[i]).marker.Fence() + LabelAt(lines, i, classify)
    else lines[i]
  }

  // The first n lines after the pass.
  function Fixed(lines: seq<string>, n: nat, classify: string -> Label): (r: seq<string>)
    requires n <= |lines|
    ensures |r| == n
    ensures forall i :: 0 <= i < n ==> r[i] == FixedLine(lines, i, classify)
  {
    if n == 0 then [] else Fixed(lines, n - 1, classify) + [FixedLine(lines, n - 1, classify)]
  }

  // The changes reported for the first n lines: line number from 1, and label.
  function Changes(lines: seq<string>, n: nat, classify: string -> Label): seq<(int, Label)>
    requires n <= |lines|
  {
    if n == 0 then []
    else Changes(lines, n - 1, classify)
         + if Unlabeled(lines, n - 1) then [(n, LabelAt(lines, n - 1, classify))] else []
  }

  function Lines(text: string): seq<string> { Split(text, '\n') }

  // What the file is rewritten to, and what is reported.
  function FixText(text: string, classify: string -> Label): string {
    Join(Fixed(Lines(text), |Lines(text)|, classify), '\n')
  }

  function Report(text: string, classify: string -> Label): seq<(int, Label)> {
    Changes(Lines(text), |Lines(text)|, classify)
  }

  // ----- a second pass -----

  lemma FixedScan(lines: seq<string>, i: nat, classify: string -> Label)
    requires i < |lines| && Unlabeled(lines, i)
    ensures Scan(FixedLine(lines, i, classify)) == Labeled(Scan(lines[i]).marker)
  {
    var Bare(indent, marker) := Scan(lines[i]);
    var lang := LabelAt(lines, i, classify);
    assert FixedLine(lines, i, classify) == indent + marker.Fence() + lang + "";
    ScannedLine(lines[i]);
    hide Scan, FixedLine, ModeAt, Body, IsSpace, IsLabelChar, Marker.Fence;
    assert AllSpace("") && IsLabel(lang);
    LabeledScans(indent + marker.Fence() + lang + "", marker);
  }

  // A label brings no line break with it.
  lemma FixedIsOneLine(lines: seq<string>, i: nat, classify: string -> Label)
    requires i < |lines| && Unlabeled(lines, i) && '\n' !in lines[i]
    ensures '\n' !in FixedLine(lines, i, classify)
  {
    var Bare(indent, marker) := Scan(lines[i]);
    ScannedLine(lines[i]);
    var trail :| AllSpace(indent) && AllSpace(trail) && lines[i] == indent + marker.Fence() + trail;
    hide Scan, Body, ModeAt, AllSpace, ScanTail;
    assert forall k :: 0 <= k < |indent| ==> indent[k] == lines[i][k];
    assert '\n' !in indent && '\n' !in LabelAt(lines, i, classify) && '\n' !in marker.Fence();
  }

  lemma SameStep(lines: seq<string>, i: nat, classify: string -> Label)
    requires i < |lines|
    ensures Step(ModeAt(lines, i), FixedLine(lines, i, classify)) == Step(ModeAt(lines, i), lines[i])
  {
    hide Scan, LabelAt;
    if Unlabeled(lines, i) {
      FixedScan(lines, i, classify);
    }
  }

  // Labels do not change which lines are inside a block.
  lemma {:induction false} SameModes(lines: seq<string>, i: nat, classify: string -> Label)
    requires i <= |lines|
    ensures ModeAt(Fixed(lines, |lines|, classify), i) == ModeAt(lines, i)
  {
    hide Step, FixedLine;
    if i > 0 {
      SameModes(lines, i - 1, classify);
      SameStep(lines, i - 1, classify);
    }
  }

  lemma NothingLeft(lines: seq<string>, i: nat, classify: string -> Label)
    requires i < |lines|
    ensures !Unlabeled(Fixed(lines, |lines|, classify), i)
  {
    SameModes(lines, i, classify);
    if Unlabeled(lines, i) {
      FixedScan(lines, i, classify);
    }
  }

  lemma {:induction false} NothingToDo(lines: seq<string>, n: nat, classify: string -> Label)
    requires n <= |lines| && forall i :: 0 <= i < n ==> !Unlabeled(lines, i)
    ensures Fixed(lines, n, classify) == lines[..n] && Changes(lines, n, classify) == []
  {
    hide Unlabeled, LabelAt;
    if n > 0 {
      NothingToDo(lines, n - 1, classify);
      assert lines[..n] == lines[..n - 1] + [lines[n - 1]];
    }
  }

  lemma SplitOfFixed(text: string, classify: string -> Label)
    ensures Lines(FixText(text, classify)) == Fixed(Lines(text), |Lines(text)|, classify)
  {
    var lines := Lines(text);
    var fixed := Fixed(lines, |lines|, classify);
    forall i | 0 <= i < |fixed| ensures '\n' !in fixed[i] {
      if Unlabeled(lines, i) {
        FixedIsOneLine(lines, i, classify);
      }
    }
    SplitJoin(fixed, '\n');
  }

  // Running the pass on its own output changes nothing and reports nothing, for every text
  // and every classifier, also a different one the second time.
  lemma Idempotent(text: string, classify: string -> Label, again: string -> Label)
    ensures var once := FixText(text, classify);
            FixText(once, again) == once && Report(once, again) == []
  {
    var lines := Lines(text);
    var fixed := Fixed(lines, |lines|, classify);
    SplitOfFixed(text, classify);
    forall i | 0 <= i < |fixed| ensures !Unlabeled(fixed, i) {
      NothingLeft(lines, i, classify);
    }
    NothingToDo(fixed, |fixed|, again);
    assert fixed[..|fixed|] == fixed;
  }

  // ----- what one pass changes -----

  lemma RewrittenDiffers(lines: seq<string>, i: nat, classify: string -> Label)
    requires i < |lines|
    ensures FixedLine(lines, i, classify) != lines[i] <==> Unlabeled(lines, i)
  {
    if Unlabeled(lines, i) {
      FixedScan(lines, i, classify);
    }
  }

  lemma {:induction false} ReportedLines(lines: seq<string>, n: nat, classify: string -> Label, number: int, lang: Label)
    requires n <= |lines|
    ensures (number, lang) in Changes(lines, n, classify)
            <==> 1 <= number <= n && Unlabeled(lines, number - 1) && lang == LabelAt(lines, number - 1, classify)
  {
    hide Unlabeled, LabelAt;
    if n > 0 {
      ReportedLines(lines, n - 1, classify, number, lang);
      var last := if Unlabeled(lines, n - 1) then [(n, LabelAt(lines, n - 1, classify))] else [];
      assert (number, lang) in Changes(lines, n, classify) <==> (number, lang) in Changes(lines, n - 1, classify) || (number, lang) in last;
    }
  }

  predicate Reported(changes: seq<(int, Label)>, number: int) {
    exists k :: 0 <= k < |changes| && changes[k].0 == number
  }

  lemma ReportedLine(lines: seq<string>, i: nat, classify: string -> Label)
    requires i < |lines|
    ensures Reported(Changes(lines, |lines|, classify), i + 1) <==> Unlabeled(lines, i)
  {
    hide Unlabeled, LabelAt;
    var changes := Changes(lines, |lines|, classify);
    if Unlabeled(lines, i) {
      var change := (i + 1, LabelAt(lines, i, classify));
      ReportedLines(lines, |lines|, classify, change.0, change.1);
      var k :| 0 <= k < |changes| && changes[k] == change;
    }
    if k :| 0 <= k < |changes| && changes[k].0 == i + 1 {
      ReportedLines(lines, |lines|, classify, i + 1, changes[k].1);
      assert (i + 1, changes[k].1) == changes[k];
    }
  }

  // A line changes exactly when it is a bare fence met outside a block, and exactly the
  // lines that change are reported; every other line stays verbatim.
  lemma OnlyOpenersChange(lines: seq<string>, i: nat, classify: string -> Label)
    requires i < |lines|
    ensures var fixed := Fixed(lines, |lines|, classify);
            && |fixed| == |lines|
            && (fixed[i] != lines[i] <==> ModeAt(lines, i).Outside? && exists indent, marker :: BareFence(lines[i], indent, marker))
            && (fixed[i] != lines[i] <==> Reported(Changes(lines, |lines|, classify), i + 1))
  {
    hide Scan, BareFence, FixedLine, Changes, Reported, ModeAt;
    RewrittenDiffers(lines, i, classify);
    ReportedLine(lines, i, classify);
    ScannedLine(lines[i]);
    if indent, marker :| BareFence(lines[i], indent, marker) {
      ScanIsThePatterns(lines[i], indent, marker);
    }
  }

  // A fence that closes a block is never given a label.
  lemma ClosersStay(lines: seq<string>, i: nat, classify: string -> Label)
    requires i < |lines| && ModeAt(lines, i).Inside? && ModeAt(lines, i + 1).Outside?
    ensures Fixed(lines, |lines|, classify)[i] == lines[i] && Scan(lines[i]) == Bare(Scan(lines[i]).indent, ModeAt(lines, i).marker)
  {
  }
}
