// The state machine said on the patterns alone: where blocks open and close, and what a
// block without a label becomes.
module FenceBlocks {
  import opened Text
  import opened FenceSpec

  // ^\s*(marker)\s*$
  ghost predicate ClosingFence(line: string, marker: Marker) {
    exists indent :: BareFence(line, indent, marker)
  }

  lemma ClosesIsThePattern(line: string, marker: Marker)
    ensures Closes(line, marker) <==> ClosingFence(line, marker)
  {
    hide Scan, BareFence;
    if Closes(line, marker) {
      ScanIsThePatterns(line, Scan(line).indent, marker);
    }
    if indent :| BareFence(line, indent, marker) {
      ScanIsThePatterns(line, indent, marker);
    }
  }

  // A block ends with the first bare fence of its own marker, whatever its indent.
  lemma BlockEnds(lines: seq<string>, i: nat, marker: Marker)
    requires i < |lines| && ModeAt(lines, i) == Inside(marker)
    ensures ModeAt(lines, i + 1) == Outside <==> ClosingFence(lines[i], marker)
    ensures ModeAt(lines, i + 1) == Outside || ModeAt(lines, i + 1) == Inside(marker)
  {
    ClosesIsThePattern(lines[i], marker);
    hide Closes, ClosingFence;
  }

  // Outside a block a bare or labelled fence opens one, and nothing else does.
  lemma BlockOpens(lines: seq<string>, i: nat, marker: Marker)
    requires i < |lines| && ModeAt(lines, i) == Outside
    ensures ModeAt(lines, i + 1) == Inside(marker) <==> ClosingFence(lines[i], marker) || LabeledFence(lines[i], marker)
  {
    ClosesIsThePattern(lines[i], marker);
    ScanIsThePatterns(lines[i], "", marker);
    hide Scan, ClosingFence, LabeledFence;
  }

  lemma {:induction false} BodyIs(lines: seq<string>, k: nat, j: nat, marker: Marker)
    requires k <= j <= |lines| && forall n :: k <= n < j ==> !Closes(lines[n], marker)
    requires j < |lines| ==> Closes(lines[j], marker)
    ensures Body(lines, k, marker) == lines[k..j]
    decreases j - k
  {
    hide Closes;
    if k < j {
      BodyIs(lines, k + 1, j, marker);
    }
  }

  lemma {:induction false} StaysInside(lines: seq<string>, k: nat, j: nat, marker: Marker)
    requires k <= j <= |lines| && ModeAt(lines, k) == Inside(marker)
    requires forall n :: k <= n < j ==> !Closes(lines[n], marker)
    ensures ModeAt(lines, j) == Inside(marker)
    decreases j - k
  {
    hide Closes, Scan;
    if k < j {
      StaysInside(lines, k, j - 1, marker);
    }
  }

  // A bare fence at line i outside a block, and the first later line j, if there is one, that
  // closes it: line i keeps indent and marker and gets the label of the lines between, the
  // change is reported, those lines and the closing fence stay, and the block is over.
  lemma BlockIsLabeled(lines: seq<string>, i: nat, j: nat, indent: string, marker: Marker, classify: string -> Label)
    requires i < j <= |lines| && ModeAt(lines, i) == Outside && BareFence(lines[i], indent, marker)
    requires forall k :: i < k < j ==> !ClosingFence(lines[k], marker)
    requires j < |lines| ==> ClosingFence(lines[j], marker)
    ensures var fixed := Fixed(lines, |lines|, classify);
            var lang := classify(Join(lines[i + 1..j], '\n'));
            && fixed[i] == indent + (if marker.Backticks? then "```" else "~~~") + lang
            && (i + 1, lang) in Changes(lines, |lines|, classify)
            && (forall k :: i < k <= j && k < |lines| ==> fixed[k] == lines[k])
            && (j < |lines| ==> ModeAt(lines, j + 1) == Outside)
  {
    hide Scan, BareFence, ClosingFence, Closes, ModeAt;
    ScanIsThePatterns(lines[i], indent, marker);
    forall k | i < k < |lines| ensures Closes(lines[k], marker) <==> ClosingFence(lines[k], marker) {
      ClosesIsThePattern(lines[k], marker);
    }
    Opened(lines, i, indent, marker);
    BodyIs(lines, i + 1, j, marker);
    var lang := classify(Join(lines[i + 1..j], '\n'));
    ReportedLines(lines, |lines|, classify, i + 1, lang);
    forall k | i < k <= j && k < |lines| ensures FixedLine(lines, k, classify) == lines[k] {
      StaysInside(lines, i + 1, k, marker);
    }
    StaysInside(lines, i + 1, j, marker);
    if j < |lines| {
      BlockEnds(lines, j, marker);
    }
  }

  lemma Opened(lines: seq<string>, i: nat, indent: string, marker: Marker)
    requires i < |lines| && ModeAt(lines, i) == Outside && Scan(lines[i]) == Bare(indent, marker)
    ensures Unlabeled(lines, i) && ModeAt(lines, i + 1) == Inside(marker)
  {
  }

  // The label characters: ASCII digits, capitals, small letters, and four signs.
  lemma LabelCharacters(c: char)
    ensures var n := c as int;
            IsLabelChar(c) <==> 0x30 <= n <= 0x39 || 0x41 <= n <= 0x5a || 0x61 <= n <= 0x7a || c in "_+.-"
  {
  }

  // What a str pattern takes for space: ten ASCII characters, and nineteen others.
  lemma SpaceCharacters(c: char)
    ensures c < '\U{80}' ==> (IsSpace(c) <==> c in "\t\n\U{0b}\U{0c}\r\U{1c}\U{1d}\U{1e}\U{1f} ")
    ensures c >= '\U{80}' ==> (IsSpace(c) <==>
              || c in "\U{85}\U{a0}\U{1680}\U{2028}\U{2029}\U{202f}\U{205f}\U{3000}"
              || c in "\U{2000}\U{2001}\U{2002}\U{2003}\U{2004}\U{2005}\U{2006}\U{2007}\U{2008}\U{2009}\U{200a}")
  {
  }
}
