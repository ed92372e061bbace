// fix_file: nested loops that look ahead for the end of each block.
module Fences {
  import opened Text
  import opened FenceSpec

  // Copies the rest of a block that opened before line i, with its closing fence.
  method CopyBlock(lines: seq<string>, i: nat, marker: Marker, out: seq<string>, ghost classify: string -> Label)
    returns (copied: seq<string>, next: nat)
    requires i <= |lines| && ModeAt(lines, i) == Inside(marker)
    requires out == Fixed(lines, i, classify)
    ensures i <= next <= |lines| && (next < |lines| ==> ModeAt(lines, next) == Outside)
    ensures copied == Fixed(lines, next, classify) && Changes(lines, next, classify) == Changes(lines, i, classify)
  {
    hide Closes, Fixed, Changes;
    copied, next := out, i;
    while next < |lines|
      invariant i <= next <= |lines| && ModeAt(lines, next) == Inside(marker)
      invariant copied == Fixed(lines, next, classify) && Changes(lines, next, classify) == Changes(lines, i, classify)
    {
      InsideLine(lines, next, classify);
      copied := copied + [lines[next]];
      if Closes(lines[next], marker) {
        next := next + 1;
        break;
      }
      next := next + 1;
    }
  }

  // Looks ahead from line i for the end of the block, collecting its body.
  method ScanAhead(lines: seq<string>, i: nat, marker: Marker, ghost classify: string -> Label)
    returns (body: seq<string>, j: nat)
    requires i <= |lines| && ModeAt(lines, i) == Inside(marker)
    ensures i <= j <= |lines| && ModeAt(lines, j) == Inside(marker)
    ensures j < |lines| ==> Closes(lines[j], marker)
    ensures body == Body(lines, i, marker)
    ensures Fixed(lines, j, classify) == Fixed(lines, i, classify) + body
    ensures Changes(lines, j, classify) == Changes(lines, i, classify)
  {
    hide Closes, Fixed, Changes;
    j := i;
    body := [];
    while j < |lines| && !Closes(lines[j], marker)
      invariant i <= j <= |lines| && ModeAt(lines, j) == Inside(marker)
      invariant Body(lines, i, marker) == body + Body(lines, j, marker)
      invariant Fixed(lines, j, classify) == Fixed(lines, i, classify) + body
      invariant Changes(lines, j, classify) == Changes(lines, i, classify)
    {
      InsideLine(lines, j, classify);
      body := body + [lines[j]];
      j := j + 1;
    }
  }

  // Labels the block that line i opens and copies it to its end.
  method LabelBlock(
      lines: seq<string>, i: nat, indent: string, marker: Marker,
      out: seq<string>, changes: seq<(int, Label)>, classify: string -> Label)
    returns (labelled: seq<string>, reported: seq<(int, Label)>, next: nat)
    requires i < |lines| && ModeAt(lines, i) == Outside && Scan(lines[i]) == Bare(indent, marker)
    requires out == Fixed(lines, i, classify) && changes == Changes(lines, i, classify)
    ensures i < next <= |lines| && (next < |lines| ==> ModeAt(lines, next) == Outside)
    ensures labelled == Fixed(lines, next, classify) && reported == Changes(lines, next, classify)
  {
    hide Scan, Unlabeled, Join, ModeAt, Closes, Body;
    OutsideLine(lines, i);
    var body, j := ScanAhead(lines, i + 1, marker, classify);
    var lang := classify(Join(body, '\n'));
    labelled := out + [indent + marker.Fence() + lang];
    reported := changes + [(i + 1, lang)];
    labelled := labelled + body;
    if j < |lines| {
      InsideLine(lines, j, classify);
      labelled := labelled + [lines[j]];
      next := j + 1;
    } else {
      // The block is never closed.
      next := j;
    }
  }

  // Labels the bare fences of a text. Yields what is written back, if anything is.
  method FixFile(text: string, classify: string -> Label, dryRun: bool)
    returns (written: seq<string>, changes: seq<(int, Label)>)
    ensures changes == Report(text, classify)
    ensures written == if FixText(text, classify) != text && !dryRun then [FixText(text, classify)] else []
  {
    hide Scan, Unlabeled, Lines, Join, ModeAt, LabelAt;
    var lines := Lines(text);
    var out: seq<string> := [];
    changes := [];
    var i := 0;
    StartsOutside(lines);
    while i < |lines|
      invariant 0 <= i <= |lines|
      invariant i < |lines| ==> ModeAt(lines, i) == Outside
      invariant out == Fixed(lines, i, classify) && changes == Changes(lines, i, classify)
    {
      var line := lines[i];
      OutsideLine(lines, i);
      match Scan(line) {
        case Labeled(marker) =>
          out := out + [line];
          out, i := CopyBlock(lines, i + 1, marker, out, classify);
        case Bare(indent, marker) =>
          out, changes, i := LabelBlock(lines, i, indent, marker, out, changes, classify);
        case Plain =>
          out := out + [line];
          i := i + 1;
      }
    }
    var newText := Join(out, '\n');
    written := if newText != text && !dryRun then [newText] else [];
  }

  lemma StartsOutside(lines: seq<string>)
    ensures ModeAt(lines, 0) == Outside
  {
  }

  lemma OutsideLine(lines: seq<string>, i: nat)
    requires i < |lines| && ModeAt(lines, i) == Outside
    ensures Unlabeled(lines, i) <==> Scan(lines[i]).Bare?
    ensures ModeAt(lines, i + 1) == if Scan(lines[i]).Plain? then Outside else Inside(Scan(lines[i]).marker)
  {
  }

  lemma InsideLine(lines: seq<string>, i: nat, classify: string -> Label)
    requires i < |lines| && ModeAt(lines, i).Inside?
    ensures ModeAt(lines, i + 1) == if Closes(lines[i], ModeAt(lines, i).marker) then Outside else ModeAt(lines, i)
    ensures Fixed(lines, i + 1, classify) == Fixed(lines, i, classify) + [lines[i]]
    ensures Changes(lines, i + 1, classify) == Changes(lines, i, classify)
  {
  }
}
