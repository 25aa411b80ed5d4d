/**
 * Focus resolution on the projected cells: the DOM ordinal is mapped to a
 * cell, the context slice is cut around it, and the diagnostic focus label is
 * rendered with a preview of the focused cell's text.
 */
module Focus {
  import opened Wrappers
  import opened Sequences
  import opened Text
  import opened Cells

  /** How far (in unfiltered positions) a neighbour may be from the ordinal to stay in the slice. */
  const NeighborWindow: nat := 1

  /** The longest preview of the focused cell's text. */
  const PreviewLength: nat := 80

  /** The label when no ordinal was detected. */
  const UnknownLabel: string := "UNKNOWN (could not detect focused cell)"

  /**
   * What follows "Cell <ordinal>" when no projected cell sits at the
   * ordinal's position. It is one text in index.js:84; the two pieces keep
   * its characters visible to the proofs about labels, which a single long
   * literal would not.
   */
  const UnmappedSuffix: string := " (detected in DOM," + " but not mapped to notebook JSON)"

  /**
   * The active cell: with no ordinal, none; with ordinal `i`, the cell whose
   * unfiltered position is exactly `i`, or none when no projected cell has it.
   */
  function ActiveCell(cells: seq<LogicalCell>, ordinal: Option<nat>): (r: Option<LogicalCell>)
    ensures ordinal.None? ==> r.None?
    ensures ordinal.Some? ==> (r.Some? <==> exists c :: c in cells && c.cell == ordinal.value)
    ensures r.Some? ==> ordinal.Some? && r.value in cells && r.value.cell == ordinal.value
  {
    match ordinal
    case None => None
    case Some(i) => Find(cells, (c: LogicalCell) => c.cell == i)
  }

  /** Positions are distinct, so the active cell is the only cell at the ordinal's position. */
  lemma ActiveCellUnique(cells: seq<LogicalCell>, i: nat, c: LogicalCell)
    requires StrictlyIncreasing(cells)
    requires c in cells && c.cell == i
    ensures ActiveCell(cells, Some(i)) == Some(c)
  {
  }

  function Distance(a: int, b: int): nat {
    if a >= b then a - b else b - a
  }

  predicate Near(c: LogicalCell, i: nat) {
    Distance(c.cell, i) <= NeighborWindow
  }

  /**
   * The cells sent to the assistant: all of them when no ordinal was
   * detected, otherwise those whose unfiltered position is within
   * `NeighborWindow` of the ordinal (whether or not the ordinal was mapped).
   */
  function ContextSlice(cells: seq<LogicalCell>, ordinal: Option<nat>): (r: seq<LogicalCell>)
    ensures ordinal.None? ==> r == cells
    ensures ordinal.Some? ==> forall x :: x in r <==> x in cells && Near(x, ordinal.value)
    ensures |r| <= |cells|
  {
    match ordinal
    case None => cells
    case Some(i) => Filter(cells, (c: LogicalCell) => Near(c, i))
  }

  /** The slice keeps the order of the projection. */
  lemma SliceOrdered(cells: seq<LogicalCell>, ordinal: Option<nat>)
    requires StrictlyIncreasing(cells)
    ensures StrictlyIncreasing(ContextSlice(cells, ordinal))
  {
    if ordinal.Some? {
      var i := ordinal.value;
      FilterKeepsIncreasing(cells, (c: LogicalCell) => Near(c, i));
    }
  }

  /**
   * With an ordinal, the slice is exactly the order-preserving subsequence of
   * the cells near it: any increasing sequence of those cells is the slice.
   */
  lemma SliceIsNearSubsequence(cells: seq<LogicalCell>, i: nat, s: seq<LogicalCell>)
    requires StrictlyIncreasing(cells) && StrictlyIncreasing(s)
    requires forall x :: x in s <==> x in cells && Near(x, i)
    ensures ContextSlice(cells, Some(i)) == s
  {
    SliceOrdered(cells, Some(i));
    IncreasingDeterminedByElements(ContextSlice(cells, Some(i)), s);
  }

  /** With an ordinal, the slice holds at most `2 * NeighborWindow + 1` (three) cells. */
  lemma SliceBounded(cells: seq<LogicalCell>, i: nat)
    requires StrictlyIncreasing(cells)
    ensures |ContextSlice(cells, Some(i))| <= 2 * NeighborWindow + 1
  {
    SliceOrdered(cells, Some(i));
    IncreasingWithin(ContextSlice(cells, Some(i)), i - NeighborWindow, i + NeighborWindow);
  }

  /** In the mapped case the slice contains the active cell. */
  lemma SliceHoldsActiveCell(cells: seq<LogicalCell>, ordinal: Option<nat>)
    requires ActiveCell(cells, ordinal).Some?
    ensures ActiveCell(cells, ordinal).value in ContextSlice(cells, ordinal)
  {
  }

  /** In the unmapped case the slice is still narrowed, and no cell in it sits at the ordinal's position. */
  lemma SliceWhenUnmapped(cells: seq<LogicalCell>, i: nat)
    requires ActiveCell(cells, Some(i)).None?
    ensures forall x :: x in ContextSlice(cells, Some(i)) ==> x.cell != i && Near(x, i)
  {
  }

  /**
   * `content ?? source ?? text ?? ""`: the first of the three text keys that
   * is present; an empty `content` is used, not skipped.
   */
  function ContentText(c: LogicalCell): (r: string)
    ensures c.content.Some? ==> r == c.content.value
    ensures c.content.None? && c.source.Some? ==> r == c.source.value
    ensures c.content.None? && c.source.None? && c.text.Some? ==> r == c.text.value
    ensures c.content.None? && c.source.None? && c.text.None? ==> r == ""
  {
    c.content.GetOr(c.source.GetOr(c.text.GetOr("")))
  }

  /** The line holds at least one non-whitespace character. */
  predicate HasText(l: string) {
    Trim(l) != []
  }

  /** The first line of `text` that holds a non-whitespace character, or the empty string when none does. */
  function FirstTextLine(text: string): (r: string)
    ensures r == [] <==> forall k :: 0 <= k < |SplitLines(text)| ==> !HasText(SplitLines(text)[k])
    ensures r != [] ==> IsFirst(SplitLines(text), HasText, r)
  {
    match Find(SplitLines(text), HasText)
    case None => []
    case Some(line) =>
      FoundTextLine(text, line);
      line
  }

  /** The first line holding text is not empty, and it shows that some line holds text. */
  lemma FoundTextLine(text: string, line: string)
    requires IsFirst(SplitLines(text), HasText, line)
    ensures line != [] && !(forall k :: 0 <= k < |SplitLines(text)| ==> !HasText(SplitLines(text)[k]))
  {
    var lines := SplitLines(text);
    var k :| 0 <= k < |lines| && lines[k] == line && HasText(line);
    TextLineNotEmpty(lines[k]);
  }

  /** A line holding text is not empty. */
  lemma TextLineNotEmpty(line: string)
    requires HasText(line)
    ensures line != []
  {
    assert |Trim(line)| <= |line|;
  }

  /** The preview of a cell's text shown in the label: its first line with text, trimmed, cut to 80 characters. */
  function Preview(text: string): (r: string)
    ensures |r| <= PreviewLength
  {
    Take(Trim(FirstTextLine(text)), PreviewLength)
  }

  /**
   * The preview is empty exactly when every line of the text, and so the
   * whole text, is whitespace; otherwise it does not start with whitespace.
   */
  lemma PreviewEmptyIffBlank(text: string)
    ensures Preview(text) == [] <==> forall l :: l in SplitLines(text) ==> AllWhitespace(l)
    ensures Preview(text) == [] <==> AllWhitespace(text)
    ensures Preview(text) == [] || !IsWhitespace(Preview(text)[0])
  {
    AllWhitespaceByLines(text);
    var lines := SplitLines(text);
    match Find(lines, HasText)
    case None =>
      BlankLines(lines);
    case Some(line) =>
      PreviewOfTextLine(line);
      assert line in lines;
  }

  /**
   * A non-empty preview comes from the first line holding a non-whitespace
   * character: it is the front of that line once trimmed, all of it or its
   * first 80 characters.
   */
  lemma PreviewFromFirstTextLine(text: string) returns (k: nat)
    requires Preview(text) != []
    ensures var lines := SplitLines(text);
            k < |lines| && !AllWhitespace(lines[k]) &&
            (forall j :: 0 <= j < k ==> AllWhitespace(lines[j])) &&
            Preview(text) <= Trim(lines[k]) &&
            |Preview(text)| == Min(|Trim(lines[k])|, PreviewLength)
  {
    var lines := SplitLines(text);
    var line := Find(lines, HasText).GetOr([]);
    assert line == FirstTextLine(text);
    if Find(lines, HasText).None? {
      assert false;
    } else {
      k :| 0 <= k < |lines| && lines[k] == line && HasText(line) &&
           forall j :: 0 <= j < k ==> !HasText(lines[j]);
      PreviewFromLine(text, lines, k);
    }
  }

  lemma PreviewFromLine(text: string, lines: seq<string>, k: nat)
    requires lines == SplitLines(text) && k < |lines|
    requires FirstTextLine(text) == lines[k] && HasText(lines[k])
    requires forall j :: 0 <= j < k ==> !HasText(lines[j])
    ensures !AllWhitespace(lines[k]) && (forall j :: 0 <= j < k ==> AllWhitespace(lines[j]))
    ensures Preview(text) <= Trim(lines[k]) && |Preview(text)| == Min(|Trim(lines[k])|, PreviewLength)
  {
    BlankLines(lines[..k]);
    assert forall j :: 0 <= j < k ==> lines[j] in lines[..k];
    PreviewOfTextLine(lines[k]);
  }

  lemma BlankLines(lines: seq<string>)
    requires forall l :: l in lines ==> !HasText(l)
    ensures forall l :: l in lines ==> AllWhitespace(l)
  {
    forall l | l in lines ensures AllWhitespace(l) {
      TrimEmpty(l);
    }
  }

  /** The trimmed, truncated text of a line holding text: non-empty, no leading whitespace, a prefix. */
  lemma PreviewOfTextLine(line: string)
    requires HasText(line)
    ensures var p := Take(Trim(line), PreviewLength);
            p != [] && !IsWhitespace(p[0]) && !AllWhitespace(line) &&
            p <= Trim(line) && |p| == Min(|Trim(line)|, PreviewLength)
  {
    var t := Trim(line);
    TrimEnds(line);
    TrimEmpty(line);
    assert Take(t, PreviewLength)[0] == t[0];
  }

  function Min(a: int, b: int): int {
    if a < b then a else b
  }

  /** The label's preview segment: a colon and the quoted preview, or nothing for an empty preview. */
  function PreviewSegment(preview: string): (r: string)
    ensures r == [] <==> preview == []
  {
    if preview != [] then ": \"" + preview + "\"" else ""
  }

  /**
   * The part of a label after "Cell <ordinal>": the "not mapped" text, or the
   * active cell's type in parentheses followed by its preview segment.
   */
  function LabelTail(active: Option<LogicalCell>): (r: string)
    ensures r != [] && r[0] == ' '
  {
    match active
    case None => UnmappedSuffix
    case Some(c) => MappedTail(c.kind, Preview(ContentText(c)))
  }

  function MappedTail(kind: string, preview: string): (r: string)
    ensures |r| >= |kind| + 3 && r[..|kind| + 3] == " (" + kind + ")"
    ensures r[|kind| + 3..] == PreviewSegment(preview)
  {
    " (" + kind + ")" + PreviewSegment(preview)
  }

  /**
   * The diagnostic label for the focus state: a fixed text when no ordinal
   * was detected, otherwise "Cell <ordinal>" followed by a "not mapped" text
   * or by the active cell's type and, when it is not empty, its quoted preview.
   */
  function FocusLabel(ordinal: Option<nat>, active: Option<LogicalCell>): (r: string)
    ensures r == UnknownLabel <==> ordinal.None?
    ensures ordinal.Some? ==> |r| > 5 && r[..5] == "Cell "
  {
    match ordinal
    case None => UnknownLabel
    case Some(i) =>
      var r := "Cell " + DecimalString(i) + LabelTail(active);
      assert r[0] == 'C' && UnknownLabel[0] == 'U';
      r
  }

  /** The ordinal a label names: the decimal number after a leading "Cell ", if any. */
  function LabelOrdinal(s: string): Option<nat> {
    if |s| >= 5 && s[..5] == "Cell " then
      var digits := LeadingDigits(s[5..]);
      if digits == [] then None else Some(DecimalValue(digits))
    else None
  }

  /** A "Cell " label names the number written right after it. */
  lemma {:induction false} LabelOrdinalAfterPrefix(d: string, tail: string)
    requires d != [] && forall k :: 0 <= k < |d| ==> IsDigit(d[k])
    requires tail != [] && tail[0] == ' '
    ensures LabelOrdinal("Cell " + d + tail) == Some(DecimalValue(d))
  {
    var shown := "Cell " + d + tail;
    assert shown[..5] == "Cell ";
    assert shown[5..] == d + tail;
    LeadingDigitsOfPrefix(d, tail);
  }

  /** The label faithfully reports the detection: it names exactly the detected ordinal, or none. */
  lemma LabelNamesOrdinal(ordinal: Option<nat>, active: Option<LogicalCell>)
    ensures LabelOrdinal(FocusLabel(ordinal, active)) == ordinal
  {
    if ordinal.Some? {
      var i := ordinal.value;
      LabelOrdinalAfterPrefix(DecimalString(i), LabelTail(active));
      DecimalRoundTrip(i);
    } else {
      assert UnknownLabel[0] == 'U' && "Cell "[0] == 'C';
    }
  }

  /** The unmapped tail reads " (d…", a mapped tail " (c…" or " (m…". */
  lemma TailOpeners(kind: string)
    requires kind == "code" || kind == "markdown"
    ensures |UnmappedSuffix| > 2 && UnmappedSuffix[2] == 'd'
    ensures |kind| > 0 && kind[0] != 'd'
  {
  }

  /** Two texts with a common head differ where their tails differ. */
  lemma TailsDecide(head: string, t1: string, t2: string, k: nat)
    requires k < |t1| && k < |t2| && t1[k] != t2[k]
    ensures head + t1 != head + t2
  {
    assert (head + t1)[|head| + k] == t1[k];
    assert (head + t2)[|head| + k] == t2[k];
  }

  /** Under a common head, a mapped tail for a code or markdown cell is never the unmapped tail. */
  lemma MappedTailIsNotUnmapped(head: string, kind: string, preview: string)
    requires kind == "code" || kind == "markdown"
    ensures head + MappedTail(kind, preview) != head + UnmappedSuffix
  {
    var mapped := MappedTail(kind, preview);
    assert mapped[2] == kind[0] by {
      assert mapped[..|kind| + 3][2] == kind[0];
    }
    TailOpeners(kind);
    TailsDecide(head, mapped, UnmappedSuffix, 2);
  }

  /** For a code or markdown cell, the mapped label differs from the unmapped one for the same ordinal. */
  lemma MappedAndUnmappedLabelsDiffer(i: nat, c: LogicalCell)
    requires IsRelevant(c)
    ensures FocusLabel(Some(i), Some(c)) != FocusLabel(Some(i), None)
  {
    MappedTailIsNotUnmapped("Cell " + DecimalString(i), c.kind, Preview(ContentText(c)));
  }

  /**
   * The three labels for a projected cell list: the unknown label without an
   * ordinal; the "not mapped" label when no cell sits at the ordinal's
   * position; otherwise the label of the one cell that does.
   */
  lemma LabelCases(cells: seq<LogicalCell>, ordinal: Option<nat>)
    requires StrictlyIncreasing(cells)
    ensures ordinal.None? ==> FocusLabel(ordinal, ActiveCell(cells, ordinal)) == UnknownLabel
    ensures ordinal.Some? && (forall c :: c in cells ==> c.cell != ordinal.value) ==>
              FocusLabel(ordinal, ActiveCell(cells, ordinal)) ==
              "Cell " + DecimalString(ordinal.value) + UnmappedSuffix
    ensures forall c :: c in cells && ordinal == Some(c.cell) ==>
              FocusLabel(ordinal, ActiveCell(cells, ordinal)) ==
              "Cell " + DecimalString(c.cell) + MappedTail(c.kind, Preview(ContentText(c)))
  {
  }

  /**
   * The label of a mapped cell stops right after the cell's type exactly when
   * the cell's text is blank; otherwise a quoted preview follows.
   */
  lemma BlankCellLabel(i: nat, c: LogicalCell)
    ensures FocusLabel(Some(i), Some(c)) == "Cell " + DecimalString(i) + " (" + c.kind + ")"
            <==> AllWhitespace(ContentText(c))
    ensures !AllWhitespace(ContentText(c)) ==>
              FocusLabel(Some(i), Some(c)) ==
              "Cell " + DecimalString(i) + " (" + c.kind + "): \"" + Preview(ContentText(c)) + "\""
  {
    PreviewEmptyIffBlank(ContentText(c));
    LabelWithSegment(DecimalString(i), c.kind, Preview(ContentText(c)));
  }

  /** A mapped label ends after the type exactly when the preview is empty. */
  lemma LabelWithSegment(d: string, kind: string, preview: string)
    ensures "Cell " + d + MappedTail(kind, preview) == "Cell " + d + " (" + kind + ")" <==> preview == []
    ensures preview != [] ==>
              "Cell " + d + MappedTail(kind, preview) == "Cell " + d + " (" + kind + "): \"" + preview + "\""
  {
  }
}
