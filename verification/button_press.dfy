/**
 * One press of the hint button, once the host has supplied the notebook's
 * raw cells and the locator its ordinal: the diagnostic banner, the variables
 * of the assistant request, and what is written to the chat.
 */
module ButtonPress {
  import opened Wrappers
  import opened Cells
  import opened Focus
  import opened Answer

  /** The variables of the assistant request, before serialisation. */
  datatype Request = Request(notebook: seq<LogicalCell>, activeIndex: Option<nat>,
                             activeCell: Option<LogicalCell>)

  /** The result of the synchronous part of a press: the banner written first, then the request. */
  datatype Prepared = Prepared(banner: string, request: Request)

  const BannerPrefix: string := "\U{1F9EA} This is a test bot for cell focus. The cell in focus is "

  /**
   * The focus-resolution pipeline: project the cells, map the ordinal to the
   * active cell, render the banner and cut the context slice. The request
   * carries the detected ordinal as it is, the active cell, and a slice that
   * is ordered, drawn from the projection, holds the active cell, and has at
   * most three cells once an ordinal was detected.
   */
  function Prepare(raw: seq<RawCell>, ordinal: Option<nat>): (p: Prepared)
    ensures p.request.activeIndex == ordinal
    ensures p.banner == BannerPrefix + FocusLabel(ordinal, p.request.activeCell) + "."
    ensures p.request.activeCell.Some? <==>
              ordinal.Some? && exists c :: c in Project(raw) && c.cell == ordinal.value
    ensures p.request.activeCell.Some? ==>
              p.request.activeCell.value in p.request.notebook &&
              p.request.activeCell.value.cell == ordinal.value
    ensures forall x :: x in p.request.notebook ==> x in Project(raw)
    ensures StrictlyIncreasing(p.request.notebook)
    ensures ordinal.None? ==> p.request.notebook == Project(raw)
    ensures ordinal.Some? ==>
              forall x :: x in p.request.notebook <==> x in Project(raw) && Near(x, ordinal.value)
    ensures ordinal.Some? ==> |p.request.notebook| <= 3
  {
    var cells := Project(raw);
    var active := ActiveCell(cells, ordinal);
    var slice := ContextSlice(cells, ordinal);
    ProjectionOrdered(raw);
    SliceOrdered(cells, ordinal);
    assert ordinal.Some? ==> |slice| <= 2 * NeighborWindow + 1 by {
      if ordinal.Some? { SliceBounded(cells, ordinal.value); }
    }
    Prepared(BannerPrefix + FocusLabel(ordinal, active) + ".", Request(slice, ordinal, active))
  }

  /**
   * Everything written to the chat on a press that reached the assistant:
   * the banner, then the answer when it is not empty.
   */
  function ChatOutput(p: Prepared, reply: Reply): (r: seq<string>)
    ensures 1 <= |r| <= 2 && r[0] == p.banner
    ensures |r| == 2 <==> WrittenAnswer(reply).Some?
    ensures |r| == 2 ==> r[1] != "" && Some(r[1]) == ExtractAnswer(reply)
  {
    match WrittenAnswer(reply)
    case Some(answer) => [p.banner, answer]
    case None => [p.banner]
  }

  /** A raw cell with its text under `content`. */
  function Cell(id: string, kind: string, text: string): RawCell {
    RawCell(id, kind, Some(text), None, None)
  }

  /** A "raw" cell between a code and a markdown cell is dropped and leaves a gap in the positions. */
  lemma ProjectionExample()
    ensures Project([Cell("a1", "code", "a"), Cell("b2", "raw", "x"), Cell("c3", "markdown", "b\nc")]) ==
            [LogicalCell(0, "code", Some("a"), None, None),
             LogicalCell(2, "markdown", Some("b\nc"), None, None)]
  {
  }

  /** Projected code cells at positions 0, 2 and 4 (the cells at 1 and 3 were of other types). */
  const Gapped: seq<LogicalCell> := [LogicalCell(0, "code", Some("x = 1"), None, None),
                                     LogicalCell(2, "code", Some("y = x"), None, None),
                                     LogicalCell(4, "code", Some(""), None, None)]

  /** An ordinal of 2 maps to the cell at position 2; the slice is that cell alone (nothing sits at 1 or 3). */
  lemma MappedExample()
    ensures ActiveCell(Gapped, Some(2)) == Some(Gapped[1])
    ensures ContextSlice(Gapped, Some(2)) == [Gapped[1]]
  {
    SliceIsNearSubsequence(Gapped, 2, [Gapped[1]]);
  }

  /**
   * An ordinal of 1 (the second cell on screen when the other types are not
   * displayed) maps to no cell, yet the slice is still narrowed, to the
   * cells at positions 0 and 2.
   */
  lemma UnmappedExample()
    ensures ActiveCell(Gapped, Some(1)).None?
    ensures ContextSlice(Gapped, Some(1)) == [Gapped[0], Gapped[1]]
  {
    SliceIsNearSubsequence(Gapped, 1, [Gapped[0], Gapped[1]]);
  }
}
