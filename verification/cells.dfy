/**
 * The cell model projector: the notebook's raw cell list is annotated with
 * each cell's position in the unfiltered list and narrowed to the code and
 * markdown cells.
 */
module Cells {
  import opened Wrappers
  import opened Sequences

  /**
   * A cell of the notebook document as the host serialises it. The text may
   * sit under any of three keys, each of which may be missing (`null` or
   * `undefined`, both `None` here).
   */
  datatype RawCell = RawCell(id: string, kind: string, content: Option<string>,
                             source: Option<string>, text: Option<string>)

  /** A raw cell without its `id`, carrying `cell`: its position in the unfiltered list. */
  datatype LogicalCell = LogicalCell(cell: nat, kind: string, content: Option<string>,
                                     source: Option<string>, text: Option<string>)

  /** The raw cell at position `index`, with its `id` dropped and its position recorded as `cell`. */
  function Annotate(c: RawCell, index: nat): LogicalCell {
    LogicalCell(index, c.kind, c.content, c.source, c.text)
  }

  /** The types the assistant is shown: markdown and code. */
  predicate IsRelevant(c: LogicalCell) {
    c.kind == "markdown" || c.kind == "code"
  }

  /** `raw.map(Annotate)`: every raw cell annotated with its own position. */
  function AnnotateAll(raw: seq<RawCell>): (r: seq<LogicalCell>)
    ensures |r| == |raw|
    ensures forall k :: 0 <= k < |raw| ==> r[k] == Annotate(raw[k], k)
  {
    seq(|raw|, k requires 0 <= k < |raw| => Annotate(raw[k], k))
  }

  /** The projection: annotate with the unfiltered position, then keep code and markdown cells. */
  function Project(raw: seq<RawCell>): (r: seq<LogicalCell>)
    ensures |r| <= |raw|
    ensures forall x :: x in r <==> x in AnnotateAll(raw) && IsRelevant(x)
  {
    Filter(AnnotateAll(raw), IsRelevant)
  }

  /** `cell` values strictly increase along the sequence (so they are also distinct). */
  predicate StrictlyIncreasing(s: seq<LogicalCell>) {
    forall i, j :: 0 <= i < j < |s| ==> s[i].cell < s[j].cell
  }

  /** Filtering keeps the relative order, so an increasing sequence stays increasing. */
  lemma {:induction false} FilterKeepsIncreasing(s: seq<LogicalCell>, p: LogicalCell -> bool)
    requires StrictlyIncreasing(s)
    ensures StrictlyIncreasing(Filter(s, p))
  {
    if s != [] {
      var tail := Filter(s[1..], p);
      FilterKeepsIncreasing(s[1..], p);
      if p(s[0]) {
        forall x | x in tail ensures s[0].cell < x.cell {
          var i :| 1 <= i < |s| && s[i] == x;
        }
        ConsIncreasing(s[0], tail);
      } else {
        assert Filter(s, p) == tail;
      }
    }
  }

  /** A cell placed before an increasing sequence of later cells keeps it increasing. */
  lemma ConsIncreasing(c: LogicalCell, s: seq<LogicalCell>)
    requires StrictlyIncreasing(s)
    requires forall x :: x in s ==> c.cell < x.cell
    ensures StrictlyIncreasing([c] + s)
  {
  }

  /** Only code and markdown cells survive, each an exact copy of its raw cell at its recorded position. */
  lemma ProjectionSound(raw: seq<RawCell>)
    ensures |Project(raw)| <= |raw|
    ensures forall e :: e in Project(raw) ==>
              IsRelevant(e) && e.cell < |raw| && e == Annotate(raw[e.cell], e.cell)
  {
  }

  /** The projection keeps the raw list's order: its `cell` values strictly increase. */
  lemma ProjectionOrdered(raw: seq<RawCell>)
    ensures StrictlyIncreasing(Project(raw))
  {
    FilterKeepsIncreasing(AnnotateAll(raw), IsRelevant);
  }

  /** Every code or markdown position of the raw list appears in the projection, exactly once. */
  lemma ProjectionComplete(raw: seq<RawCell>, j: nat)
    requires j < |raw| && (raw[j].kind == "markdown" || raw[j].kind == "code")
    ensures exists k :: 0 <= k < |Project(raw)| && Project(raw)[k].cell == j
    ensures forall k1, k2 ::
              0 <= k1 < |Project(raw)| && 0 <= k2 < |Project(raw)| &&
              Project(raw)[k1].cell == j && Project(raw)[k2].cell == j
              ==> k1 == k2
  {
    var all := AnnotateAll(raw);
    assert all[j] in all;
    assert all[j] in Project(raw);
    ProjectionOrdered(raw);
  }

  /**
   * An increasing sequence is fixed by its elements: two strictly increasing
   * sequences with the same elements are equal. So a filter of an increasing
   * list is THE order-preserving subsequence of the elements it keeps.
   */
  lemma {:induction false} IncreasingDeterminedByElements(a: seq<LogicalCell>, b: seq<LogicalCell>)
    requires StrictlyIncreasing(a) && StrictlyIncreasing(b)
    requires forall x :: x in a <==> x in b
    ensures a == b
  {
    if a == [] {
      assert forall i :: 0 <= i < |b| ==> b[i] in b;
    } else {
      assert a[0] in a;
      HeadsEqual(a, b);
      forall x ensures x in a[1..] <==> x in b[1..] {
        if x in a[1..] { TailMember(a, b, x); }
        if x in b[1..] { TailMember(b, a, x); }
      }
      IncreasingDeterminedByElements(a[1..], b[1..]);
      assert a == [a[0]] + a[1..] && b == [b[0]] + b[1..];
    }
  }

  /** Two non-empty increasing sequences with the same elements start with the same one: the least. */
  lemma HeadsEqual(a: seq<LogicalCell>, b: seq<LogicalCell>)
    requires StrictlyIncreasing(a) && StrictlyIncreasing(b)
    requires forall x :: x in a <==> x in b
    requires a != [] && b != []
    ensures a[0] == b[0]
  {
    assert a[0] in a && b[0] in b;
    var m :| 0 <= m < |a| && a[m] == b[0];
    var k :| 0 <= k < |b| && b[k] == a[0];
  }

  lemma TailMember(a: seq<LogicalCell>, b: seq<LogicalCell>, x: LogicalCell)
    requires StrictlyIncreasing(a) && StrictlyIncreasing(b)
    requires forall y :: y in a <==> y in b
    requires a != [] && b != [] && a[0] == b[0] && x in a[1..]
    ensures x in b[1..]
  {
    var i :| 1 <= i < |a| && a[i] == x;
    assert a[i] in a;
    var j :| 0 <= j < |b| && b[j] == x;
    assert b[1..][j - 1] == x;
  }

  /** A strictly increasing sequence whose `cell` values lie in `lo..hi` has at most `hi - lo + 1` entries. */
  lemma {:induction false} IncreasingWithin(s: seq<LogicalCell>, lo: int, hi: int)
    requires StrictlyIncreasing(s)
    requires forall x :: x in s ==> lo <= x.cell <= hi
    ensures |s| == 0 || |s| <= hi - lo + 1
  {
    if |s| > 1 {
      assert forall x :: x in s[1..] ==> s[0].cell + 1 <= x.cell <= hi by {
        forall x | x in s[1..] ensures s[0].cell + 1 <= x.cell <= hi {
          var i :| 1 <= i < |s| && s[i] == x;
        }
      }
      IncreasingWithin(s[1..], s[0].cell + 1, hi);
      assert s[0] in s;
    } else if |s| == 1 {
      assert s[0] in s;
    }
  }
}
