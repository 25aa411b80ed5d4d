/**
 * The active-cell locator over the editor's DOM, with the browser's query
 * functions abstracted: a snapshot of the page answers each CSS query, and
 * the locator combines the answers as the source does (a priority chain of
 * selectors, first hit wins; then the element's position among the cell
 * elements of its notebook).
 */
module DomLocator {
  import opened Wrappers

  /** The outcome of one `querySelector` or `closest` call: an element, `null`, or a thrown error. */
  datatype Query<E> = Hit(element: E) | Miss | Threw

  /**
   * A read-only snapshot of the page. `select` is `document.querySelector`,
   * `closest` is `element.closest`, `selectAll` is `querySelectorAll` on a
   * container (or on the document when there is none): the matching
   * elements in document order, or nothing when the call throws.
   */
  datatype Page<!E> = Page(select: string -> Query<E>,
                          closest: (E, string) -> Query<E>,
                          selectAll: (Option<E>, string) -> Option<seq<E>>)

  /** The markers of an active or selected cell, most specific first. */
  const ActiveSelectors: seq<string> := [
    ".jp-Notebook .jp-Cell.jp-mod-active",
    ".jp-Notebook .jp-Cell.jp-mod-selected",
    ".jp-Notebook-cell.jp-mod-active",
    ".jp-Notebook-cell.jp-mod-selected",
    ".jp-Cell.jp-mod-active",
    ".jp-Cell.jp-mod-selected"
  ]

  const NotebookSelector: string := ".jp-Notebook"
  const PanelSelector: string := ".jp-NotebookPanel"
  const CellSelector: string := ".jp-Cell, .jp-Notebook-cell"

  /**
   * `q1 || q2 || …` evaluated left to right: the first query that does not
   * miss decides (its element, or its error); all missing is a miss.
   */
  function FirstHit<E>(queries: seq<Query<E>>): (r: Query<E>)
    ensures r.Miss? <==> forall k :: 0 <= k < |queries| ==> queries[k].Miss?
    ensures !r.Miss? ==> exists k :: 0 <= k < |queries| && queries[k] == r &&
                                   forall j :: 0 <= j < k ==> queries[j].Miss?
  {
    if queries == [] then Miss
    else if !queries[0].Miss? then queries[0]
    else
      var r := FirstHit(queries[1..]);
      assert !r.Miss? ==> exists k :: 1 <= k < |queries| && queries[k] == r &&
                                      forall j :: 0 <= j < k ==> queries[j].Miss? by {
        if !r.Miss? {
          var k :| 0 <= k < |queries[1..]| && queries[1..][k] == r &&
                   forall j :: 0 <= j < k ==> queries[1..][j].Miss?;
          assert forall j :: 1 <= j < k + 1 ==> queries[j] == queries[1..][j - 1];
        }
      }
      r
  }

  /** `s.indexOf(x)` mapped to `null` when absent: the first position of `x` in `s`. */
  function IndexOf<E(==)>(s: seq<E>, x: E): (r: Option<nat>)
    ensures r.None? <==> x !in s
    ensures r.Some? ==> r.value < |s| && s[r.value] == x && forall j :: 0 <= j < r.value ==> s[j] != x
  {
    if s == [] then None
    else if s[0] == x then Some(0)
    else
      match IndexOf(s[1..], x)
      case None => None
      case Some(k) =>
        assert forall j :: 1 <= j < k + 1 ==> s[j] == s[1..][j - 1];
        Some(k + 1)
  }

  /** The active cell element: the first hit of the active-cell selectors, in priority order. */
  function ActiveElement<E>(page: Page<E>): (r: Query<E>)
    ensures r.Miss? <==> forall k :: 0 <= k < |ActiveSelectors| ==> page.select(ActiveSelectors[k]).Miss?
    ensures !r.Miss? ==> exists k :: 0 <= k < |ActiveSelectors| && page.select(ActiveSelectors[k]) == r &&
                                   forall j :: 0 <= j < k ==> page.select(ActiveSelectors[j]).Miss?
  {
    var queries := seq(|ActiveSelectors|, k requires 0 <= k < |ActiveSelectors| => page.select(ActiveSelectors[k]));
    assert forall k :: 0 <= k < |queries| ==> queries[k] == page.select(ActiveSelectors[k]);
    FirstHit(queries)
  }

  /**
   * The cell elements of the active element's notebook, in document order:
   * the container is the nearest `.jp-Notebook` ancestor, else the nearest
   * `.jp-NotebookPanel` ancestor, else the document's first `.jp-Notebook`;
   * with none, the cells of the whole document. A thrown error gives none.
   */
  function CellElements<E>(page: Page<E>, active: E): (r: Option<seq<E>>)
    ensures page.closest(active, NotebookSelector).Threw? ==> r.None?
    ensures page.closest(active, NotebookSelector).Hit? ==>
              r == page.selectAll(Some(page.closest(active, NotebookSelector).element), CellSelector)
    ensures page.closest(active, NotebookSelector).Miss? && page.closest(active, PanelSelector).Threw? ==>
              r.None?
    ensures page.closest(active, NotebookSelector).Miss? && page.closest(active, PanelSelector).Hit? ==>
              r == page.selectAll(Some(page.closest(active, PanelSelector).element), CellSelector)
    ensures page.closest(active, NotebookSelector).Miss? && page.closest(active, PanelSelector).Miss? ==>
              (page.select(NotebookSelector).Threw? ==> r.None?) &&
              (page.select(NotebookSelector).Hit? ==>
                 r == page.selectAll(Some(page.select(NotebookSelector).element), CellSelector)) &&
              (page.select(NotebookSelector).Miss? ==> r == page.selectAll(None, CellSelector))
  {
    var queries := [page.closest(active, NotebookSelector),
                    page.closest(active, PanelSelector),
                    page.select(NotebookSelector)];
    var container := FirstHit(queries);
    assert !queries[0].Miss? ==> container == queries[0];
    assert queries[0].Miss? && !queries[1].Miss? ==> container == queries[1];
    assert queries[0].Miss? && queries[1].Miss? ==> container == queries[2];
    match container
    case Threw => None
    case Hit(notebook) => page.selectAll(Some(notebook), CellSelector)
    case Miss => page.selectAll(None, CellSelector)
  }

  /**
   * `getActiveCellIndexFromDom`: the position of the active cell element
   * among its notebook's cell elements; `null` when no cell is active, when
   * the element is not among the cells (or there are none), or when a query
   * throws.
   */
  function LocateActiveCell<E(==)>(page: Page<E>): (r: Option<nat>)
    ensures r.Some? <==>
              ActiveElement(page).Hit? &&
              CellElements(page, ActiveElement(page).element).Some? &&
              ActiveElement(page).element in CellElements(page, ActiveElement(page).element).value
    ensures r.Some? ==>
              var active := ActiveElement(page).element;
              var cells := CellElements(page, active).value;
              r.value < |cells| && cells[r.value] == active &&
              forall j :: 0 <= j < r.value ==> cells[j] != active
  {
    match ActiveElement(page)
    case Miss => None
    case Threw => None
    case Hit(active) =>
      match CellElements(page, active)
      case None => None
      case Some(cells) =>
        if |cells| == 0 then None else IndexOf(cells, active)
  }

  /**
   * The selector chain is a priority order: when a more specific marker
   * finds an element, a later (more general) one is never consulted.
   */
  lemma ActiveSelectorPriority<E>(page: Page<E>, k: nat, e: E)
    requires k < |ActiveSelectors| && page.select(ActiveSelectors[k]) == Hit(e)
    requires forall j :: 0 <= j < k ==> page.select(ActiveSelectors[j]).Miss?
    ensures ActiveElement(page) == Hit(e)
  {
    var queries := seq(|ActiveSelectors|, i requires 0 <= i < |ActiveSelectors| => page.select(ActiveSelectors[i]));
    assert queries[k] == Hit(e);
    assert ActiveElement(page) == FirstHit(queries);
    assert !FirstHit(queries).Miss?;
    var m :| 0 <= m < |queries| && queries[m] == ActiveElement(page) &&
             forall j :: 0 <= j < m ==> queries[j].Miss?;
  }
}
