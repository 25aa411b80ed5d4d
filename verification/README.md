# Jupyter hints with cell focus — a Dafny model

This project models the logic of a notebook-editor extension that adds a
"Provide a hint on what to do next" button. When the button is pressed, the
extension works out which notebook cell the user has in focus. It then sends
the assistant a small window of cells around that cell, and it writes a
fixed diagnostic banner that names the focused cell.

The model is pure: datatypes, functions and lemmas, split into modules along
the steps of one button press.

- `Wrappers`: the nullable value (`Option`).
- `Sequences`: `Array.prototype.filter` and `Array.prototype.find`.
- `Text`:
  - ECMAScript whitespace and `trim`
  - `split("\n")` and `slice(0, n)`
  - the decimal rendering of the ordinal in a template literal
- `Cells`: the cell projection. Raw notebook cells lose their `id` and are
  tagged with their position in the unfiltered list (`cell`). Only code and
  markdown cells are kept.
- `Focus`:
  - mapping the on-screen ordinal to a projected cell
  - the context slice (cells within one position of the ordinal)
  - the preview of the focused cell's text
  - the focus label
- `Answer`: reading the assistant's reply, which is either a string or an
  object with a string `response`. The reply is written only when it is not
  empty.
- `DomLocator`: the active-cell locator over an abstract page snapshot:
  - a priority chain of six CSS queries (first hit wins)
  - the choice of the notebook container
  - `indexOf` among the cell elements
  - `null` on a miss, on a thrown query, or when the element is absent
- `ButtonPress`: the whole synchronous part of a press. It produces:
  - the banner
  - the request variables (the slice, the raw ordinal, the active cell)
  - the chat output once the reply is known

It also holds worked examples.

Three behaviours of `index.js` are worth stating outright:

- **Slice for an unmapped ordinal.** The slice is narrowed to the cells near
  the ordinal whenever an ordinal was detected, even if no cell maps to it
  (index.js:103-107). `Focus.SliceWhenUnmapped` and
  `ButtonPress.UnmappedExample` show the narrowing.
- **Window around ordinal 2 for cells 0, 2, 4.** With a window of 1, the
  slice is the cell at 2 alone, because the cells at 0 and 4 are two
  positions away (index.js:105-106). `ButtonPress.MappedExample` proves
  this.
- **`ACTIVE_CELL_INDEX`.** It carries the raw on-screen ordinal, not the
  position of the mapped cell (index.js:123).

## Model

| member | source | states |
|---|---|---|
| `Sequences.Filter` | index.js:70 | The result holds exactly the elements of the input that satisfy the predicate, and it is no longer than the input. |
| `Sequences.Find` | index.js:78 | The result is `None` exactly when no element satisfies the predicate. Otherwise it is the element at some position `k` that satisfies it, and no earlier element does. |
| `Cells.AnnotateAll` | index.js:66-69 | Entry `k` of the annotated list is raw cell `k` tagged with `cell == k`. The length is unchanged. |
| `Cells.Project` | index.js:65-70 | The projection is no longer than the raw list, and it holds exactly the annotated raw cells that are code or markdown cells. |
| `Cells.ProjectionSound` | index.js:65-70 | The projection is no longer than the raw list. Every entry is a code or markdown cell, its `cell` is a valid raw position, and the entry equals the raw cell at that position (same type and text) tagged with it. |
| `Cells.ProjectionOrdered` | index.js:65-70 | `cell` values strictly increase along the projection, so they are distinct and in raw order. |
| `Cells.ProjectionComplete` | index.js:65-70 | Every raw position holding a code or markdown cell appears in the projection exactly once. |
| `Cells.FilterKeepsIncreasing` | index.js:70 | Filtering a list whose `cell` values strictly increase leaves them strictly increasing. |
| `Focus.ActiveCell` | index.js:76-79 | No ordinal gives no cell. With ordinal `i`, a cell is found exactly when some projected cell has `cell == i`, and the cell found is one of them. |
| `Focus.ActiveCellUnique` | index.js:76-79 | Because positions are distinct, the cell found at `i` is the only projected cell with `cell == i`. |
| `Focus.ContextSlice` | index.js:103-107 | No ordinal leaves the list unchanged. With ordinal `i`, the slice holds exactly the cells within `NeighborWindow` (1) of `i`, and it is never longer than the list. |
| `Focus.SliceOrdered` | index.js:103-107 | The slice keeps the projection's order. |
| `Focus.SliceIsNearSubsequence` | index.js:103-107 | With an ordinal, the slice is the unique order-preserving list of the nearby cells: any increasing list with the same elements equals it. |
| `Focus.SliceBounded` | index.js:105-106 | With an ordinal, the slice holds at most `2 * NeighborWindow + 1` (three) cells. |
| `Focus.SliceHoldsActiveCell` | index.js:103-107 | When the ordinal maps to a cell, that cell is in the slice. |
| `Focus.SliceWhenUnmapped` | index.js:103-107 | When the ordinal maps to no cell, the slice is still narrowed: every cell in it is near the ordinal, and none sits at the ordinal's position. |
| `Focus.ContentText` | index.js:87-91 | The text is `content` if present, else `source` if present, else `text` if present, else empty. An empty `content` is used, not skipped. |
| `Focus.FirstTextLine` | index.js:93 | The result is empty exactly when no line of the text holds a non-whitespace character. Otherwise it is the first line that holds one: the line at some position `k` holds such a character, and no line before `k` does. |
| `Focus.Preview` | index.js:93-94 | The preview has at most 80 characters. |
| `Focus.PreviewEmptyIffBlank` | index.js:93-94 | The preview is empty exactly when every line of the text is whitespace, which is exactly when the whole text is. A non-empty preview does not start with whitespace. |
| `Focus.PreviewFromFirstTextLine` | index.js:93-94 | A non-empty preview comes from line `k`, the first line that is not all whitespace. It is a prefix of that line trimmed, and its length is the smaller of that trimmed length and 80. |
| `Focus.PreviewSegment` | index.js:96 | The quoted preview segment is empty exactly when the preview is. |
| `Focus.FocusLabel` | index.js:82-97 | The label is the fixed "UNKNOWN" text exactly when no ordinal was detected; with an ordinal it starts with "Cell ". `Focus.LabelCases`, `Focus.LabelNamesOrdinal` and `Focus.BlankCellLabel` state the rest. |
| `Focus.LabelCases` | index.js:82-97 | For a projected cell list, the label is one of three cases. No ordinal gives the fixed "UNKNOWN" text. An ordinal with no cell at its position gives "Cell i" plus the not-mapped text. Otherwise it gives "Cell i" followed by the type and preview of the one cell at that position. |
| `Focus.LabelNamesOrdinal` | index.js:83-96 | Reading the number after a leading "Cell " in the label gives back exactly the detected ordinal. For no ordinal it gives none. |
| `Focus.MappedAndUnmappedLabelsDiffer` | index.js:84-96 | For the same ordinal, the label of a mapped code or markdown cell never equals the not-mapped label. |
| `Focus.BlankCellLabel` | index.js:94-96 | A mapped label ends right after "(type)" exactly when the cell's text is all whitespace. Otherwise it is "Cell i (type)" followed by a colon and the preview in double quotes. |
| `Text.AllWhitespaceAt` | index.js:93 | The recursive "all whitespace" predicate agrees with "every position holds whitespace". |
| `Text.Trim` | index.js:94 | The trimmed string is no longer than the original; `Text.TrimIsPiece`, `Text.TrimEnds` and `Text.TrimEmpty` state what it is. |
| `Text.TextStart` | index.js:94 | Scanning from a position, the text starts at the first non-whitespace character, or at the end. Everything skipped is whitespace. |
| `Text.TextEnd` | index.js:94 | Scanning back from a position, the text ends just after the last non-whitespace character, without going past its start. Everything skipped is whitespace. |
| `Text.TrimIsPiece` | index.js:94 | `trim` returns the piece of the string that starts after its leading whitespace. Only whitespace lies before and after that piece. |
| `Text.TrimEnds` | index.js:94 | A non-empty trimmed string starts and ends with a non-whitespace character. |
| `Text.TrimEmpty` | index.js:93 | A string trims to empty exactly when it is all whitespace. |
| `Text.Take` | index.js:94 | `slice(0, n)` is a prefix of at most `n` characters. It is the whole string when the string is shorter than `n`, and exactly `n` characters otherwise. |
| `Text.SplitLines` | index.js:93 | Splitting on line feeds yields at least one line, and no line contains a line feed. |
| `Text.JoinSplitLines` | index.js:93 | Joining the split lines with line feeds gives back the original text. |
| `Text.AllWhitespaceByLines` | index.js:93 | A text is all whitespace exactly when each of its lines is. |
| `Text.DecimalString` | index.js:84 | The rendered ordinal is a non-empty string of decimal digits. It starts with `0` exactly when the ordinal is 0, and it is then "0" itself, so there is no leading zero. |
| `Text.DecimalRoundTrip` | index.js:84 | Reading the rendered digits back gives the ordinal. |
| `Answer.ExtractAnswer` | index.js:130-136 | An answer exists exactly when the reply is a string or an object with a string `response`. A string reply is returned as is; otherwise the `response` is returned. |
| `Answer.WrittenAnswer` | index.js:138-140 | Something is written exactly when the extracted answer exists and is not the empty string. What is written is that answer. |
| `DomLocator.FirstHit` | index.js:16-22 | The chain of `or`s misses exactly when every query misses. Otherwise the result is the first query that did not miss: its element, or its thrown error. |
| `DomLocator.ActiveElement` | index.js:16-22 | The active element query misses exactly when all six markers miss. Otherwise its answer is that of the first marker that did not miss: an element or a thrown error. |
| `DomLocator.CellElements` | index.js:27-35 | The container is the nearest `.jp-Notebook` ancestor, else the nearest `.jp-NotebookPanel` ancestor, else the document's first `.jp-Notebook`. The cells are listed inside the first of these that is found, or in the whole document when none is. A query that throws before a container is found gives no list. |
| `DomLocator.IndexOf` | index.js:39-40 | `indexOf` is `None` exactly when the element is absent. Otherwise it is the first position that holds the element. |
| `DomLocator.LocateActiveCell` | index.js:13-45 | An ordinal is returned exactly when an active element is found, the cell elements of its notebook are listed without error, and the element is among them. The ordinal is the element's first position in that list. |
| `DomLocator.ActiveSelectorPriority` | index.js:16-22 | When a marker finds an element and every earlier marker missed, that element is the active element, whatever the later markers find. |
| `ButtonPress.Prepare` | index.js:65-107 | The request carries the raw ordinal. The banner is the fixed prefix, the label and a full stop. The active cell exists exactly when some projected cell sits at the ordinal; it is then in the slice and sits at the ordinal. The slice is drawn from the projection, in order. Without an ordinal the slice is the whole projection; with one, it holds exactly the projected cells within one position of the ordinal, and at most three of them. |
| `ButtonPress.ChatOutput` | index.js:99-140 | The chat receives the banner first. A second message follows exactly when the reply yields a non-empty answer, and that message is the answer. |
| `ButtonPress.ProjectionExample` | index.js:65-70 | code, raw, markdown cells project to the code cell at 0 and the markdown cell at 2. |
| `ButtonPress.MappedExample` | index.js:76-107 | With cells at 0, 2 and 4, ordinal 2 maps to the cell at 2. The slice is that cell alone. |
| `ButtonPress.UnmappedExample` | index.js:76-107 | With cells at 0, 2 and 4, ordinal 1 maps to no cell. The slice is still narrowed, to the cells at 0 and 2. |

## Left out

- Host calls are not modelled: registering the button (index.js:6-10), `getContext` (51), `ask` (119-126), `write` and `showMenu`. The model takes the raw cells, the ordinal and the reply as inputs.
- The early exit when no notebook is open (index.js:54-58) is not modelled. Neither is the choice of the first open notebook (61-62); both are host data plumbing.
- The outer `try`/`catch` (index.js:144-148) is not modelled. It writes a generic error message when anything throws, for example when the notebook content is not an array.
- `console.warn`/`console.error` logging is not modelled. Only the locator's "failure gives `null`" behaviour is kept, as `Threw` queries and a failing `selectAll`.
- `JSON.stringify` of the slice and the active cell (index.js:110, 113) is not modelled. `Request` carries the values before serialisation. The prompt template name (116) is a constant with no logic.
- CSS selector matching and DOM traversal are not modelled. The page is a snapshot that answers each query; `DomLocator` fixes only how the answers are combined.
- `.toString()` on non-string cell text (index.js:91) is not modelled. An array of lines, for example, would be joined with commas. The model takes the text as a string, which makes `.toString()` the identity.
- Raw cell fields other than type and text (outputs, metadata) are not modelled. Neither is a raw `cell` key, which would override the position at index.js:66-69 because it is spread after it.
- Focus.Preview: lengths count Unicode characters, not UTF-16 code units. A character outside the Basic Multilingual Plane counts once here but twice for JavaScript's `slice(0, 80)`, so such text can give a longer preview here.
- Text.TrimIsPiece: the whitespace set is ECMAScript's WhiteSpace and LineTerminator characters at the Unicode version written out in `Text.WhitespaceRanges`. Later Unicode additions to the space separators are not tracked.
- The order of effects across the asynchronous `ask` is not modelled. The banner is written before the request is sent; the model represents this only as the order of `ChatOutput`.
