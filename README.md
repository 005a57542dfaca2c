# Smart CSV/JSON viewer: the rendering core in Dafny

This project models the data-to-view core of the Smart Viewer editor extension
(`src/extension.ts`). That core has four parts:

- **`escapeHtml`** (module `Escape`). Absent input gives the empty string. Otherwise five
  global substitutions run in a fixed order, ampersand first. The model proves four things:
  - the chain equals an independent character-at-a-time escaper;
  - its output is markup-safe;
  - decoding the five entities gives the input back;
  - it is not idempotent.
- **`jsonToTree`** (module `JsonTree`). A parsed JSON value becomes nested open `<details>`
  blocks. `Build` computes the tree of labelled blocks (a `RenderNode`), `Render` prints
  it, and `JsonToTree` composes the two. The model proves:
  - arrays give `[i]` blocks in index order;
  - objects give `key:` blocks in entry order;
  - there is one primitive div per scalar;
  - the tree can be read back to the input, except that an empty array and an empty object
    give the same tree.
- **The CSV table** emitted by `getCsvWebviewContent` (module `CsvTable`). It works from
  the already-parsed records. There are two outcomes:
  - with no records, the "No CSV data found." notice;
  - otherwise, the sort options, the header row and one body row per record. Columns come
    from the first record, and every field passes through `escapeHtml` once.
- **The embedded controller script** (module `Controller`, with the sort in `RowSort`). It
  is a class whose fields are the page state:
  - the header texts;
  - the body rows, each with its cell texts and display flag;
  - the selected column;
  - the direction and the button label.

  Its methods are the event handlers: `Filter` (the input handler), `SortTable`, `Toggle`
  (the click handler) and `SelectColumn` (the user's choice in the selector). Each method is
  proved against a specification function (`Filtered`, `Resorted`). Lemmas about those
  functions prove three properties:
  - filtering shows a row exactly when a cell contains the term, ignoring case;
  - sorting is a stable sort on the lower-cased column text;
  - a toggle click flips the direction and re-sorts in it.

  `Array.prototype.sort` is modelled by a stable insertion sort over a comparator parameter
  (`RowSort.StableSort`). The row comparator is proved antisymmetric and transitive.

Supporting modules: `Wrappers` (an `Option` type) and `Text`. `Text` holds lower-casing,
`includes`, the three-way string comparison, `join('')` and the decimal form of an index.

Two behaviours of the code are worth knowing, and the model keeps both:

- **No escaping in the tree.** `jsonToTree` inserts keys and string values verbatim, so a
  string that holds markup is rendered as markup. The model does the same
  (`JsonTree.StringLeafVerbatim`, `JsonTree.KeyLabelVerbatim`).
- **Empty filter term.** An empty filter term hides a row that has no cells, because
  `some` over no cells is false. This happens when the first record has no keys
  (`Controller.EmptyTermShowsRowsWithCells`).

## Model

| member | source | states |
|---|---|---|
| Escape.EscapeHtml | src/extension.ts:303-304 | null or undefined input escapes to the empty string |
| Escape.EscapeHtmlIsPerChar | src/extension.ts:305-310 | the five chained replacements, ampersand first, equal escaping each character exactly once by an independent per-character table |
| Escape.EscapeHtmlSafe | src/extension.ts:303-311 | the output contains no `<`, `>`, `"` or `'`, and every `&` in it begins one of the five entities |
| Escape.EscapeHtmlRoundTrip | src/extension.ts:303-311 | decoding the five entities in the output gives back the input text, or "" for absent input |
| Escape.EscapeHtmlPlainText | src/extension.ts:305-310 | text without any of the five special characters is returned unchanged |
| Escape.EscapeHtmlNotIdempotent | src/extension.ts:306 | escaping twice encodes the ampersand twice: `&` gives `&amp;`, then `&amp;amp;` |
| Escape.EscapeHtmlExample | src/extension.ts:305-310 | `<b>&'"` escapes to `&lt;b&gt;&amp;&#039;&quot;` |
| Escape.ReplaceAll | src/extension.ts:306 | a global replace of a character that does not occur leaves the string as it is |
| JsonTree.Classify | src/extension.ts:133-138 | every scalar falls in exactly one of the four classes string, number, boolean, null, matching its kind |
| JsonTree.ArrayBlocks | src/extension.ts:116-123 | an array gives one block per element, labelled `[0]`, `[1]`, … in index order, each holding the element's own tree |
| JsonTree.ObjectBlocks | src/extension.ts:124-131 | an object gives one block per entry, labelled by its key in entry order (never re-sorted), each holding the value's tree |
| JsonTree.EmptyContainers | src/extension.ts:116-131 | an empty array and an empty object both render as `<div></div>` |
| JsonTree.StringLeafVerbatim | src/extension.ts:132-140 | a string renders as a `value-string` primitive div holding the text in double quotes, unescaped |
| JsonTree.KeyLabelVerbatim | src/extension.ts:125-130 | an entry renders as an open details block whose summary is the key, unescaped, followed by `:`, around the value's rendering |
| JsonTree.LeafCountIsScalarCount | src/extension.ts:115-141 | the block tree has exactly one leaf per scalar in the input, at every depth |
| JsonTree.UnbuildBuild | src/extension.ts:115-141 | reading the tree back gives the input, with every scalar, class, key and order, except that empty objects come back as empty arrays |
| JsonTree.EmptyArrayAndObjectAlike | src/extension.ts:116-131 | the one loss: an empty array and an empty object give the same tree |
| Text.Lower | src/extension.ts:260 | lower-casing keeps the length and maps every character by ASCII lower-casing |
| Text.Contains | src/extension.ts:263 | `includes` is true exactly when the term occurs at some position |
| Text.LexCompare | src/extension.ts:280 | the comparison is -1, 0 or 1, and 0 exactly for equal strings |
| Text.LexCompareAntisymmetric | src/extension.ts:280 | swapping the operands negates the comparison |
| Text.LexCompareTransitive | src/extension.ts:280 | "sorts before" is transitive |
| Text.NatToString | src/extension.ts:119 | an index prints as a non-empty string of decimal digits without a leading zero |
| Text.NatToStringRoundTrip | src/extension.ts:119 | reading the printed digits back gives the index |
| CsvTable.Keys | src/extension.ts:151 | the headers are the first record's column names, in order |
| CsvTable.Lookup | src/extension.ts:247 | `row[h]` is the value stored under `h`, or absent when the record has no such column |
| CsvTable.RowCells | src/extension.ts:247 | a body row has one escaped cell per header, in header order |
| CsvTable.RenderCsv | src/extension.ts:146-151 | no records gives the notice and nothing else; otherwise one option and one header cell per column, and one body row per record, in record order, holding escaped fields |
| CsvTable.EmptyRecordsGiveNotice | src/extension.ts:149 | no records yields exactly the `<p>No CSV data found.</p>` notice |
| CsvTable.CellsShowFields | src/extension.ts:243-248 | every header cell decodes to its column name, and every body cell to its field value, or "" if the field is absent or null |
| CsvTable.CellsAreEscaped | src/extension.ts:243-248 | every header and body cell is markup-safe |
| CsvTable.MissingFieldIsEmpty | src/extension.ts:247 | a record that lacks a header's column shows an empty cell there |
| CsvTable.ExtraFieldsIgnored | src/extension.ts:246-248 | fields under columns not among the headers never change a row |
| CsvTable.LookupPrefix | src/extension.ts:247 | appending fields under other columns does not change a lookup |
| CsvTable.PlainTwoColumns | src/extension.ts:236-248 | two columns whose text needs no escaping appear exactly as parsed in options, header and body |
| CsvTable.NameAgeExample | src/extension.ts:236-248 | header `name,age` with row `Alice,30` gives two options, header `[name, age]` and the single body row `[Alice, 30]` |
| RowSort.RowComparatorTies | src/extension.ts:277-281 | two rows compare equal exactly when their lower-cased cells in the column are equal |
| RowSort.RowComparatorOrder | src/extension.ts:277-281 | with direction 1 a row goes first when its text sorts first; with -1, when it sorts last |
| RowSort.RowComparatorConsistent | src/extension.ts:277-281 | the comparator is antisymmetric and transitive, as the library sort requires |
| RowSort.SortPermutes | src/extension.ts:277 | sorting only reorders: the same rows, each with its display flag, once each |
| RowSort.SortSorted | src/extension.ts:277 | after sorting no row compares greater than a row below it |
| RowSort.SortStable | src/extension.ts:277 | rows that compare equal keep their relative order |
| RowSort.SortOfSorted | src/extension.ts:277 | rows already in order are left as they are |
| RowSort.SortTwice | src/extension.ts:277 | sorting twice with the same comparator is sorting once |
| RowSort.SortedUnique | src/extension.ts:277 | two sorted arrangements of the same rows that order every tie class alike are equal |
| RowSort.SortAfterSort | src/extension.ts:277 | sorting after a sort with a comparator that ties the same rows equals sorting the original rows |
| Controller.Flip | src/extension.ts:290 | the toggle always changes the direction |
| Controller.Multiplier | src/extension.ts:293 | ascending passes 1 and descending -1 to the sort |
| Controller.FlipTwice | src/extension.ts:290-293 | two flips restore the direction; one flip negates the multiplier and changes the label |
| Controller.Filtered | src/extension.ts:261-266 | filtering keeps every row and its cells in place, and shows a row exactly when one of its cells matches |
| Controller.EmptyTermShowsRowsWithCells | src/extension.ts:260-265 | the empty term shows exactly the rows that have at least one cell |
| Controller.FilterIgnoresCase | src/extension.ts:260-263 | a term and its lower-cased form show the same rows |
| Controller.LastFilterWins | src/extension.ts:259-267 | each filter pass ignores earlier ones: only the last term decides visibility |
| Controller.FindIndex | src/extension.ts:272-273 | the result is the first header equal to the column, or -1 exactly when none is |
| Controller.ResortedOrder | src/extension.ts:270-286 | the sort keeps the same rows, orders them by the column's lower-cased text in the chosen direction, and keeps tied rows in their former order; with no matching header the rows stay as they were |
| Controller.ResortForgets | src/extension.ts:270-286 | any sort on a column followed by a sort in either direction gives what a single sort of the original rows gives |
| Controller.TwoTogglesRestore | src/extension.ts:289-294 | two toggle clicks restore the direction and leave the rows as one sort in that direction leaves them |
| Controller.FilterSortCommute | src/extension.ts:259-286 | filtering then sorting gives the same rows, with the same visibility, as sorting then filtering |
| Controller.InitialRows | src/extension.ts:246-248 | the page starts with one shown row per record, each with one cell per header |
| Controller.RenderedCellsAreRowText | src/extension.ts:247 | the text the controller reads from a cell is what the escaped cell decodes to |
| Controller.TableController.constructor | src/extension.ts:236-248 | the page starts with the records in order, all shown, the first column selected, ascending, labelled `▲ Asc` |
| Controller.TableController.SelectColumn | src/extension.ts:235-237 | choosing an option changes the selected column and nothing else |
| Controller.TableController.Filter | src/extension.ts:259-267 | after the input handler the rows are `Filtered(old rows, term)`, and the column and direction are unchanged |
| Controller.TableController.SortTable | src/extension.ts:270-286 | after `sortTable` the rows are `Resorted(old rows, headers, column, direction)`; every row keeps one cell per header |
| Controller.TableController.Toggle | src/extension.ts:289-294 | the click flips the direction and its label, then re-sorts with the new direction's multiplier |
| Controller.SortKeepsWidth | src/extension.ts:277-285 | sorting keeps every row's number of cells |
| Controller.FirstToggleDescends | src/extension.ts:238 | the first click after the page opens sorts descending and shows `▼ Desc` |
| Controller.SortExample | src/extension.ts:270-286 | values 2, 10, 1 sort ascending as 1, 10, 2: text order, not numeric |
| Controller.FilterExample | src/extension.ts:259-267 | filtering those three rows on `y` shows only the `10` row and keeps all three rows |

## Left out

- The extension's activation, command registration, the editor and file-extension
  dispatch, and the webview panel. These are host I/O.
- `JSON.parse` and `Papa.parse`. They are outside code: the model starts from the parsed
  value and the parsed records, whose field values are strings.
  - Papa stores the surplus fields of a long data row under `__parsed_extra`, as an array.
    In a later record that column is absent from the headers, so
    `CsvTable.ExtraFieldsIgnored` covers it.
  - When the first data row is the long one, `__parsed_extra` is one of the headers. Its
    cells show `String(array)`, the surplus values joined by commas. The model takes that
    joined text as the field's value; the array itself is not modelled.
- CsvTable.Keys: the column order is `Object.keys` order, the runtime's property order.
  Integer-like names come first in ascending numeric order, then the rest in insertion
  order, so `name,2023` gives the headers `2023`, `name`. The model takes the record's
  order as given and does not derive it from the header line.
- JsonTree.ObjectBlocks: an object's entries are in `Object.entries` order, with the same
  rule: `{"b":1,"1":2}` renders the block `1` first. `JsonTree.Obj` carries the entries in
  that order as given; the model does not derive it from the text.
- CsvTable.Lookup: `row[h]` is a JavaScript property read and follows the prototype chain.
  A record without a column named `toString`, `constructor`, `valueOf`, `hasOwnProperty` or
  another `Object.prototype` member shows that member's text, such as
  `function toString() { [native code] }`. The model gives `None` there. Also, a header
  named `__proto__` is never stored as an own key, so that column is missing from the
  headers; the model keeps it.
- CsvTable.MissingFieldIsEmpty: for the same reason, a missing column whose name is an
  `Object.prototype` member shows that member's text rather than "". The lemma does not
  cover that case.
- The constant page scaffolding around the generated parts: doctype, style sheet and headings.
- JavaScript number formatting. `JsonTree.Num` carries the number's display text as given.
  Values that `JSON.parse` cannot produce (`undefined`, functions) and their empty class name
  are not modelled.
- Text.LexCompare: `localeCompare` is modelled as code-point lexicographic order. Locale
  collation rules are not modelled.
- Text.Lower: `toLowerCase` lower-cases ASCII letters only. Other Unicode case mappings are
  not modelled.
- The DOM itself: the HTML parser, `innerText` and `textContent`.
  - A cell's text is taken to be its escaped content decoded (`Escape.Unescape`).
    `innerText` whitespace normalisation is not modelled.
  - Option values are inserted into the `value` attribute without escaping. The model takes
    `select.value` to be the header name, but the browser parses the attribute.
    - A bare `&`, as in `a&b`, is kept as written; only a character reference such as
      `&amp;` or `&lt` changes the value.
    - A `"` ends the value: for the header `a"b` the value is `a`. If another header is
      named `a`, `findIndex` finds that one and the sort runs on the other column; if
      none is, the sort finds no column.
    - The model does not capture either change of value.
- Controller.TableController.SortTable: when no header matches the selected column, the
  code's comparator throws on a missing cell, or is never called with fewer than two rows.
  The model gives the rows unchanged, the observable outcome in both cases. The exception
  itself is not modelled.
- Rendering with zero records produces no controller at all. The controller's constructor
  therefore requires at least one record.
- The stack depth of `jsonToTree` on very deep nesting. Dafny recursion is unbounded.
