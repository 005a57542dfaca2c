/**
 * The table that `getCsvWebviewContent` emits for an already-parsed record list:
 * a notice when there is no record, otherwise the sort options, the header row
 * and one body row per record, every piece of field text passed through
 * `EscapeHtml` once. The style sheet and page scaffolding around them are constant
 * text and are not modelled.
 */
module CsvTable {
  import opened Wrappers
  import opened Text
  import opened Escape

  /** One parsed field: its column name and its value (`None` for null or undefined). */
  datatype Field = Field(column: string, value: Option<string>)

  /** Column names are distinct within a record, as the keys of an object are. */
  predicate DistinctColumns(fields: seq<Field>) {
    forall i, j :: 0 <= i < j < |fields| ==> fields[i].column != fields[j].column
  }

  /** A parsed record: an ordered association list from column name to field value. */
  type Record = fields: seq<Field> | DistinctColumns(fields)

  /**
   * `Object.keys(record)`: the record's columns in the record's own order, which is
   * the runtime's property order (integer-like names first), taken as given.
   */
  function Keys(r: Record): (ks: seq<string>)
    ensures |ks| == |r|
    ensures forall i :: 0 <= i < |r| ==> ks[i] == r[i].column
  {
    seq(|r|, i requires 0 <= i < |r| => r[i].column)
  }

  /**
   * `record[h]`: the value of column `h`, or `None` when the record lacks it.
   * Members inherited from `Object.prototype` are not part of a record here.
   */
  function Lookup(r: Record, h: string): (v: Option<string>)
    ensures h !in Keys(r) ==> v == None
    ensures forall i :: 0 <= i < |r| && r[i].column == h ==> v == r[i].value
  {
    if |r| == 0 then None
    else if r[0].column == h then r[0].value
    else
      var rest: Record := r[1..];
      assert Keys(r) == [r[0].column] + Keys(rest);
      assert forall i :: 1 <= i < |r| ==> r[i] == rest[i - 1];
      Lookup(rest, h)
  }

  /** One `<option>` of the column selector: the raw name as value, the escaped name as text. */
  datatype SortOption = SortOption(value: string, text: string)

  /** What the page shows: the notice, or the options, the header cells and the body cells. */
  datatype CsvView =
    | NoData
    | Table(options: seq<SortOption>, header: seq<string>, body: seq<seq<string>>)

  /** The escaped cells of one body row, one per header, in header order. */
  function RowCells(r: Record, headers: seq<string>): (cells: seq<string>)
    ensures |cells| == |headers|
    ensures forall j :: 0 <= j < |headers| ==> cells[j] == EscapeHtml(Lookup(r, headers[j]))
  {
    seq(|headers|, j requires 0 <= j < |headers| => EscapeHtml(Lookup(r, headers[j])))
  }

  /** The table generated from the parsed records, or `NoData` when there is none. */
  function RenderCsv(records: seq<Record>): (view: CsvView)
    ensures view.NoData? <==> |records| == 0
    ensures view.Table? ==>
      var headers := Keys(records[0]);
      && |view.options| == |view.header| == |headers|
      && (forall j :: 0 <= j < |headers| ==>
            view.options[j] == SortOption(headers[j], EscapeHtml(Some(headers[j])))
            && view.header[j] == EscapeHtml(Some(headers[j])))
      && |view.body| == |records|
      && (forall i :: 0 <= i < |records| ==> view.body[i] == RowCells(records[i], headers))
  {
    if |records| == 0 then NoData
    else
      var headers := Keys(records[0]);
      Table(
        seq(|headers|, j requires 0 <= j < |headers| => SortOption(headers[j], EscapeHtml(Some(headers[j])))),
        seq(|headers|, j requires 0 <= j < |headers| => EscapeHtml(Some(headers[j]))),
        seq(|records|, i requires 0 <= i < |records| => RowCells(records[i], headers)))
  }

  // ----- Markup -----

  const NoDataNotice: string := "<p>No CSV data found.</p>"

  /** The `<option>` elements of the column selector. */
  function OptionsHtml(options: seq<SortOption>): string {
    Concat(seq(|options|, j requires 0 <= j < |options| =>
      "<option value=\"" + options[j].value + "\">" + options[j].text + "</option>"))
  }

  /** The header row. */
  function HeaderRowHtml(header: seq<string>): string {
    "<tr>" + Concat(seq(|header|, j requires 0 <= j < |header| => "<th>" + header[j] + "</th>")) + "</tr>"
  }

  /** The body rows. */
  function BodyHtml(body: seq<seq<string>>): string {
    Concat(seq(|body|, i requires 0 <= i < |body| =>
      "<tr>" + Concat(seq(|body[i]|, j requires 0 <= j < |body[i]| => "<td>" + body[i][j] + "</td>")) + "</tr>"))
  }

  /** The notice, or the three generated parts of the page: options, header row, body rows. */
  function CsvMarkup(view: CsvView): seq<string> {
    match view
    case NoData => [NoDataNotice]
    case Table(options, header, body) => [OptionsHtml(options), HeaderRowHtml(header), BodyHtml(body)]
  }

  // ----- Properties -----

  /** No record: only the notice, never a table. */
  lemma EmptyRecordsGiveNotice()
    ensures RenderCsv([]) == NoData
    ensures CsvMarkup(RenderCsv([])) == ["<p>No CSV data found.</p>"]
  {
  }

  /**
   * Every header and body cell decodes to the text it was made from: the column
   * name, the field value, or "" for a field that is absent or null.
   */
  lemma CellsShowFields(records: seq<Record>, i: nat, j: nat)
    requires i < |records| && j < |Keys(records[0])|
    ensures var view, headers := RenderCsv(records), Keys(records[0]);
      && Unescape(view.header[j]) == headers[j]
      && Unescape(view.body[i][j]) == Lookup(records[i], headers[j]).GetOr("")
  {
    var headers := Keys(records[0]);
    EscapeHtmlRoundTrip(Some(headers[j]));
    EscapeHtmlRoundTrip(Lookup(records[i], headers[j]));
  }

  /** Every generated cell is safe markup: no `<`, `>`, `"`, `'`, and only entity ampersands. */
  lemma CellsAreEscaped(records: seq<Record>)
    requires |records| > 0
    ensures var view := RenderCsv(records);
      && (forall j :: 0 <= j < |view.header| ==> MarkupSafe(view.header[j]))
      && (forall i, j :: 0 <= i < |view.body| && 0 <= j < |view.body[i]| ==> MarkupSafe(view.body[i][j]))
  {
    var view, headers := RenderCsv(records), Keys(records[0]);
    forall j | 0 <= j < |view.header| ensures MarkupSafe(view.header[j]) {
      EscapeHtmlSafe(Some(headers[j]));
    }
    forall i, j | 0 <= i < |view.body| && 0 <= j < |view.body[i]| ensures MarkupSafe(view.body[i][j]) {
      EscapeHtmlSafe(Lookup(records[i], headers[j]));
    }
  }

  /** A column the record lacks shows as an empty cell. */
  lemma MissingFieldIsEmpty(records: seq<Record>, i: nat, j: nat)
    requires i < |records| && j < |Keys(records[0])|
    requires Keys(records[0])[j] !in Keys(records[i])
    ensures RenderCsv(records).body[i][j] == ""
  {
  }

  /** Fields under columns the first record lacks never reach the table. */
  lemma {:induction false} ExtraFieldsIgnored(r: Record, extra: seq<Field>, headers: seq<string>)
    requires DistinctColumns(r + extra)
    requires forall f :: f in extra ==> f.column !in headers
    ensures RowCells(r + extra, headers) == RowCells(r, headers)
  {
    var full: Record := r + extra;
    forall j | 0 <= j < |headers| ensures Lookup(full, headers[j]) == Lookup(r, headers[j]) {
      LookupPrefix(r, extra, headers[j]);
    }
  }

  lemma {:induction false} LookupPrefix(r: Record, extra: seq<Field>, h: string)
    requires DistinctColumns(r + extra)
    requires forall f :: f in extra ==> f.column != h
    ensures Lookup(r + extra, h) == Lookup(r, h)
  {
    var full: Record := r + extra;
    if exists i :: 0 <= i < |r| && r[i].column == h {
      var i :| 0 <= i < |r| && r[i].column == h;
      assert full[i] == r[i];
    } else {
      forall k | 0 <= k < |full| ensures full[k].column != h {
        if k >= |r| {
          assert full[k] == extra[k - |r|];
          assert full[k] in extra;
        } else {
          assert full[k] == r[k];
        }
      }
      assert h !in Keys(full);
      assert h !in Keys(r);
    }
  }

  /** Two columns whose names and values need no escaping appear exactly as parsed. */
  lemma PlainTwoColumns(r: Record, c1: string, c2: string, v1: string, v2: string)
    requires r == [Field(c1, Some(v1)), Field(c2, Some(v2))]
    requires Plain(c1) && Plain(c2) && Plain(v1) && Plain(v2)
    ensures RenderCsv([r]) == Table([SortOption(c1, c1), SortOption(c2, c2)], [c1, c2], [[v1, v2]])
  {
    assert Keys(r) == [c1, c2];
    PlainHeaders(r, c1, c2);
    PlainCells(r, c1, c2, v1, v2);
  }

  lemma PlainHeaders(r: Record, c1: string, c2: string)
    requires Keys(r) == [c1, c2] && Plain(c1) && Plain(c2)
    ensures RenderCsv([r]).options == [SortOption(c1, c1), SortOption(c2, c2)]
    ensures RenderCsv([r]).header == [c1, c2]
  {
    EscapeHtmlPlainText(c1);
    EscapeHtmlPlainText(c2);
  }

  lemma PlainCells(r: Record, c1: string, c2: string, v1: string, v2: string)
    requires r == [Field(c1, Some(v1)), Field(c2, Some(v2))]
    requires Plain(v1) && Plain(v2)
    ensures RowCells(r, [c1, c2]) == [v1, v2]
  {
    EscapeHtmlPlainText(v1);
    EscapeHtmlPlainText(v2);
    assert r[0].column == c1 && r[1].column == c2;
    assert Lookup(r, c1) == Some(v1) && Lookup(r, c2) == Some(v2);
  }

  /** Text in which `EscapeHtml` finds nothing to replace. */
  predicate Plain(s: string) {
    forall i :: 0 <= i < |s| ==> s[i] != '&' && !Reserved(s[i])
  }

  /** The two-column example: header `name,age`, one record `Alice,30`. */
  lemma NameAgeExample(r: Record)
    requires r == [Field("name", Some("Alice")), Field("age", Some("30"))]
    ensures RenderCsv([r]) == Table(
      [SortOption("name", "name"), SortOption("age", "age")],
      ["name", "age"],
      [["Alice", "30"]])
  {
    PlainTwoColumns(r, "name", "age", "Alice", "30");
  }
}
