/**
 * The script embedded in the table page: the filter box, the column selector and
 * the sort toggle, acting on the rows of the table body. The page's elements are
 * the fields of `TableController`; each event handler is one of its methods.
 * A row is its cells' text (what `innerText` gives back for an escaped cell) and
 * whether it is displayed; rows move with their display flag when sorted.
 */
module Controller {
  import opened Wrappers
  import opened Text
  import opened Escape
  import opened CsvTable
  import opened RowSort

  /** `toggle.dataset.dir`. */
  datatype Direction = Asc | Desc

  function Flip(d: Direction): (e: Direction)
    ensures e != d
  {
    if d == Asc then Desc else Asc
  }

  /** The `direction` argument passed to `sortTable`. */
  function Multiplier(d: Direction): (m: int)
    ensures IsDirection(m)
    ensures m == 1 <==> d == Asc
  {
    if d == Asc then 1 else -1
  }

  /** The toggle button's label for a direction. */
  function ButtonText(d: Direction): string {
    if d == Asc then "\U{25B2} Asc" else "\U{25BC} Desc"
  }

  /** Flipping twice gives back the direction, the multiplier and the label. */
  lemma FlipTwice(d: Direction)
    ensures Flip(Flip(d)) == d
    ensures Multiplier(Flip(d)) == -Multiplier(d)
    ensures ButtonText(Flip(d)) != ButtonText(d)
  {
  }

  // ----- Filtering -----

  /** Some cell's lower-cased text contains the lower-cased term. */
  predicate RowMatches(cells: seq<string>, term: string) {
    exists j :: 0 <= j < |cells| && Contains(Lower(cells[j]), Lower(term))
  }

  /** The row's visibility as one filter pass sets it. */
  function Refilter(r: RowState, term: string): RowState {
    RowState(r.cells, RowMatches(r.cells, term))
  }

  /** The rows after the filter handler has run over all of them. */
  function Filtered(rows: seq<RowState>, term: string): (r: seq<RowState>)
    ensures |r| == |rows|
    ensures forall i :: 0 <= i < |rows| ==> r[i].cells == rows[i].cells
    ensures forall i :: 0 <= i < |rows| ==> (r[i].shown <==> RowMatches(rows[i].cells, term))
  {
    seq(|rows|, i requires 0 <= i < |rows| => Refilter(rows[i], term))
  }

  /** The empty term shows exactly the rows that have a cell; a row without cells never shows. */
  lemma EmptyTermShowsRowsWithCells(rows: seq<RowState>)
    ensures forall i :: 0 <= i < |rows| ==> (Filtered(rows, "")[i].shown <==> |rows[i].cells| > 0)
  {
    forall i | 0 <= i < |rows| && |rows[i].cells| > 0 ensures RowMatches(rows[i].cells, "") {
      var c := Lower(rows[i].cells[0]);
      assert OccursAt(c, Lower(""), 0);
    }
  }

  /** Case does not matter: a term and its lower-cased form show the same rows. */
  lemma {:induction false} FilterIgnoresCase(rows: seq<RowState>, term: string)
    ensures Filtered(rows, Lower(term)) == Filtered(rows, term)
  {
    LowerIdempotent(term);
  }

  lemma LowerIdempotent(s: string)
    ensures Lower(Lower(s)) == Lower(s)
  {
  }

  /** Each filter pass starts afresh: only the last term typed decides what is shown. */
  lemma LastFilterWins(rows: seq<RowState>, t1: string, t2: string)
    ensures Filtered(Filtered(rows, t1), t2) == Filtered(rows, t2)
  {
  }

  // ----- Sorting -----

  /**
   * `findIndex` over the header cells: the first position whose text is `column`,
   * or -1. A header cell's text is its column name (`CellsShowFields`).
   */
  function FindIndex(headers: seq<string>, column: string): (r: int)
    ensures -1 <= r < |headers|
    ensures r == -1 <==> column !in headers
    ensures r >= 0 ==> headers[r] == column && forall k :: 0 <= k < r ==> headers[k] != column
  {
    if |headers| == 0 then -1
    else if headers[0] == column then 0
    else
      var r := FindIndex(headers[1..], column);
      if r < 0 then -1 else r + 1
  }

  /**
   * The row order `sortTable(direction)` leaves. With no matching header the
   * comparator reads a cell that does not exist and throws before the body is
   * touched, or, with fewer than two rows, is never called; the rows stay as they are.
   */
  function Resorted(rows: seq<RowState>, headers: seq<string>, column: string, direction: int): seq<RowState>
    requires IsDirection(direction)
  {
    var idx := FindIndex(headers, column);
    if idx < 0 then rows else StableSort(rows, RowComparator(idx, direction))
  }

  /**
   * What the sort promises: the same rows, ordered by the lower-cased text of
   * the column (ascending for 1, descending for -1), rows with equal text in
   * their former order.
   */
  lemma ResortedOrder(rows: seq<RowState>, headers: seq<string>, column: string, direction: int)
    requires IsDirection(direction)
    ensures var r, idx := Resorted(rows, headers, column, direction), FindIndex(headers, column);
      && multiset(r) == multiset(rows)
      && (idx >= 0 ==> forall i, j :: 0 <= i < j < |r| ==>
            direction * LexCompare(SortKey(r[i], idx), SortKey(r[j], idx)) <= 0)
      && (idx >= 0 ==> forall y :: Ties(r, RowComparator(idx, direction), y) == Ties(rows, RowComparator(idx, direction), y))
      && (idx < 0 ==> r == rows)
  {
    var idx := FindIndex(headers, column);
    if idx >= 0 {
      var cmp := RowComparator(idx, direction);
      RowComparatorConsistent(idx, direction);
      SortPermutes(rows, cmp);
      SortSorted(rows, cmp);
      forall y ensures Ties(StableSort(rows, cmp), cmp, y) == Ties(rows, cmp, y) {
        SortStable(rows, cmp, y);
      }
    }
  }

  /**
   * Each sort on a column forgets the earlier ones on that column: sorting in
   * either direction after any sort gives what sorting the original rows gives.
   */
  lemma ResortForgets(rows: seq<RowState>, headers: seq<string>, column: string, d1: int, d2: int)
    requires IsDirection(d1) && IsDirection(d2)
    ensures Resorted(Resorted(rows, headers, column, d1), headers, column, d2)
         == Resorted(rows, headers, column, d2)
  {
    var idx := FindIndex(headers, column);
    if idx >= 0 {
      var c1, c2 := RowComparator(idx, d1), RowComparator(idx, d2);
      RowComparatorConsistent(idx, d1);
      RowComparatorConsistent(idx, d2);
      forall a, b ensures c1(a, b) == 0 <==> c2(a, b) == 0 {
        RowComparatorTies(idx, d1, a, b);
        RowComparatorTies(idx, d2, a, b);
      }
      SortAfterSort(rows, c1, c2);
    }
  }

  /** Two clicks of the toggle restore the direction and the order one sort in it gives. */
  lemma TwoTogglesRestore(rows: seq<RowState>, headers: seq<string>, column: string, d: Direction)
    ensures Flip(Flip(d)) == d
    ensures var once := Resorted(rows, headers, column, Multiplier(Flip(d)));
      Resorted(once, headers, column, Multiplier(Flip(Flip(d)))) == Resorted(rows, headers, column, Multiplier(d))
  {
    ResortForgets(rows, headers, column, Multiplier(Flip(d)), Multiplier(d));
  }

  /** The comparator reads only cells, so hidden rows are sorted like shown ones. */
  lemma RefilterKeepsOrder(idx: nat, direction: int, term: string, a: RowState, b: RowState)
    ensures RowComparator(idx, direction)(Refilter(a, term), Refilter(b, term)) == RowComparator(idx, direction)(a, b)
  {
  }

  lemma {:induction false} InsertRefilter(sorted: seq<RowState>, x: RowState, idx: nat, direction: int, term: string)
    ensures var cmp := RowComparator(idx, direction);
      Filtered(Insert(sorted, x, cmp), term) == Insert(Filtered(sorted, term), Refilter(x, term), cmp)
  {
    var cmp := RowComparator(idx, direction);
    if |sorted| > 0 {
      RefilterKeepsOrder(idx, direction, term, x, sorted[0]);
      if cmp(x, sorted[0]) >= 0 {
        InsertRefilter(sorted[1..], x, idx, direction, term);
        assert Filtered(sorted, term)[1..] == Filtered(sorted[1..], term);
      }
    }
  }

  /**
   * Filtering and sorting commute: a row's visibility is decided by its own cells
   * and travels with it when the rows are reordered.
   */
  lemma {:induction false} FilterSortCommute(rows: seq<RowState>, headers: seq<string>, column: string, direction: int, term: string)
    requires IsDirection(direction)
    ensures Resorted(Filtered(rows, term), headers, column, direction)
         == Filtered(Resorted(rows, headers, column, direction), term)
  {
    var idx := FindIndex(headers, column);
    if idx >= 0 {
      SortRefilter(rows, idx, direction, term);
    }
  }

  lemma {:induction false} SortRefilter(rows: seq<RowState>, idx: nat, direction: int, term: string)
    ensures var cmp := RowComparator(idx, direction);
      StableSort(Filtered(rows, term), cmp) == Filtered(StableSort(rows, cmp), term)
  {
    if |rows| > 0 {
      var cmp := RowComparator(idx, direction);
      var init, last := rows[..|rows| - 1], rows[|rows| - 1];
      var f := Filtered(rows, term);
      assert f[..|f| - 1] == Filtered(init, term);
      SortRefilter(init, idx, direction, term);
      InsertRefilter(StableSort(init, cmp), last, idx, direction, term);
    }
  }

  // ----- The page's rows -----

  /** The body rows as the page first shows them: every cell's text, all displayed. */
  function InitialRows(records: seq<Record>): (rows: seq<RowState>)
    requires |records| > 0
    ensures |rows| == |records|
    ensures forall i :: 0 <= i < |rows| ==> rows[i].shown && |rows[i].cells| == |Keys(records[0])|
  {
    var headers := Keys(records[0]);
    seq(|records|, i requires 0 <= i < |records| =>
      RowState(seq(|headers|, j requires 0 <= j < |headers| => Lookup(records[i], headers[j]).GetOr("")), true))
  }

  /** The controller sees in each cell exactly the text the rendered, escaped cell decodes to. */
  lemma RenderedCellsAreRowText(records: seq<Record>, i: nat, j: nat)
    requires i < |records| && j < |Keys(records[0])|
    ensures Unescape(RenderCsv(records).body[i][j]) == InitialRows(records)[i].cells[j]
  {
    CellsShowFields(records, i, j);
  }

  class TableController {
    /** The header cells' text. */
    const headers: seq<string>
    /** The body rows, in their displayed order. */
    var rows: seq<RowState>
    /** `select.value`: the column chosen for sorting. */
    var column: string
    /** `toggle.dataset.dir`. */
    var dir: Direction
    /** `toggle.textContent`. */
    var buttonText: string

    ghost predicate Valid()
      reads this
    {
      && (forall i :: 0 <= i < |rows| ==> |rows[i].cells| == |headers|)
      && (if |headers| == 0 then column == "" else column in headers)
      && buttonText == ButtonText(dir)
    }

    /** The page as generated: records in order, all rows shown, first column selected, ascending. */
    constructor (records: seq<Record>)
      requires |records| > 0
      ensures Valid()
      ensures headers == Keys(records[0])
      ensures rows == InitialRows(records)
      ensures column == (if |headers| > 0 then headers[0] else "")
      ensures dir == Asc && buttonText == "\U{25B2} Asc"
    {
      headers := Keys(records[0]);
      rows := InitialRows(records);
      column := if |Keys(records[0])| > 0 then Keys(records[0])[0] else "";
      dir := Asc;
      buttonText := ButtonText(Asc);
    }

    /** The user picks another column; nothing is re-sorted until the toggle is clicked. */
    method SelectColumn(j: nat)
      requires Valid() && j < |headers|
      modifies this
      ensures Valid()
      ensures column == headers[j]
      ensures rows == old(rows) && dir == old(dir) && buttonText == old(buttonText)
    {
      column := headers[j];
    }

    /** The `input` handler: each row, in turn, is shown exactly when one of its cells matches. */
    method Filter(term: string)
      requires Valid()
      modifies this
      ensures Valid()
      ensures rows == Filtered(old(rows), term)
      ensures column == old(column) && dir == old(dir) && buttonText == old(buttonText)
    {
      ghost var target := Filtered(rows, term);
      var i := 0;
      while i < |rows|
        invariant 0 <= i <= |rows| == |target|
        invariant forall k :: 0 <= k < i ==> rows[k] == target[k]
        invariant forall k :: i <= k < |rows| ==> Refilter(rows[k], term) == target[k]
        invariant column == old(column) && dir == old(dir) && buttonText == old(buttonText)
      {
        rows := rows[i := Refilter(rows[i], term)];
        i := i + 1;
      }
      assert rows == target;
    }

    /** `sortTable(direction)`: sorts the rows, empties the body and appends them back in order. */
    method SortTable(direction: int)
      requires Valid() && IsDirection(direction)
      modifies this
      ensures Valid()
      ensures rows == Resorted(old(rows), headers, column, direction)
      ensures column == old(column) && dir == old(dir) && buttonText == old(buttonText)
    {
      var idx := FindIndex(headers, column);
      if idx < 0 {
        return;
      }
      var cmp := RowComparator(idx, direction);
      var sorted := StableSort(rows, cmp);
      SortKeepsWidth(rows, cmp, |headers|);
      rows := [];
      var k := 0;
      while k < |sorted|
        invariant 0 <= k <= |sorted|
        invariant |rows| == k && forall j :: 0 <= j < k ==> rows[j] == sorted[j]
        invariant column == old(column) && dir == old(dir) && buttonText == old(buttonText)
      {
        rows := rows + [sorted[k]];
        k := k + 1;
      }
      assert rows == sorted;
    }

    /** The toggle's `click` handler: flip the direction and its label, then sort. */
    method Toggle()
      requires Valid()
      modifies this
      ensures Valid()
      ensures dir == Flip(old(dir)) && buttonText == ButtonText(dir)
      ensures rows == Resorted(old(rows), headers, column, Multiplier(dir))
      ensures column == old(column)
    {
      dir := Flip(dir);
      buttonText := ButtonText(dir);
      SortTable(Multiplier(dir));
    }
  }

  /** Sorting keeps every row's number of cells. */
  lemma SortKeepsWidth(rows: seq<RowState>, cmp: Comparator, w: nat)
    requires forall i :: 0 <= i < |rows| ==> |rows[i].cells| == w
    ensures forall i :: 0 <= i < |StableSort(rows, cmp)| ==> |StableSort(rows, cmp)[i].cells| == w
  {
    var s := StableSort(rows, cmp);
    SortPermutes(rows, cmp);
    forall i | 0 <= i < |s| ensures |s[i].cells| == w {
      assert s[i] in multiset(s);
      assert s[i] in rows;
    }
  }

  /** The first click after the page opens sorts descending and relabels the button. */
  lemma FirstToggleDescends(rows: seq<RowState>, headers: seq<string>, column: string)
    ensures Flip(Asc) == Desc && ButtonText(Flip(Asc)) == "\U{25BC} Desc"
    ensures Resorted(rows, headers, column, Multiplier(Flip(Asc)))
         == Resorted(rows, headers, column, -1)
  {
  }

  /** Column `a` holding 2, 10, 1 sorts ascending as 1, 10, 2: text order, not numeric. */
  lemma SortExample(r2: RowState, r10: RowState, r1: RowState)
    requires r2 == RowState(["2", "x"], true)
    requires r10 == RowState(["10", "y"], true)
    requires r1 == RowState(["1", "z"], true)
    ensures Resorted([r2, r10, r1], ["a", "b"], "a", 1) == [r1, r10, r2]
  {
    var cmp := RowComparator(0, 1);
    assert FindIndex(["a", "b"], "a") == 0;
    assert SortKey(r2, 0) == "2" && SortKey(r10, 0) == "10" && SortKey(r1, 0) == "1";
    assert LexCompare("10", "2") == -1;
    assert LexCompare("1", "10") == -1;
    var rows := [r2, r10, r1];
    assert rows[..2] == [r2, r10] && [r2, r10][..1] == [r2] && [r2][..0] == [];
    assert StableSort([r2], cmp) == [r2];
    assert StableSort([r2, r10], cmp) == Insert([r2], r10, cmp) == [r10, r2];
    assert StableSort(rows, cmp) == Insert([r10, r2], r1, cmp) == [r1, r10, r2];
  }

  /** Filtering those rows on `y` shows only the `10` row and keeps all three. */
  lemma FilterExample(r1: RowState, r10: RowState, r2: RowState)
    requires r2 == RowState(["2", "x"], true)
    requires r10 == RowState(["10", "y"], true)
    requires r1 == RowState(["1", "z"], true)
    ensures Filtered([r1, r10, r2], "y") == [r1.(shown := false), r10, r2.(shown := false)]
  {
    NoMatch("1", "y");
    NoMatch("z", "y");
    NoMatch("2", "y");
    NoMatch("x", "y");
    assert Contains(Lower("y"), Lower("y"));
    TwoCells("1", "z", "y");
    TwoCells("10", "y", "y");
    TwoCells("2", "x", "y");
  }

  /** A one-character cell never contains a different one-character term. */
  lemma NoMatch(c: string, t: string)
    requires |c| == 1 && |t| == 1 && LowerChar(c[0]) != LowerChar(t[0])
    ensures !Contains(Lower(c), Lower(t))
  {
  }

  /** A two-cell row matches when either cell does. */
  lemma TwoCells(a: string, b: string, t: string)
    ensures RowMatches([a, b], t) <==> Contains(Lower(a), Lower(t)) || Contains(Lower(b), Lower(t))
  {
    var cells := [a, b];
    assert cells[0] == a && cells[1] == b;
  }
}
