/**
 * The ordering step of `sortTable`: `rows.sort((a, b) => A.localeCompare(B) * direction)`
 * where `A` and `B` are the lower-cased texts of the selected column. The library
 * sort takes any consistent comparator and is stable; it is modelled by insertion
 * sort over a comparator parameter, and the row comparator is shown consistent.
 */
module RowSort {
  import opened Text

  /** A body row: the text of its cells and whether it is displayed. */
  datatype RowState = RowState(cells: seq<string>, shown: bool)

  type Comparator = (RowState, RowState) -> int

  /** What the library sort demands of a comparator: antisymmetric and transitive. */
  ghost predicate Consistent(cmp: Comparator) {
    && (forall a, b :: cmp(b, a) == -cmp(a, b))
    && (forall a, b, c {:trigger Triple(a, b, c)} :: Triple(a, b, c) && cmp(a, b) <= 0 && cmp(b, c) <= 0 ==> cmp(a, c) <= 0)
  }

  /**
   * Names three rows; transitivity is stated for named triples so that the
   * solver applies it only where a proof asks for it.
   */
  ghost predicate Triple(a: RowState, b: RowState, c: RowState) {
    true
  }

  /** Puts `x` after every row of `sorted` that does not compare greater than it. */
  function Insert(sorted: seq<RowState>, x: RowState, cmp: Comparator): seq<RowState> {
    if |sorted| == 0 then [x]
    else if cmp(x, sorted[0]) < 0 then [x] + sorted
    else [sorted[0]] + Insert(sorted[1..], x, cmp)
  }

  /** `rows.sort(cmp)`, inserting the rows one by one in their current order. */
  function StableSort(rows: seq<RowState>, cmp: Comparator): seq<RowState> {
    if |rows| == 0 then []
    else Insert(StableSort(rows[..|rows| - 1], cmp), rows[|rows| - 1], cmp)
  }

  /** No row compares greater than a row after it. */
  ghost predicate Sorted(rows: seq<RowState>, cmp: Comparator) {
    forall i, j :: 0 <= i < j < |rows| ==> cmp(rows[i], rows[j]) <= 0
  }

  /** The rows that compare equal to `x`, in their order. */
  function Ties(rows: seq<RowState>, cmp: Comparator, x: RowState): seq<RowState> {
    if |rows| == 0 then []
    else (if cmp(rows[0], x) == 0 then [rows[0]] else []) + Ties(rows[1..], cmp, x)
  }

  // ----- The comparator of `sortTable` -----

  /** `row.cells[idx].innerText.toLowerCase()`; a missing cell reads as "". */
  function SortKey(r: RowState, idx: nat): string {
    Lower(if idx < |r.cells| then r.cells[idx] else "")
  }

  /** `direction` is 1 for ascending and -1 for descending. */
  predicate IsDirection(direction: int) {
    direction == 1 || direction == -1
  }

  /** `(a, b) => A.localeCompare(B) * direction` on column `idx`. */
  function RowComparator(idx: nat, direction: int): Comparator {
    (a: RowState, b: RowState) => LexCompare(SortKey(a, idx), SortKey(b, idx)) * direction
  }

  /** Rows tie exactly when their lower-cased cells in the column are equal. */
  lemma RowComparatorTies(idx: nat, direction: int, a: RowState, b: RowState)
    requires IsDirection(direction)
    ensures RowComparator(idx, direction)(a, b) == 0 <==> SortKey(a, idx) == SortKey(b, idx)
  {
  }

  /** Ascending orders by the lower-cased text, descending by the reverse order. */
  lemma RowComparatorOrder(idx: nat, direction: int, a: RowState, b: RowState)
    requires IsDirection(direction)
    ensures RowComparator(idx, direction)(a, b) < 0
        <==> (if direction == 1 then LexCompare(SortKey(a, idx), SortKey(b, idx)) < 0
              else LexCompare(SortKey(b, idx), SortKey(a, idx)) < 0)
  {
    LexCompareAntisymmetric(SortKey(a, idx), SortKey(b, idx));
  }

  lemma RowComparatorConsistent(idx: nat, direction: int)
    requires IsDirection(direction)
    ensures Consistent(RowComparator(idx, direction))
  {
    var cmp := RowComparator(idx, direction);
    forall a, b ensures cmp(b, a) == -cmp(a, b) {
      LexCompareAntisymmetric(SortKey(a, idx), SortKey(b, idx));
    }
    forall a, b, c | Triple(a, b, c) && cmp(a, b) <= 0 && cmp(b, c) <= 0 ensures cmp(a, c) <= 0 {
      var ka, kb, kc := SortKey(a, idx), SortKey(b, idx), SortKey(c, idx);
      if ka != kb && kb != kc {
        if direction == 1 {
          LexCompareTransitive(ka, kb, kc);
        } else {
          LexCompareAntisymmetric(ka, kb);
          LexCompareAntisymmetric(kb, kc);
          LexCompareAntisymmetric(ka, kc);
          LexCompareTransitive(kc, kb, ka);
        }
      }
    }
  }

  // ----- Consequences of consistency -----

  /** A step down followed by a step that does not go up is a step down. */
  lemma StrictThenWeak(cmp: Comparator, a: RowState, b: RowState, c: RowState)
    requires Consistent(cmp)
    requires cmp(a, b) < 0 && cmp(b, c) <= 0
    ensures cmp(a, c) < 0
  {
    assert Triple(a, b, c) && Triple(b, c, a);
  }

  // ----- Insertion -----

  /** Where `Insert` puts `x`: before the first row that compares greater than it. */
  function InsertPos(sorted: seq<RowState>, x: RowState, cmp: Comparator): (p: nat)
    ensures p <= |sorted|
  {
    if |sorted| == 0 || cmp(x, sorted[0]) < 0 then 0
    else 1 + InsertPos(sorted[1..], x, cmp)
  }

  lemma InsertSplit(sorted: seq<RowState>, x: RowState, cmp: Comparator)
    ensures var p := InsertPos(sorted, x, cmp);
      && Insert(sorted, x, cmp) == sorted[..p] + [x] + sorted[p..]
      && (forall i :: 0 <= i < p ==> cmp(x, sorted[i]) >= 0)
      && (p < |sorted| ==> cmp(x, sorted[p]) < 0)
  {
    InsertAt(sorted, x, cmp);
    InsertPosBounds(sorted, x, cmp);
  }

  lemma {:induction false} InsertAt(sorted: seq<RowState>, x: RowState, cmp: Comparator)
    ensures var p := InsertPos(sorted, x, cmp);
      Insert(sorted, x, cmp) == sorted[..p] + [x] + sorted[p..]
  {
    if |sorted| > 0 && cmp(x, sorted[0]) >= 0 {
      var p := InsertPos(sorted, x, cmp);
      assert p == 1 + InsertPos(sorted[1..], x, cmp);
      InsertAt(sorted[1..], x, cmp);
      assert Insert(sorted, x, cmp) == [sorted[0]] + Insert(sorted[1..], x, cmp);
      assert sorted[1..][..p - 1] == sorted[1..p];
      assert sorted[1..][p - 1..] == sorted[p..];
      assert sorted[..p] == [sorted[0]] + sorted[1..p];
    } else if |sorted| > 0 {
      assert sorted[..0] == [] && sorted[0..] == sorted;
    }
  }

  /** `x` goes after every row it does not compare below, and before the first it does. */
  lemma {:induction false} InsertPosBounds(sorted: seq<RowState>, x: RowState, cmp: Comparator)
    ensures var p := InsertPos(sorted, x, cmp);
      && (forall i :: 0 <= i < p ==> cmp(x, sorted[i]) >= 0)
      && (p < |sorted| ==> cmp(x, sorted[p]) < 0)
  {
    if |sorted| > 0 && cmp(x, sorted[0]) >= 0 {
      var p := InsertPos(sorted, x, cmp);
      assert p == 1 + InsertPos(sorted[1..], x, cmp);
      InsertPosBounds(sorted[1..], x, cmp);
      forall i | 0 <= i < p ensures cmp(x, sorted[i]) >= 0 {
        if i > 0 {
          assert sorted[i] == sorted[1..][i - 1];
        }
      }
    }
  }

  /** Element by element: rows before the insertion point, then `x`, then the rest. */
  lemma InsertIndex(sorted: seq<RowState>, x: RowState, cmp: Comparator)
    ensures var r, p := Insert(sorted, x, cmp), InsertPos(sorted, x, cmp);
      && |r| == |sorted| + 1
      && r[p] == x
      && (forall k :: 0 <= k < p ==> r[k] == sorted[k])
      && (forall k :: p < k < |r| ==> r[k] == sorted[k - 1])
  {
    InsertSplit(sorted, x, cmp);
  }

  lemma InsertSorted(sorted: seq<RowState>, x: RowState, cmp: Comparator)
    requires Consistent(cmp)
    requires Sorted(sorted, cmp)
    ensures Sorted(Insert(sorted, x, cmp), cmp)
  {
    var p := InsertPos(sorted, x, cmp);
    InsertSplit(sorted, x, cmp);
    InsertIndex(sorted, x, cmp);
    var r := Insert(sorted, x, cmp);
    forall i, j | 0 <= i < j < |r| ensures cmp(r[i], r[j]) <= 0 {
      if j < p {
        assert cmp(sorted[i], sorted[j]) <= 0;
      } else if p < i {
        assert cmp(sorted[i - 1], sorted[j - 1]) <= 0;
      } else if i < p && p < j {
        assert cmp(sorted[i], sorted[j - 1]) <= 0;
      } else if j == p {
        assert cmp(x, sorted[i]) >= 0;
      } else if j - 1 > p {
        StrictThenWeak(cmp, x, sorted[p], sorted[j - 1]);
      }
    }
  }

  lemma {:induction false} TiesAppend(a: seq<RowState>, b: seq<RowState>, cmp: Comparator, x: RowState)
    ensures Ties(a + b, cmp, x) == Ties(a, cmp, x) + Ties(b, cmp, x)
  {
    if |a| > 0 {
      assert (a + b)[1..] == a[1..] + b;
      TiesAppend(a[1..], b, cmp, x);
    } else {
      assert a + b == b;
    }
  }

  /** Rows that all compare greater than `x` hold none tied with `x`. */
  lemma {:induction false} TiesAbove(rows: seq<RowState>, x: RowState, cmp: Comparator, y: RowState)
    requires Consistent(cmp)
    requires cmp(x, y) == 0
    requires forall i :: 0 <= i < |rows| ==> cmp(x, rows[i]) < 0
    ensures Ties(rows, cmp, y) == []
  {
    if |rows| > 0 {
      assert Triple(rows[0], y, x);
      TiesAbove(rows[1..], x, cmp, y);
    }
  }

  /** If `x` goes before the first row of a sorted run, no row of the run ties with `x`. */
  lemma NoTiesAbove(sorted: seq<RowState>, x: RowState, cmp: Comparator, y: RowState)
    requires Consistent(cmp)
    requires Sorted(sorted, cmp)
    requires |sorted| > 0 && cmp(x, sorted[0]) < 0 && cmp(x, y) == 0
    ensures Ties(sorted, cmp, y) == []
  {
    forall i | 0 <= i < |sorted| ensures cmp(x, sorted[i]) < 0 {
      if i > 0 {
        StrictThenWeak(cmp, x, sorted[0], sorted[i]);
      }
    }
    TiesAbove(sorted, x, cmp, y);
  }

  /** Inserting `x` puts it after every row already there that ties with it. */
  lemma {:induction false} InsertStable(sorted: seq<RowState>, x: RowState, cmp: Comparator, y: RowState)
    requires Consistent(cmp)
    requires Sorted(sorted, cmp)
    ensures Ties(Insert(sorted, x, cmp), cmp, y) == Ties(sorted, cmp, y) + Ties([x], cmp, y)
  {
    if |sorted| == 0 {
    } else if cmp(x, sorted[0]) < 0 {
      TiesAppend([x], sorted, cmp, y);
      if cmp(x, y) == 0 {
        NoTiesAbove(sorted, x, cmp, y);
      }
    } else {
      InsertStable(sorted[1..], x, cmp, y);
      TiesAppend([sorted[0]], Insert(sorted[1..], x, cmp), cmp, y);
      TiesAppend([sorted[0]], sorted[1..], cmp, y);
      assert sorted == [sorted[0]] + sorted[1..];
    }
  }

  // ----- What the sort guarantees -----

  /** The sort only reorders: every row, with its visibility flag, is still there once. */
  lemma {:induction false} SortPermutes(rows: seq<RowState>, cmp: Comparator)
    ensures multiset(StableSort(rows, cmp)) == multiset(rows)
  {
    if |rows| > 0 {
      var init, last := rows[..|rows| - 1], rows[|rows| - 1];
      SortPermutes(init, cmp);
      InsertPermutes(StableSort(init, cmp), last, cmp);
      assert rows == init + [last];
    }
  }

  lemma {:induction false} InsertPermutes(sorted: seq<RowState>, x: RowState, cmp: Comparator)
    ensures multiset(Insert(sorted, x, cmp)) == multiset(sorted) + multiset{x}
  {
    if |sorted| > 0 && cmp(x, sorted[0]) >= 0 {
      InsertPermutes(sorted[1..], x, cmp);
      assert sorted == [sorted[0]] + sorted[1..];
    }
  }

  /** After the sort, no row compares greater than a row below it. */
  lemma {:induction false} SortSorted(rows: seq<RowState>, cmp: Comparator)
    requires Consistent(cmp)
    ensures Sorted(StableSort(rows, cmp), cmp)
  {
    if |rows| > 0 {
      SortSorted(rows[..|rows| - 1], cmp);
      InsertSorted(StableSort(rows[..|rows| - 1], cmp), rows[|rows| - 1], cmp);
    }
  }

  /** Stability: the rows that tie with any given row keep their relative order. */
  lemma {:induction false} SortStable(rows: seq<RowState>, cmp: Comparator, y: RowState)
    requires Consistent(cmp)
    ensures Ties(StableSort(rows, cmp), cmp, y) == Ties(rows, cmp, y)
  {
    if |rows| > 0 {
      var init, last := rows[..|rows| - 1], rows[|rows| - 1];
      SortStable(init, cmp, y);
      SortSorted(init, cmp);
      InsertStable(StableSort(init, cmp), last, cmp, y);
      assert rows == init + [last];
      TiesAppend(init, [last], cmp, y);
    }
  }

  lemma {:induction false} InsertLast(sorted: seq<RowState>, x: RowState, cmp: Comparator)
    requires Consistent(cmp)
    requires forall i :: 0 <= i < |sorted| ==> cmp(sorted[i], x) <= 0
    ensures Insert(sorted, x, cmp) == sorted + [x]
  {
    if |sorted| > 0 {
      assert cmp(x, sorted[0]) >= 0;
      InsertLast(sorted[1..], x, cmp);
      assert sorted == [sorted[0]] + sorted[1..];
    }
  }

  /** Rows already in order are left as they are. */
  lemma {:induction false} SortOfSorted(rows: seq<RowState>, cmp: Comparator)
    requires Consistent(cmp)
    requires Sorted(rows, cmp)
    ensures StableSort(rows, cmp) == rows
  {
    if |rows| > 0 {
      var init, last := rows[..|rows| - 1], rows[|rows| - 1];
      assert Sorted(init, cmp);
      SortOfSorted(init, cmp);
      InsertLast(init, last, cmp);
      assert rows == init + [last];
    }
  }

  /** Sorting twice in the same direction is sorting once. */
  lemma SortTwice(rows: seq<RowState>, cmp: Comparator)
    requires Consistent(cmp)
    ensures StableSort(StableSort(rows, cmp), cmp) == StableSort(rows, cmp)
  {
    SortSorted(rows, cmp);
    SortOfSorted(StableSort(rows, cmp), cmp);
  }

  /**
   * A sorted order is fixed by its rows and the order within each tie class: two
   * sorted arrangements of the same rows that order every tie class alike are equal.
   */
  lemma {:induction false} SortedUnique(s: seq<RowState>, t: seq<RowState>, cmp: Comparator)
    requires Consistent(cmp)
    requires Sorted(s, cmp) && Sorted(t, cmp)
    requires multiset(s) == multiset(t)
    requires forall y :: Ties(s, cmp, y) == Ties(t, cmp, y)
    ensures s == t
  {
    assert |s| == |multiset(s)| == |multiset(t)| == |t|;
    if |s| > 0 {
      SameHead(s, t, cmp);
      forall y ensures Ties(s[1..], cmp, y) == Ties(t[1..], cmp, y) {
        TiesTail(s, t, cmp, y);
      }
      SameTail(s, t);
      assert Sorted(s[1..], cmp) && Sorted(t[1..], cmp);
      SortedUnique(s[1..], t[1..], cmp);
    }
  }

  lemma SameTail(s: seq<RowState>, t: seq<RowState>)
    requires |s| > 0 && |t| > 0 && s[0] == t[0] && multiset(s) == multiset(t)
    ensures multiset(s[1..]) == multiset(t[1..])
  {
    assert s == [s[0]] + s[1..] && t == [t[0]] + t[1..];
    assert multiset(s[1..]) == multiset(s) - multiset{s[0]};
    assert multiset(t[1..]) == multiset(t) - multiset{t[0]};
  }

  /** Two such arrangements begin with the same row. */
  lemma SameHead(s: seq<RowState>, t: seq<RowState>, cmp: Comparator)
    requires Consistent(cmp)
    requires Sorted(s, cmp) && Sorted(t, cmp)
    requires multiset(s) == multiset(t) && |s| > 0 && |t| > 0
    requires forall y :: Ties(s, cmp, y) == Ties(t, cmp, y)
    ensures s[0] == t[0]
  {
    var a, b := s[0], t[0];
    assert b in multiset(s) by { assert b in multiset(t); }
    assert a in multiset(t) by { assert a in multiset(s); }
    var i :| 0 <= i < |s| && s[i] == b;
    var j :| 0 <= j < |t| && t[j] == a;
    assert cmp(a, a) == -cmp(a, a);
    assert cmp(a, b) <= 0 by {
      if i > 0 { assert cmp(s[0], s[i]) <= 0; }
    }
    assert cmp(b, a) <= 0 by {
      if j > 0 { assert cmp(t[0], t[j]) <= 0; }
    }
    assert cmp(b, a) == -cmp(a, b);
    assert Ties(s, cmp, a)[0] == a;
    assert Ties(t, cmp, a)[0] == b;
  }

  lemma TiesTail(s: seq<RowState>, t: seq<RowState>, cmp: Comparator, y: RowState)
    requires |s| > 0 && |t| > 0 && s[0] == t[0]
    requires Ties(s, cmp, y) == Ties(t, cmp, y)
    ensures Ties(s[1..], cmp, y) == Ties(t[1..], cmp, y)
  {
    var head := if cmp(s[0], y) == 0 then [s[0]] else [];
    assert Ties(s, cmp, y) == head + Ties(s[1..], cmp, y);
    assert Ties(t, cmp, y) == head + Ties(t[1..], cmp, y);
    assert Ties(s[1..], cmp, y) == Ties(s, cmp, y)[|head|..];
  }

  lemma {:induction false} TiesAlike(rows: seq<RowState>, c1: Comparator, c2: Comparator, y: RowState)
    requires forall a, b :: c1(a, b) == 0 <==> c2(a, b) == 0
    ensures Ties(rows, c1, y) == Ties(rows, c2, y)
  {
    if |rows| > 0 {
      TiesAlike(rows[1..], c1, c2, y);
    }
  }

  /**
   * Sorting with a comparator that ties the same rows as an earlier one forgets
   * the earlier sort: the result is that of sorting the original rows once.
   */
  lemma SortAfterSort(rows: seq<RowState>, c1: Comparator, c2: Comparator)
    requires Consistent(c1) && Consistent(c2)
    requires forall a, b :: c1(a, b) == 0 <==> c2(a, b) == 0
    ensures StableSort(StableSort(rows, c1), c2) == StableSort(rows, c2)
  {
    var s1 := StableSort(rows, c1);
    var s, t := StableSort(s1, c2), StableSort(rows, c2);
    SortSorted(s1, c2);
    SortSorted(rows, c2);
    SortPermutes(rows, c1);
    SortPermutes(s1, c2);
    SortPermutes(rows, c2);
    forall y ensures Ties(s, c2, y) == Ties(t, c2, y) {
      SortStable(s1, c2, y);
      SortStable(rows, c2, y);
      SortStable(rows, c1, y);
      TiesAlike(s1, c1, c2, y);
      TiesAlike(rows, c1, c2, y);
    }
    SortedUnique(s, t, c2);
  }
}
