/**
 * The JSON editor's view of the table, `applyFiltersAndSort()`: the rows that
 * match the global search and the column filter and, when a sort column is
 * chosen, sorted by it. The view holds positions in the table, as the
 * filtered array holds the very item objects of the table, so an edit to a
 * row shows through the view.
 */
module JsonView {
  import opened Values
  import opened Collections
  import opened StableSort

  /** The search box, the filtered column and the column filter's text; both texts are stored lower-cased. */
  datatype Filters = Filters(global: string, column: string, value: string)

  /** A set cell whose lower-cased text contains the lower-cased needle. */
  predicate CellMatches(v: Value, needle: string) {
    !IsNullish(v) && Contains(Lower(ToStr(v)), needle)
  }

  /** `Object.values(item).some(...)` */
  predicate GlobalMatch(item: Item, needle: string) {
    exists f :: f in item && CellMatches(item[f], needle)
  }

  /** The two filters of `applyFiltersAndSort()`; an empty text, or no filtered column, keeps every row. */
  predicate RowMatches(item: Item, filters: Filters) {
    (filters.global == "" || GlobalMatch(item, filters.global)) &&
    (filters.column == "" || filters.value == "" || CellMatches(Get(item, filters.column), filters.value))
  }

  /** The row at position `i`, or an empty row past the end. */
  function RowAt(data: seq<Item>, i: nat): Item {
    if i < |data| then data[i] else map[]
  }

  /**
   * The sort comparator: a row whose key is `null` or `undefined` ranks after
   * the other row (even when both keys are), numbers compare by value and
   * everything else by lower-cased text; a descending sort swaps the result.
   */
  function CompareRows(a: Item, b: Item, column: string, ascending: bool): int {
    var x := Get(a, column);
    var y := Get(b, column);
    if IsNullish(x) then 1
    else if IsNullish(y) then -1
    else if x.Num? && y.Num? then (if ascending then x.n - y.n else y.n - x.n)
    else
      var xs := Lower(ToStr(x));
      var ys := Lower(ToStr(y));
      if ascending then (if StrLess(xs, ys) then -1 else if StrLess(ys, xs) then 1 else 0)
      else (if StrLess(ys, xs) then -1 else if StrLess(xs, ys) then 1 else 0)
  }

  /** The comparator on row positions. */
  function RowOrder(data: seq<Item>, column: string, ascending: bool): (nat, nat) -> int {
    (i: nat, j: nat) => CompareRows(RowAt(data, i), RowAt(data, j), column, ascending)
  }

  /** The matching rows, in table order. */
  function Matching(data: seq<Item>, filters: Filters): (r: seq<nat>)
    ensures Increasing(r)
    ensures forall i: nat :: i in r <==> i < |data| && RowMatches(data[i], filters)
  {
    var all: seq<nat> := Range(|data|);
    assert forall i: nat :: i < |data| ==> i in all by {
      forall i: nat | i < |data| ensures i in all {
        assert all[i] == i;
      }
    }
    FilterIncreasing(all, (i: nat) => i < |data| && RowMatches(data[i], filters));
    Filter(all, (i: nat) => i < |data| && RowMatches(data[i], filters))
  }

  /** `filteredData` after `applyFiltersAndSort()`; no sort column (`null` or `''`) leaves table order. */
  function View(data: seq<Item>, filters: Filters, sortColumn: string, ascending: bool): (r: seq<nat>)
    ensures multiset(r) == multiset(Matching(data, filters))
  {
    var m := Matching(data, filters);
    if sortColumn == "" then m
    else
      SortByPermutes(m, RowOrder(data, sortColumn, ascending));
      SortBy(m, RowOrder(data, sortColumn, ascending))
  }

  /**
   * The view holds every row that matches the filters, once, and nothing else:
   * every row in it contains the search text in some set cell and the column
   * filter's text in the filtered column.
   */
  lemma ViewMembers(data: seq<Item>, filters: Filters, sortColumn: string, ascending: bool)
    ensures var r := View(data, filters, sortColumn, ascending);
      (forall i: nat :: i in r <==> i < |data| && RowMatches(data[i], filters)) &&
      (forall i: nat :: multiset(r)[i] == if i < |data| && RowMatches(data[i], filters) then 1 else 0)
  {
    var r: seq<nat> := View(data, filters, sortColumn, ascending);
    var m := Matching(data, filters);
    var mr: multiset<nat> := multiset(r);
    forall i: nat ensures mr[i] == if i < |data| && RowMatches(data[i], filters) then 1 else 0 {
      IncreasingCount(m, i);
    }
    forall i: nat ensures i in r <==> i in m {
      assert i in r <==> i in mr;
    }
  }

  /** With no sort column the view lists the matching rows in table order. */
  lemma ViewUnsorted(data: seq<Item>, filters: Filters, ascending: bool)
    ensures var r := View(data, filters, "", ascending);
      Increasing(r) && forall i: nat :: i in r <==> i < |data| && RowMatches(data[i], filters)
  {
  }

  /** The row at `i` has no value in `column`. */
  predicate KeyMissing(data: seq<Item>, column: string, i: nat) {
    IsNullish(Get(RowAt(data, i), column))
  }

  /** Rows whose sort key is `null` or `undefined` come after all the others, in either direction. */
  lemma ViewNullsLast(data: seq<Item>, filters: Filters, sortColumn: string, ascending: bool)
    requires sortColumn != ""
    ensures LateLast(View(data, filters, sortColumn, ascending), (i: nat) => KeyMissing(data, sortColumn, i))
  {
    var cmp := RowOrder(data, sortColumn, ascending);
    var late := (i: nat) => KeyMissing(data, sortColumn, i);
    assert PutsLast(cmp, late);
    SortLateLast(Matching(data, filters), cmp, late);
  }

  /** The number a row holds in `column`, negated for a descending sort. */
  function NumKey(data: seq<Item>, column: string, ascending: bool, i: nat): int {
    var v := Get(RowAt(data, i), column);
    if !v.Num? then 0 else if ascending then v.n else -v.n
  }

  /**
   * When every matching row holds a number in the sort column, the view is in
   * ascending order of those numbers, or descending for a descending sort.
   */
  lemma ViewSortedByNumber(data: seq<Item>, filters: Filters, sortColumn: string, ascending: bool)
    requires sortColumn != ""
    requires forall i :: 0 <= i < |data| && RowMatches(data[i], filters) ==> Get(data[i], sortColumn).Num?
    ensures SortedByKey(View(data, filters, sortColumn, ascending), (i: nat) => NumKey(data, sortColumn, ascending, i))
  {
    var m := Matching(data, filters);
    var cmp := RowOrder(data, sortColumn, ascending);
    var key := (i: nat) => NumKey(data, sortColumn, ascending, i);
    assert OrdersByKeyOn(cmp, key, m) by {
      forall a, b | a in m && b in m ensures cmp(a, b) > 0 <==> key(a) > key(b) {
        assert Get(RowAt(data, a), sortColumn).Num? && Get(RowAt(data, b), sortColumn).Num?;
      }
    }
    SortSortedByKey(m, cmp, key);
  }

  /** The lower-cased text of the row's value in `column`, the key text columns sort by. */
  function TextKey(data: seq<Item>, column: string, i: nat): string {
    Lower(ToStr(Get(RowAt(data, i), column)))
  }

  /** Row `i` comes strictly before row `j`: its text is smaller, or larger for a descending sort. */
  predicate TextBefore(data: seq<Item>, column: string, ascending: bool, i: nat, j: nat) {
    if ascending then StrLess(TextKey(data, column, i), TextKey(data, column, j))
    else StrLess(TextKey(data, column, j), TextKey(data, column, i))
  }

  /**
   * When no matching row holds a number or leaves the sort column unset, the view
   * is in ascending order of the lower-cased texts, or descending for a
   * descending sort.
   */
  lemma ViewSortedByText(data: seq<Item>, filters: Filters, sortColumn: string, ascending: bool)
    requires sortColumn != ""
    requires forall i :: 0 <= i < |data| && RowMatches(data[i], filters) ==>
               !IsNullish(Get(data[i], sortColumn)) && !Get(data[i], sortColumn).Num?
    ensures SortedBy(View(data, filters, sortColumn, ascending),
                     (i: nat, j: nat) => TextBefore(data, sortColumn, ascending, i, j))
  {
    var m := Matching(data, filters);
    var cmp := RowOrder(data, sortColumn, ascending);
    var before := (i: nat, j: nat) => TextBefore(data, sortColumn, ascending, i, j);
    assert OrdersByOn(cmp, before, m) by {
      forall a, b | a in m && b in m ensures cmp(a, b) > 0 <==> before(b, a) {
        TextCompare(data, sortColumn, ascending, a, b);
      }
      forall a, b | a in m && b in m && before(a, b) ensures !before(b, a) {
        TextBeforeAsymmetric(data, sortColumn, ascending, a, b);
      }
      forall a, b, c | a in m && b in m && c in m && before(a, c) ensures before(a, b) || before(b, c) {
        TextBeforeSplits(data, sortColumn, ascending, a, b, c);
      }
    }
    SortSortedBy(m, cmp, before);
  }

  /** On rows holding text, the comparator ranks `a` after `b` exactly when `b` comes before `a`. */
  lemma TextCompare(data: seq<Item>, column: string, ascending: bool, a: nat, b: nat)
    requires a < |data| && b < |data|
    requires !IsNullish(Get(data[a], column)) && !Get(data[a], column).Num?
    requires !IsNullish(Get(data[b], column)) && !Get(data[b], column).Num?
    ensures CompareRows(RowAt(data, a), RowAt(data, b), column, ascending) > 0 <==> TextBefore(data, column, ascending, b, a)
  {
    var xs := TextKey(data, column, a);
    var ys := TextKey(data, column, b);
    if StrLess(xs, ys) {
      StrLessAsymmetric(xs, ys);
    }
  }

  lemma TextBeforeAsymmetric(data: seq<Item>, column: string, ascending: bool, a: nat, b: nat)
    requires TextBefore(data, column, ascending, a, b)
    ensures !TextBefore(data, column, ascending, b, a)
  {
    if ascending {
      StrLessAsymmetric(TextKey(data, column, a), TextKey(data, column, b));
    } else {
      StrLessAsymmetric(TextKey(data, column, b), TextKey(data, column, a));
    }
  }

  lemma TextBeforeSplits(data: seq<Item>, column: string, ascending: bool, a: nat, b: nat, c: nat)
    requires TextBefore(data, column, ascending, a, c)
    ensures TextBefore(data, column, ascending, a, b) || TextBefore(data, column, ascending, b, c)
  {
    var ka, kb, kc := TextKey(data, column, a), TextKey(data, column, b), TextKey(data, column, c);
    if ascending {
      StrLessSplits(ka, kb, kc);
    } else {
      StrLessSplits(kc, kb, ka);
    }
  }
}
