/**
 * `Array.prototype.sort(cmp)`, which the language requires to be stable.
 * It is modelled as an insertion sort that moves a new element left past
 * every element the comparator ranks strictly after it; with a consistent
 * comparator this is the unique stable ordering.
 */
module StableSort {
  import opened Collections

  /** Insert `x` into `s`, after the last element that does not compare greater than `x`. */
  function Insert<T>(x: T, s: seq<T>, cmp: (T, T) -> int): (r: seq<T>)
    ensures |r| == |s| + 1
  {
    if s == [] || cmp(s[|s| - 1], x) <= 0 then s + [x]
    else Insert(x, s[..|s| - 1], cmp) + [s[|s| - 1]]
  }

  /** `s.slice().sort(cmp)` */
  function SortBy<T>(s: seq<T>, cmp: (T, T) -> int): (r: seq<T>)
    ensures |r| == |s|
  {
    if s == [] then []
    else Insert(s[|s| - 1], SortBy(s[..|s| - 1], cmp), cmp)
  }

  /** Inserting adds `x` to the elements of `s` and loses none of them. */
  lemma {:induction false} InsertPermutes<T>(x: T, s: seq<T>, cmp: (T, T) -> int)
    ensures multiset(Insert(x, s, cmp)) == multiset(s) + multiset{x}
    decreases |s|
  {
    if !(s == [] || cmp(s[|s| - 1], x) <= 0) {
      var init := s[..|s| - 1];
      InsertPermutes(x, init, cmp);
      assert s == init + [s[|s| - 1]];
    }
  }

  /** Sorting is a permutation. */
  lemma {:induction false} SortByPermutes<T>(s: seq<T>, cmp: (T, T) -> int)
    ensures multiset(SortBy(s, cmp)) == multiset(s)
    decreases |s|
  {
    if s != [] {
      var init := s[..|s| - 1];
      SortByPermutes(init, cmp);
      InsertPermutes(s[|s| - 1], SortBy(init, cmp), cmp);
      assert s == init + [s[|s| - 1]];
    }
  }

  lemma {:induction false} InsertMembers<T>(x: T, s: seq<T>, cmp: (T, T) -> int)
    ensures forall e :: e in Insert(x, s, cmp) <==> e == x || e in s
    decreases |s|
  {
    if !(s == [] || cmp(s[|s| - 1], x) <= 0) {
      var init := s[..|s| - 1];
      InsertMembers(x, init, cmp);
      assert s == init + [s[|s| - 1]];
    }
  }

  lemma {:induction false} SortByMembers<T>(s: seq<T>, cmp: (T, T) -> int)
    ensures forall e :: e in SortBy(s, cmp) <==> e in s
    decreases |s|
  {
    if s != [] {
      var init := s[..|s| - 1];
      SortByMembers(init, cmp);
      InsertMembers(s[|s| - 1], SortBy(init, cmp), cmp);
      assert s == init + [s[|s| - 1]];
    }
  }

  /** Inserting skips over a tail whose every element compares greater than `x`. */
  lemma {:induction false} InsertPastTail<T>(x: T, a: seq<T>, b: seq<T>, cmp: (T, T) -> int)
    requires forall i :: 0 <= i < |b| ==> cmp(b[i], x) > 0
    ensures Insert(x, a + b, cmp) == Insert(x, a, cmp) + b
    decreases |b|
  {
    if b == [] {
      assert a + b == a;
    } else {
      var s := a + b;
      var b' := b[..|b| - 1];
      var y := b[|b| - 1];
      assert s[|s| - 1] == y;
      assert cmp(y, x) > 0;
      assert s[..|s| - 1] == a + b';
      assert Insert(x, s, cmp) == Insert(x, a + b', cmp) + [y];
      assert forall i :: 0 <= i < |b'| ==> cmp(b'[i], x) > 0 by {
        forall i | 0 <= i < |b'| ensures cmp(b'[i], x) > 0 {
          assert b'[i] == b[i];
        }
      }
      InsertPastTail(x, a, b', cmp);
      assert Insert(x, a, cmp) + b' + [y] == Insert(x, a, cmp) + b;
    }
  }

  /** Two-class comparator: elements satisfying `p` rank first, ties keep their order. */
  ghost predicate RanksFirst<T(!new)>(cmp: (T, T) -> int, p: T -> bool) {
    forall a, b :: cmp(a, b) == (if p(a) == p(b) then 0 else if p(a) then -1 else 1)
  }

  /**
   * Sorting with a two-class comparator is a stable partition: the elements
   * with `p`, in their original order, followed by those without.
   */
  lemma {:induction false} SortPartition<T(!new)>(s: seq<T>, cmp: (T, T) -> int, p: T -> bool, notP: T -> bool)
    requires RanksFirst(cmp, p)
    requires forall x :: notP(x) == !p(x)
    ensures SortBy(s, cmp) == Filter(s, p) + Filter(s, notP)
    decreases |s|
  {
    if s != [] {
      var init := s[..|s| - 1];
      var x := s[|s| - 1];
      SortPartition(init, cmp, p, notP);
      assert init + [x] == s;
      if p(x) {
        PartitionFirstStep(init, x, cmp, p, notP);
      } else {
        PartitionSecondStep(init, x, cmp, p, notP);
      }
    }
  }

  /** The sort of `init + [x]` and the filters of `init + [x]`, in terms of those of `init`. */
  lemma Unsnoc<T(!new)>(init: seq<T>, x: T, cmp: (T, T) -> int, p: T -> bool, notP: T -> bool)
    ensures SortBy(init + [x], cmp) == Insert(x, SortBy(init, cmp), cmp)
    ensures Filter(init + [x], p) == if p(x) then Filter(init, p) + [x] else Filter(init, p)
    ensures Filter(init + [x], notP) == if notP(x) then Filter(init, notP) + [x] else Filter(init, notP)
  {
    assert (init + [x])[..|init|] == init;
    assert Filter(init, p) + [] == Filter(init, p);
    assert Filter(init, notP) + [] == Filter(init, notP);
  }

  lemma PartitionFirstStep<T(!new)>(init: seq<T>, x: T, cmp: (T, T) -> int, p: T -> bool, notP: T -> bool)
    requires RanksFirst(cmp, p) && p(x) && !notP(x)
    requires SortBy(init, cmp) == Filter(init, p) + Filter(init, notP)
    requires forall e :: notP(e) == !p(e)
    ensures SortBy(init + [x], cmp) == Filter(init + [x], p) + Filter(init + [x], notP)
  {
    Unsnoc(init, x, cmp, p, notP);
    InsertFirstClass(x, Filter(init, p), Filter(init, notP), cmp, p);
  }

  lemma PartitionSecondStep<T(!new)>(init: seq<T>, x: T, cmp: (T, T) -> int, p: T -> bool, notP: T -> bool)
    requires RanksFirst(cmp, p) && !p(x) && notP(x)
    requires SortBy(init, cmp) == Filter(init, p) + Filter(init, notP)
    ensures SortBy(init + [x], cmp) == Filter(init + [x], p) + Filter(init + [x], notP)
  {
    Unsnoc(init, x, cmp, p, notP);
    var a, b := Filter(init, p), Filter(init, notP);
    InsertSecondClass(x, a + b, cmp, p);
    AppendAssoc(a, b, [x]);
  }

  lemma InsertFirstClass<T(!new)>(x: T, a: seq<T>, b: seq<T>, cmp: (T, T) -> int, p: T -> bool)
    requires RanksFirst(cmp, p) && p(x)
    requires forall e :: e in a ==> p(e)
    requires forall e :: e in b ==> !p(e)
    ensures Insert(x, a + b, cmp) == a + [x] + b
  {
    assert forall i :: 0 <= i < |b| ==> cmp(b[i], x) > 0 by {
      forall i | 0 <= i < |b| ensures cmp(b[i], x) > 0 {
        assert b[i] in b;
      }
    }
    InsertPastTail(x, a, b, cmp);
    if a != [] {
      assert a[|a| - 1] in a;
      assert cmp(a[|a| - 1], x) == 0;
    }
    assert Insert(x, a, cmp) == a + [x];
  }

  lemma InsertSecondClass<T(!new)>(x: T, s: seq<T>, cmp: (T, T) -> int, p: T -> bool)
    requires RanksFirst(cmp, p) && !p(x)
    ensures Insert(x, s, cmp) == s + [x]
  {
  }

  /** The comparator puts every element with `late` after every element without it. */
  ghost predicate PutsLast<T(!new)>(cmp: (T, T) -> int, late: T -> bool) {
    forall a, b :: late(a) && !late(b) ==> cmp(a, b) > 0 && cmp(b, a) <= 0
  }

  /** No element with `late` precedes an element without it. */
  predicate LateLast<T>(s: seq<T>, late: T -> bool) {
    forall i, j :: 0 <= i < j < |s| && late(s[i]) ==> late(s[j])
  }

  /**
   * Whatever the comparator does among the early elements and among the late
   * ones, the sort puts every late element after every early one. (JSON editor:
   * `null` and `undefined` sort keys go last.)
   */
  lemma {:induction false} SortLateLast<T(!new)>(s: seq<T>, cmp: (T, T) -> int, late: T -> bool)
    requires PutsLast(cmp, late)
    ensures LateLast(SortBy(s, cmp), late)
    decreases |s|
  {
    if s != [] {
      var init := s[..|s| - 1];
      var x := s[|s| - 1];
      var r := SortBy(init, cmp);
      SortLateLast(init, cmp, late);
      InsertLateLast(x, r, cmp, late);
    }
  }

  lemma {:induction false} InsertLateLast<T(!new)>(x: T, r: seq<T>, cmp: (T, T) -> int, late: T -> bool)
    requires PutsLast(cmp, late) && LateLast(r, late)
    ensures LateLast(Insert(x, r, cmp), late)
    decreases |r|
  {
    if r != [] && cmp(r[|r| - 1], x) > 0 {
      var init := r[..|r| - 1];
      InsertLateLast(x, init, cmp, late);
      var t := Insert(x, init, cmp);
      var y := r[|r| - 1];
      if !late(y) {
        // then nothing in r is late, and x is not late either
        assert !late(x);
        assert forall e :: e in t ==> !late(e) by {
          InsertMembers(x, init, cmp);
          forall e | e in t ensures !late(e) {
            if e != x {
              var k :| 0 <= k < |init| && init[k] == e;
              assert r[k] == e;
            }
          }
        }
      }
    } else if r != [] && late(r[|r| - 1]) {
      assert late(x);
    }
  }

  /** On the elements of `dom`, `cmp` orders by the integer `key`, ascending. */
  ghost predicate OrdersByKeyOn<T(!new)>(cmp: (T, T) -> int, key: T -> int, dom: seq<T>) {
    forall a, b :: a in dom && b in dom ==> (cmp(a, b) > 0 <==> key(a) > key(b))
  }

  predicate SortedByKey<T>(s: seq<T>, key: T -> int) {
    forall i, j :: 0 <= i < j < |s| ==> key(s[i]) <= key(s[j])
  }

  /**
   * A comparator that orders the elements by a key yields a sequence sorted by
   * that key, whatever it does on values outside the sequence.
   */
  lemma {:induction false} SortSortedByKey<T(!new)>(s: seq<T>, cmp: (T, T) -> int, key: T -> int)
    requires OrdersByKeyOn(cmp, key, s)
    ensures SortedByKey(SortBy(s, cmp), key)
    decreases |s|
  {
    if s != [] {
      var init := s[..|s| - 1];
      var x := s[|s| - 1];
      assert forall e :: e in init ==> e in s;
      SortSortedByKey(init, cmp, key);
      var r := SortBy(init, cmp);
      SortByMembers(init, cmp);
      InsertSortedByKey(x, r, cmp, key, s);
    }
  }

  lemma {:induction false} InsertSortedByKey<T(!new)>(x: T, r: seq<T>, cmp: (T, T) -> int, key: T -> int, dom: seq<T>)
    requires OrdersByKeyOn(cmp, key, dom) && SortedByKey(r, key)
    requires x in dom && forall e :: e in r ==> e in dom
    ensures SortedByKey(Insert(x, r, cmp), key)
    decreases |r|
  {
    if r != [] && cmp(r[|r| - 1], x) > 0 {
      var init := r[..|r| - 1];
      var y := r[|r| - 1];
      assert forall e :: e in init ==> e in r;
      InsertSortedByKey(x, init, cmp, key, dom);
      var t := Insert(x, init, cmp);
      assert key(x) < key(y);
      assert forall e :: e in t ==> key(e) <= key(y) by {
        InsertMembers(x, init, cmp);
        forall e | e in t ensures key(e) <= key(y) {
          if e != x {
            var k :| 0 <= k < |init| && init[k] == e;
            assert r[k] == e;
          }
        }
      }
      assert Insert(x, r, cmp) == t + [y];
      forall i, j | 0 <= i < j < |t + [y]| ensures key((t + [y])[i]) <= key((t + [y])[j]) {
        if j == |t| {
          assert (t + [y])[i] in t;
        }
      }
    } else if r != [] {
      assert key(r[|r| - 1]) <= key(x);
      assert Insert(x, r, cmp) == r + [x];
    }
  }

  /**
   * On the elements of `dom`, `cmp` ranks `a` after `b` exactly when `b` comes
   * strictly before `a` in a strict weak order `before`: one that never holds both
   * ways, and where `a` before `c` puts any third element after `a` or before `c`.
   */
  ghost predicate OrdersByOn<T(!new)>(cmp: (T, T) -> int, before: (T, T) -> bool, dom: seq<T>) {
    (forall a, b :: a in dom && b in dom ==> (cmp(a, b) > 0 <==> before(b, a))) &&
    (forall a, b :: a in dom && b in dom && before(a, b) ==> !before(b, a)) &&
    (forall a, b, c :: a in dom && b in dom && c in dom && before(a, c) ==> before(a, b) || before(b, c))
  }

  /** No element comes strictly before an element placed ahead of it. */
  predicate SortedBy<T>(s: seq<T>, before: (T, T) -> bool) {
    forall i, j :: 0 <= i < j < |s| ==> !before(s[j], s[i])
  }

  /** A comparator that follows a strict weak order sorts by that order. */
  lemma {:induction false} SortSortedBy<T(!new)>(s: seq<T>, cmp: (T, T) -> int, before: (T, T) -> bool)
    requires OrdersByOn(cmp, before, s)
    ensures SortedBy(SortBy(s, cmp), before)
    decreases |s|
  {
    if s != [] {
      var init := s[..|s| - 1];
      assert forall e :: e in init ==> e in s;
      SortSortedBy(init, cmp, before);
      SortByMembers(init, cmp);
      InsertSortedBy(s[|s| - 1], SortBy(init, cmp), cmp, before, s);
    }
  }

  lemma {:induction false} InsertSortedBy<T(!new)>(x: T, r: seq<T>, cmp: (T, T) -> int, before: (T, T) -> bool, dom: seq<T>)
    requires OrdersByOn(cmp, before, dom) && SortedBy(r, before)
    requires x in dom && forall e :: e in r ==> e in dom
    ensures SortedBy(Insert(x, r, cmp), before)
    decreases |r|
  {
    if r != [] && cmp(r[|r| - 1], x) > 0 {
      var init := r[..|r| - 1];
      var y := r[|r| - 1];
      assert forall e :: e in init ==> e in r;
      InsertSortedBy(x, init, cmp, before, dom);
      var t := Insert(x, init, cmp);
      assert before(x, y);
      assert forall e :: e in t ==> !before(y, e) by {
        InsertMembers(x, init, cmp);
        forall e | e in t ensures !before(y, e) {
          if e != x {
            var k :| 0 <= k < |init| && init[k] == e;
            assert r[k] == e;
          }
        }
      }
      assert Insert(x, r, cmp) == t + [y];
      forall i, j | 0 <= i < j < |t + [y]| ensures !before((t + [y])[j], (t + [y])[i]) {
        if j == |t| {
          assert (t + [y])[i] in t;
        }
      }
    } else if r != [] {
      var y := r[|r| - 1];
      assert !before(x, y);
      forall i | 0 <= i < |r| ensures !before(x, r[i]) {
        if i < |r| - 1 {
          assert !before(y, r[i]);
          assert r[i] in dom && y in dom;
        }
      }
      assert Insert(x, r, cmp) == r + [x];
    }
  }
}
