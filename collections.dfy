/**
 * Sequences filtered by a predicate, and insertion-ordered maps: the shape of
 * a JavaScript object or `Map` whose key order the code relies on
 * (`Object.entries`, `Object.keys`, `Map.prototype.keys`).
 */
module Collections {

  // ---------------------------------------------------------------------
  // Filtering

  /** `s.filter(p)` */
  function Filter<T(!new)>(s: seq<T>, p: T -> bool): (r: seq<T>)
    ensures |r| <= |s|
    ensures forall x :: x in r <==> x in s && p(x)
    decreases |s|
  {
    if s == [] then []
    else if p(s[|s| - 1]) then Filter(s[..|s| - 1], p) + [s[|s| - 1]]
    else Filter(s[..|s| - 1], p)
  }

  lemma FilterAppend<T(!new)>(a: seq<T>, b: seq<T>, p: T -> bool)
    ensures Filter(a + b, p) == Filter(a, p) + Filter(b, p)
    decreases |b|
  {
    if b != [] {
      assert (a + b)[..|a + b| - 1] == a + b[..|b| - 1];
      FilterAppend(a, b[..|b| - 1], p);
    } else {
      assert a + b == a;
    }
  }

  /** Concatenation is associative; stated once so that callers need no extensionality argument. */
  lemma AppendAssoc<T>(a: seq<T>, b: seq<T>, c: seq<T>)
    ensures a + b + c == a + (b + c)
  {
  }

  /** Filtering twice is filtering once by both predicates. */
  lemma {:induction false} FilterFilter<T(!new)>(s: seq<T>, p: T -> bool, q: T -> bool, both: T -> bool)
    requires forall x :: both(x) == (p(x) && q(x))
    ensures Filter(Filter(s, p), q) == Filter(s, both)
    decreases |s|
  {
    if s != [] {
      var init := s[..|s| - 1];
      var x := s[|s| - 1];
      FilterFilter(init, p, q, both);
      assert s == init + [x];
      if p(x) {
        FilterAppend(Filter(init, p), [x], q);
        FilterAppend(init, [x], both);
      }
    }
  }

  /** Filtering keeps exactly the elements the predicate accepts and nothing else. */
  lemma {:induction false} FilterAll<T(!new)>(s: seq<T>, p: T -> bool)
    requires forall i :: 0 <= i < |s| ==> p(s[i])
    ensures Filter(s, p) == s
    decreases |s|
  {
    if s != [] {
      var init := s[..|s| - 1];
      assert forall i :: 0 <= i < |init| ==> p(init[i]) by {
        forall i | 0 <= i < |init| ensures p(init[i]) {
          assert init[i] == s[i];
        }
      }
      FilterAll(init, p);
      assert p(s[|s| - 1]);
      assert init + [s[|s| - 1]] == s;
    }
  }

  /** `[0, 1, ..., n - 1]` */
  function Range(n: nat): (r: seq<nat>)
    ensures |r| == n && forall i :: 0 <= i < n ==> r[i] == i
  {
    seq(n, i => i)
  }

  /** The elements of `s` at the given positions, in the positions' order. */
  function Pick<T>(s: seq<T>, positions: seq<nat>): (r: seq<T>)
    requires forall t :: 0 <= t < |positions| ==> positions[t] < |s|
    ensures |r| == |positions|
    ensures forall t :: 0 <= t < |r| ==> r[t] == s[positions[t]]
  {
    seq(|positions|, t requires 0 <= t < |positions| => s[positions[t]])
  }

  predicate Increasing(s: seq<nat>) {
    forall a, b :: 0 <= a < b < |s| ==> s[a] < s[b]
  }

  /** Filtering an increasing sequence leaves it increasing. */
  lemma {:induction false} FilterIncreasing(s: seq<nat>, p: nat -> bool)
    requires Increasing(s)
    ensures Increasing(Filter(s, p))
    decreases |s|
  {
    if s != [] {
      var init := s[..|s| - 1];
      FilterIncreasing(init, p);
      var f := Filter(init, p);
      forall a | 0 <= a < |f| ensures f[a] < s[|s| - 1] {
        assert f[a] in init;
      }
    }
  }

  /** An increasing sequence holds each number at most once. */
  lemma {:induction false} IncreasingCount(s: seq<nat>, x: nat)
    requires Increasing(s)
    ensures multiset(s)[x] == if x in s then 1 else 0
    decreases |s|
  {
    if s != [] {
      var init := s[..|s| - 1];
      assert s == init + [s[|s| - 1]];
      IncreasingCount(init, x);
      if x == s[|s| - 1] {
        assert x !in init by {
          forall k | 0 <= k < |init| ensures init[k] != x {
            assert s[k] < s[|s| - 1];
          }
        }
      }
    }
  }

  predicate Distinct<T(==)>(s: seq<T>) {
    forall i, j :: 0 <= i < j < |s| ==> s[i] != s[j]
  }

  /** Two duplicate-free sequences with no element in common concatenate to a duplicate-free one. */
  lemma DistinctConcat<T>(p: seq<T>, q: seq<T>)
    requires Distinct(p) && Distinct(q)
    requires forall x :: x in p ==> x !in q
    ensures Distinct(p + q)
  {
    forall i, j | 0 <= i < j < |p + q| ensures (p + q)[i] != (p + q)[j] {
      if i < |p| <= j {
        assert (p + q)[i] in p && (p + q)[j] in q;
      }
    }
  }

  lemma DistinctFilter<T(!new)>(s: seq<T>, p: T -> bool)
    requires Distinct(s)
    ensures Distinct(Filter(s, p))
    decreases |s|
  {
    if s != [] {
      DistinctFilter(s[..|s| - 1], p);
      assert s[|s| - 1] !in s[..|s| - 1];
    }
  }

  /** The elements of `s` without repeats, each at its first occurrence: `Array.from(new Set(s))`. */
  function Dedupe<T(==,!new)>(s: seq<T>): (r: seq<T>)
    ensures Distinct(r)
    ensures forall x :: x in r <==> x in s
    ensures |r| <= |s|
    decreases |s|
  {
    if s == [] then []
    else
      var d := Dedupe(s[..|s| - 1]);
      assert forall x :: x in s <==> x in s[..|s| - 1] || x == s[|s| - 1] by {
        assert s == s[..|s| - 1] + [s[|s| - 1]];
      }
      if s[|s| - 1] in d then d else d + [s[|s| - 1]]
  }

  /** A filter and its complement split the sequence between them. */
  lemma {:induction false} FilterSplit<T(!new)>(s: seq<T>, p: T -> bool, q: T -> bool)
    requires forall x :: q(x) == !p(x)
    ensures |Filter(s, p)| + |Filter(s, q)| == |s|
    decreases |s|
  {
    if s != [] {
      FilterSplit(s[..|s| - 1], p, q);
    }
  }

  /** `s.filter(y => y !== x)` */
  function RemoveValue<T(==,!new)>(s: seq<T>, x: T): (r: seq<T>)
    ensures |r| <= |s|
    ensures forall y :: y in r <==> y in s && y != x
    ensures Distinct(s) ==> Distinct(r)
    ensures x !in s ==> r == s
  {
    if s == [] then []
    else
      var rest := RemoveValue(s[..|s| - 1], x);
      var r := if s[|s| - 1] == x then rest else rest + [s[|s| - 1]];
      assert Distinct(s) ==> s[|s| - 1] !in s[..|s| - 1];
      assert x !in s ==> s[..|s| - 1] + [s[|s| - 1]] == s;
      r
  }

  /** `x` is among the first `n` elements of `s`. */
  predicate Seen<T(==)>(s: seq<T>, n: nat, x: T)
    requires n <= |s|
  {
    n > 0 && (s[n - 1] == x || Seen(s, n - 1, x))
  }

  lemma {:induction false} SeenIsIn<T>(s: seq<T>, n: nat, x: T)
    requires n <= |s|
    ensures Seen(s, n, x) <==> x in s[..n]
  {
    if n > 0 {
      SeenIsIn(s, n - 1, x);
      assert s[..n] == s[..n - 1] + [s[n - 1]];
    }
  }

  // ---------------------------------------------------------------------
  // Insertion-ordered maps

  /**
   * A map together with the order in which its keys were first inserted.
   * Overwriting an existing key keeps its place; deleting it removes it.
   */
  datatype OMap<K(==,!new), V> = OMap(keys: seq<K>, vals: map<K, V>) {
    ghost predicate Valid() {
      Distinct(keys) && (forall k :: k in vals <==> k in keys)
    }

    predicate IsEmpty() {
      keys == []
    }
  }

  function Empty<K(==,!new), V>(): (r: OMap<K, V>)
    ensures r.Valid() && r.keys == [] && r.vals == map[]
  {
    OMap([], map[])
  }

  /** `o[k] = v`, `map.set(k, v)` */
  function Put<K(==,!new), V>(o: OMap<K, V>, k: K, v: V): (r: OMap<K, V>)
    requires o.Valid()
    ensures r.Valid()
    ensures r.vals == o.vals[k := v]
    ensures k in o.vals ==> r.keys == o.keys
    ensures k !in o.vals ==> r.keys == o.keys + [k]
  {
    if k in o.vals then OMap(o.keys, o.vals[k := v]) else OMap(o.keys + [k], o.vals[k := v])
  }

  /** `delete o[k]`, `map.delete(k)` */
  function Remove<K(==,!new), V>(o: OMap<K, V>, k: K): (r: OMap<K, V>)
    requires o.Valid()
    ensures r.Valid()
    ensures r.vals == o.vals - {k}
    ensures r.keys == RemoveValue(o.keys, k)
    ensures k !in o.vals ==> r == o
  {
    OMap(RemoveValue(o.keys, k), o.vals - {k})
  }

  /** Removing the last key of a map leaves the other keys in their order. */
  lemma RemoveLastKey<K(!new), V>(o: OMap<K, V>)
    requires o.Valid() && o.keys != []
    ensures Remove(o, o.keys[|o.keys| - 1]).keys == o.keys[..|o.keys| - 1]
  {
    var s := o.keys;
    assert s[..|s| - 1] + [s[|s| - 1]] == s;
    assert s[|s| - 1] !in s[..|s| - 1];
  }

  /** `{...o, ...u}` */
  function Merge<K(==,!new), V>(o: OMap<K, V>, u: OMap<K, V>): (r: OMap<K, V>)
    requires o.Valid() && u.Valid()
    ensures r.Valid()
    ensures r.vals.Keys == o.vals.Keys + u.vals.Keys
    ensures forall k :: k in r.vals ==> r.vals[k] == if k in u.vals then u.vals[k] else o.vals[k]
    ensures |r.keys| >= |o.keys|
    ensures r.keys[..|o.keys|] == o.keys
    decreases |u.keys|
  {
    if u.keys == [] then o
    else
      var last := u.keys[|u.keys| - 1];
      var init := OMap(u.keys[..|u.keys| - 1], u.vals - {last});
      assert init.Valid() by {
        assert forall k :: k in init.vals <==> k in init.keys by {
          forall k ensures k in init.vals <==> k in init.keys {
            assert k in u.keys <==> k in init.keys || k == last;
          }
        }
      }
      Put(Merge(o, init), last, u.vals[last])
  }

  /** `Object.fromEntries(Object.entries(o).filter(([k, v]) => p(k)))`: the entries whose key passes, in key order. */
  function Select<K(==,!new), V>(o: OMap<K, V>, p: K -> bool): (r: OMap<K, V>)
    requires o.Valid()
    ensures r.Valid()
    ensures r.keys == Filter(o.keys, p)
    ensures forall k :: k in r.vals <==> k in o.vals && p(k)
    ensures forall k :: k in r.vals ==> r.vals[k] == o.vals[k]
  {
    DistinctFilter(o.keys, p);
    OMap(Filter(o.keys, p), map k | k in o.vals && p(k) :: o.vals[k])
  }

  /** Putting a new key and removing it again gives back the map. */
  lemma RemovePut<K(!new), V>(o: OMap<K, V>, k: K, v: V)
    requires o.Valid() && k !in o.vals
    ensures Remove(Put(o, k, v), k) == o
  {
    var p := Put(o, k, v);
    assert p.keys[..|p.keys| - 1] == o.keys;
    assert p.vals - {k} == o.vals;
  }

  /**
   * Copy the first `n` entries of `o`, in key order, into a fresh map under the
   * keys `f(k)` with the values `g(v)`; when two keys have the same image the
   * later entry overwrites the earlier one in place.
   */
  function Rekey<K(==,!new), V, K2(==,!new), V2>(o: OMap<K, V>, f: K -> K2, g: V -> V2, n: nat): (r: OMap<K2, V2>)
    requires o.Valid() && n <= |o.keys|
    ensures r.Valid()
  {
    if n == 0 then Empty()
    else Put(Rekey(o, f, g, n - 1), f(o.keys[n - 1]), g(o.vals[o.keys[n - 1]]))
  }

  /**
   * When `f` is injective on the keys, `Rekey` keeps every entry, in order: the
   * `k`-th key becomes `f` of the `k`-th key and carries `g` of its value.
   */
  lemma {:induction false} RekeyInjective<K(!new), V, K2(!new), V2>(o: OMap<K, V>, f: K -> K2, g: V -> V2, n: nat)
    requires o.Valid() && n <= |o.keys|
    requires forall a, b :: 0 <= a < b < n ==> f(o.keys[a]) != f(o.keys[b])
    ensures RekeyedInOrder(o, f, g, n, Rekey(o, f, g, n))
  {
    if n > 0 {
      RekeyInjective(o, f, g, n - 1);
      RekeyStep(o, Rekey(o, f, g, n - 1), f, g, n - 1);
    }
  }

  /** `r` holds the first `n` entries of `o`, in order, each under `f` of its key with `g` of its value. */
  ghost predicate RekeyedInOrder<K(!new), V, K2(!new), V2>(o: OMap<K, V>, f: K -> K2, g: V -> V2, n: nat, r: OMap<K2, V2>)
    requires o.Valid() && n <= |o.keys|
  {
    |r.keys| == n &&
    (forall k :: 0 <= k < n ==> r.keys[k] == f(o.keys[k])) &&
    (forall k :: 0 <= k < n ==> f(o.keys[k]) in r.vals && r.vals[f(o.keys[k])] == g(o.vals[o.keys[k]]))
  }

  lemma RekeyStep<K(!new), V, K2(!new), V2>(o: OMap<K, V>, prev: OMap<K2, V2>, f: K -> K2, g: V -> V2, m: nat)
    requires o.Valid() && prev.Valid() && m < |o.keys|
    requires forall a :: 0 <= a < m ==> f(o.keys[a]) != f(o.keys[m])
    requires RekeyedInOrder(o, f, g, m, prev)
    ensures RekeyedInOrder(o, f, g, m + 1, Put(prev, f(o.keys[m]), g(o.vals[o.keys[m]])))
  {
    var x := f(o.keys[m]);
    assert x !in prev.keys by {
      forall k | 0 <= k < m ensures prev.keys[k] != x {
      }
    }
    var r := Put(prev, x, g(o.vals[o.keys[m]]));
    assert r.keys == prev.keys + [x];
    forall k | 0 <= k < m
      ensures f(o.keys[k]) in r.vals && r.vals[f(o.keys[k])] == g(o.vals[o.keys[k]])
    {
      assert f(o.keys[k]) in prev.vals;
    }
  }

  lemma KeysCount<K(!new), V>(o: OMap<K, V>)
    requires o.Valid()
    ensures |o.keys| == |o.vals|
  {
    DistinctCard(o.keys);
    assert o.vals.Keys == set k | k in o.keys;
  }

  lemma {:induction false} DistinctCard<T(!new)>(s: seq<T>)
    requires Distinct(s)
    ensures |set x | x in s| == |s|
  {
    if s != [] {
      var init := s[..|s| - 1];
      DistinctCard(init);
      assert s[|s| - 1] !in init;
      assert (set x | x in s) == (set x | x in init) + {s[|s| - 1]} by {
        assert s == init + [s[|s| - 1]];
      }
    }
  }
}
