/**
 * The main catalog editor: the list of items with its filters, modified-first
 * ordering and pagination, the item form (`updateItem`), bulk edits, the
 * pull-request dialog and the statistics. Its state lives in the closure of
 * the page's `DOMContentLoaded` handler and is modelled as the fields of
 * `MainEditor`.
 */
module MainEditing {
  import opened Values
  import opened Collections
  import opened StableSort
  import opened Paging
  import opened ChangeStore

  // ---------------------------------------------------------------------
  // updateItem: cleaning the form

  /** A form value that survives the clean-up: neither `''` nor `null`. */
  predicate Kept(v: Value) {
    !(v.Null? || (v.Str? && |v.s| == 0))
  }

  /** The form after the clean-up loop has visited its first `n` fields. */
  function CleanedUpTo(form: OMap<string, Value>, n: nat): (r: OMap<string, Value>)
    requires form.Valid() && n <= |form.keys|
    ensures r.Valid()
  {
    if n == 0 then form
    else
      var c := CleanedUpTo(form, n - 1);
      var key := form.keys[n - 1];
      if Kept(form.vals[key]) then c else Remove(c, key)
  }

  /** `k` is not among the first `n` of `keys`. */
  ghost predicate Unvisited(keys: seq<string>, n: nat, k: string)
    requires n <= |keys|
  {
    forall j :: 0 <= j < n ==> keys[j] != k
  }

  /** Every key of `keys` is among the first `|keys|`. */
  lemma AllVisited(keys: seq<string>, k: string)
    requires k in keys
    ensures !Unvisited(keys, |keys|, k)
  {
    var j :| 0 <= j < |keys| && keys[j] == k;
  }

  lemma UnvisitedStep(keys: seq<string>, n: nat, k: string)
    requires 0 < n <= |keys|
    ensures Unvisited(keys, n, k) <==> k != keys[n - 1] && Unvisited(keys, n - 1, k)
  {
  }

  /**
   * After visiting `n` fields the form holds `k` when it was not yet visited or
   * its value is kept, and then with its original value.
   */
  ghost predicate CleanedAt(form: OMap<string, Value>, n: nat, k: string)
    requires form.Valid() && n <= |form.keys|
  {
    var r := CleanedUpTo(form, n);
    (k in r.vals <==> k in form.vals && (Kept(form.vals[k]) || Unvisited(form.keys, n, k))) &&
    (k in r.vals ==> r.vals[k] == form.vals[k])
  }

  lemma {:induction false} CleanedFields(form: OMap<string, Value>, n: nat)
    requires form.Valid() && n <= |form.keys|
    ensures forall k :: CleanedAt(form, n, k)
  {
    if n > 0 {
      CleanedFields(form, n - 1);
      forall k
        ensures CleanedAt(form, n, k)
      {
        CleanedStep(form, n, k);
      }
    }
  }

  lemma CleanedStep(form: OMap<string, Value>, n: nat, k: string)
    requires form.Valid() && 0 < n <= |form.keys|
    requires CleanedAt(form, n - 1, k)
    ensures CleanedAt(form, n, k)
  {
    UnvisitedStep(form.keys, n, k);
  }

  /** Once every field is visited, exactly the kept fields remain, with their values. */
  lemma FilledFields(form: OMap<string, Value>)
    requires form.Valid()
    ensures var r := CleanedUpTo(form, |form.keys|);
      (forall k :: k in r.vals <==> k in form.vals && Kept(form.vals[k])) &&
      (forall k :: k in r.vals ==> r.vals[k] == form.vals[k])
  {
    CleanedFields(form, |form.keys|);
    forall k
      ensures var r := CleanedUpTo(form, |form.keys|);
        (k in r.vals <==> k in form.vals && Kept(form.vals[k])) && (k in r.vals ==> r.vals[k] == form.vals[k])
    {
      assert CleanedAt(form, |form.keys|, k);
      if k in form.vals {
        AllVisited(form.keys, k);
      }
    }
  }

  /** `formData` once every `''` and `null` entry is deleted, in the form's field order. */
  function Filled(form: OMap<string, Value>): (r: OMap<string, Value>)
    requires form.Valid()
    ensures r.Valid()
    ensures forall k :: k in r.vals <==> k in form.vals && Kept(form.vals[k])
    ensures forall k :: k in r.vals ==> r.vals[k] == form.vals[k]
  {
    FilledFields(form);
    CleanedUpTo(form, |form.keys|)
  }

  /** The clean-up loop: `Object.keys(formData).forEach(key => { if (...) delete formData[key]; })`. */
  method DropEmpty(form: OMap<string, Value>) returns (filled: OMap<string, Value>)
    requires form.Valid()
    ensures filled == Filled(form)
  {
    filled := form;
    var i := 0;
    while i < |form.keys|
      invariant 0 <= i <= |form.keys|
      invariant filled == CleanedUpTo(form, i)
      invariant filled.Valid()
    {
      var key := form.keys[i];
      assert CleanedUpTo(form, i + 1) == if Kept(form.vals[key]) then filled else Remove(filled, key);
      if !Kept(form.vals[key]) {
        filled := Remove(filled, key);
      }
      i := i + 1;
    }
  }

  // ---------------------------------------------------------------------
  // updateItem and applyBulkEdit: what changed, and how it is recorded

  /** Field `k` of the update holds a value not `===` the item's current one. */
  predicate Differs(update: OMap<string, Value>, previous: Item, k: string) {
    k in update.vals && !StrictEq(update.vals[k], Get(previous, k))
  }

  /** The fields among the first `n` of `update` whose value differs from the item's, in order. */
  function ChangedKeysUpTo(update: OMap<string, Value>, previous: Item, n: nat): (ks: seq<string>)
    requires n <= |update.keys|
  {
    if n == 0 then []
    else
      var key := update.keys[n - 1];
      if Differs(update, previous, key) then ChangedKeysUpTo(update, previous, n - 1) + [key]
      else ChangedKeysUpTo(update, previous, n - 1)
  }

  /** The changed fields among the first `n` are exactly those of them that differ, each once. */
  lemma {:induction false} ChangedKeysUpToFields(update: OMap<string, Value>, previous: Item, n: nat)
    requires update.Valid() && n <= |update.keys|
    ensures var ks := ChangedKeysUpTo(update, previous, n);
      (forall k :: k in ks <==> !Unvisited(update.keys, n, k) && Differs(update, previous, k)) && Distinct(ks)
  {
    if n > 0 {
      ChangedKeysUpToFields(update, previous, n - 1);
      var key := update.keys[n - 1];
      assert Unvisited(update.keys, n - 1, key);
      forall k | k != key
        ensures Unvisited(update.keys, n, k) <==> Unvisited(update.keys, n - 1, k)
      {
      }
    }
  }

  /** The fields of `update` whose value differs from the item's, in the update's order. */
  function ChangedKeys(update: OMap<string, Value>, previous: Item): (ks: seq<string>)
    requires update.Valid()
    ensures forall k :: k in ks <==> k in update.vals && !StrictEq(update.vals[k], Get(previous, k))
  {
    ChangedKeysUpToFields(update, previous, |update.keys|);
    forall k | k in update.vals {
      AllVisited(update.keys, k);
    }
    ChangedKeysUpTo(update, previous, |update.keys|)
  }

  /** The pending entry of `id`, or `{}` when it has none. */
  function EntryOf(pending: Pending, id: string): (e: OMap<string, Value>)
    requires PendingValid(pending)
    ensures e.Valid()
    ensures id in pending.vals ==> e == pending.vals[id]
    ensures id !in pending.vals ==> e.vals == map[]
  {
    if id in pending.vals then pending.vals[id] else Empty()
  }

  /** `entry[key] = src[key]` for each key of `keys` in turn. */
  function Stored(entry: OMap<string, Value>, src: Item, keys: seq<string>): (r: OMap<string, Value>)
    requires entry.Valid()
    ensures r.Valid()
    decreases |keys|
  {
    if keys == [] then entry
    else
      var last := keys[|keys| - 1];
      Put(Stored(entry, src, keys[..|keys| - 1]), last, Get(src, last))
  }

  /**
   * Storing adds exactly the stored keys, after the entry's own, each with the
   * value of `src`; every other field keeps its value.
   */
  lemma {:induction false} StoredFields(entry: OMap<string, Value>, src: Item, keys: seq<string>)
    requires entry.Valid()
    ensures var r := Stored(entry, src, keys);
      (forall k :: k in r.vals <==> k in entry.vals || k in keys) &&
      (forall k :: k in r.vals ==> r.vals[k] == if k in keys then Get(src, k) else entry.vals[k]) &&
      |r.keys| >= |entry.keys| && r.keys[..|entry.keys|] == entry.keys
    decreases |keys|
  {
    StoredKeepsOrder(entry, src, keys);
    if keys != [] {
      var init := keys[..|keys| - 1];
      assert forall k :: k in keys <==> k in init || k == keys[|keys| - 1];
      StoredFields(entry, src, init);
    }
  }

  /** Storing keeps the entry's own keys first, in their order. */
  lemma {:induction false} StoredKeepsOrder(entry: OMap<string, Value>, src: Item, keys: seq<string>)
    requires entry.Valid()
    ensures var r := Stored(entry, src, keys);
      |r.keys| >= |entry.keys| && r.keys[..|entry.keys|] == entry.keys
    decreases |keys|
  {
    if keys != [] {
      var init := keys[..|keys| - 1];
      StoredKeepsOrder(entry, src, init);
      var prev := Stored(entry, src, init);
      assert prev.keys[..|entry.keys|] == entry.keys;
      assert (prev.keys + [keys[|keys| - 1]])[..|entry.keys|] == prev.keys[..|entry.keys|];
    }
  }

  /** The history entries logged for `keys`, each recording the item's old value and the update's new one. */
  function Records(id: string, title: Value, previous: Item, src: Item, keys: seq<string>, now: int, suffix: string): (rs: seq<HistoryRecord>)
    ensures |rs| == |keys|
  {
    seq(|keys|, i requires 0 <= i < |keys| => RecordFor(id, title, keys[i], Get(previous, keys[i]), Get(src, keys[i]), now, suffix))
  }

  lemma RecordsSnoc(id: string, title: Value, previous: Item, src: Item, keys: seq<string>, k: string, now: int, suffix: string)
    ensures Records(id, title, previous, src, keys + [k], now, suffix) ==
      Records(id, title, previous, src, keys, now, suffix) + [RecordFor(id, title, k, Get(previous, k), Get(src, k), now, suffix)]
  {
  }

  lemma StoredSnoc(entry: OMap<string, Value>, src: Item, keys: seq<string>, k: string)
    requires entry.Valid()
    ensures Stored(entry, src, keys + [k]) == Put(Stored(entry, src, keys), k, Get(src, k))
  {
    assert (keys + [k])[..|keys|] == keys;
  }

  /**
   * One turn of a recording loop: the history grows by the record of field
   * `i` exactly when its value is not `===` the item's previous one.
   */
  lemma HistoryStep(history: seq<HistoryRecord>, id: string, title: Value, previous: Item, u: OMap<string, Value>,
                    now: int, suffix: string, i: nat)
    requires u.Valid() && i < |u.keys|
    ensures var key := u.keys[i];
      var logged := history + Records(id, title, previous, u.vals, ChangedKeysUpTo(u, previous, i), now, suffix);
      history + Records(id, title, previous, u.vals, ChangedKeysUpTo(u, previous, i + 1), now, suffix) ==
        if !StrictEq(u.vals[key], Get(previous, key))
        then logged + [RecordFor(id, title, key, Get(previous, key), u.vals[key], now, suffix)]
        else logged
  {
    var key := u.keys[i];
    var done := ChangedKeysUpTo(u, previous, i);
    if Differs(u, previous, key) {
      RecordsSnoc(id, title, previous, u.vals, done, key, now, suffix);
      AppendAssoc(history, Records(id, title, previous, u.vals, done, now, suffix),
                  [RecordFor(id, title, key, Get(previous, key), u.vals[key], now, suffix)]);
    }
  }

  /** The `hasChanges` loop of `updateItem`. */
  method HasChanges(filled: OMap<string, Value>, original: Item) returns (changed: bool)
    requires filled.Valid()
    ensures changed <==> ChangedKeys(filled, original) != []
  {
    changed := false;
    var i := 0;
    while i < |filled.keys|
      invariant 0 <= i <= |filled.keys|
      invariant changed <==> exists j :: 0 <= j < i && Differs(filled, original, filled.keys[j])
    {
      if filled.vals[filled.keys[i]] != Get(original, filled.keys[i]) || filled.vals[filled.keys[i]].List? {
        changed := true;
      }
      i := i + 1;
    }
    ghost var ks := ChangedKeys(filled, original);
    if changed {
      var j :| 0 <= j < i && Differs(filled, original, filled.keys[j]);
      assert filled.keys[j] in ks;
    }
    if ks != [] {
      assert ks[0] in ks;
      var j :| 0 <= j < |filled.keys| && filled.keys[j] == ks[0];
      assert Differs(filled, original, filled.keys[j]);
    }
  }

  /**
   * The recording loop of `updateItem`: every field of the form whose value
   * differs from the item's previous one is stored in the item's pending
   * entry and logged in the history.
   */
  method RecordChanges(entry: OMap<string, Value>, history: seq<HistoryRecord>, filled: OMap<string, Value>,
                       previous: Item, id: string, title: Value, now: int)
    returns (entry': OMap<string, Value>, history': seq<HistoryRecord>)
    requires entry.Valid() && filled.Valid()
    ensures entry' == Stored(entry, filled.vals, ChangedKeys(filled, previous))
    ensures history' == history + Records(id, title, previous, filled.vals, ChangedKeys(filled, previous), now, "")
  {
    entry', history' := entry, history;
    var i := 0;
    ghost var changed: seq<string> := [];
    while i < |filled.keys|
      invariant 0 <= i <= |filled.keys|
      invariant changed == ChangedKeysUpTo(filled, previous, i)
      invariant entry' == Stored(entry, filled.vals, changed)
      invariant history' == history + Records(id, title, previous, filled.vals, changed, now, "")
    {
      var key := filled.keys[i];
      if !StrictEq(filled.vals[key], Get(previous, key)) {
        StoredSnoc(entry, filled.vals, changed, key);
        RecordsSnoc(id, title, previous, filled.vals, changed, key, now, "");
        AppendAssoc(history, Records(id, title, previous, filled.vals, changed, now, ""),
                    [RecordFor(id, title, key, Get(previous, key), filled.vals[key], now, "")]);
        entry' := Put(entry', key, filled.vals[key]);
        history' := history' + [RecordFor(id, title, key, Get(previous, key), filled.vals[key], now, "")];
        changed := changed + [key];
      }
      i := i + 1;
    }
  }

  /**
   * The history `updateItem` logs names exactly the fields whose new value is
   * not `===` the old one, each with its old and its new value (`''` for a
   * falsy one).
   */
  lemma UpdateLogsExactlyTheChanges(id: string, title: Value, previous: Item, filled: OMap<string, Value>, now: int, suffix: string)
    requires filled.Valid()
    ensures var rs := Records(id, title, previous, filled.vals, ChangedKeys(filled, previous), now, suffix);
      (forall i :: 0 <= i < |rs| ==>
         rs[i].itemId == id && rs[i].field in filled.vals &&
         !StrictEq(filled.vals[rs[i].field], Get(previous, rs[i].field)) &&
         rs[i].newValue == Or(filled.vals[rs[i].field], Str("")) &&
         rs[i].oldValue == Or(Get(previous, rs[i].field), Str(""))) &&
      (forall k :: k in filled.vals && !StrictEq(filled.vals[k], Get(previous, k)) ==>
         exists i :: 0 <= i < |rs| && rs[i].field == k)
  {
    var ks := ChangedKeys(filled, previous);
    var rs := Records(id, title, previous, filled.vals, ks, now, suffix);
    forall k | k in filled.vals && !StrictEq(filled.vals[k], Get(previous, k))
      ensures exists i :: 0 <= i < |rs| && rs[i].field == k
    {
      assert k in ks;
      var i :| 0 <= i < |ks| && ks[i] == k;
      assert rs[i].field == k;
    }
  }

  /**
   * A change that makes the item take on the values of `update` and stores
   * each of `keys` in the item's pending entry keeps every pending change
   * visible in the catalog, as long as `keys` holds every field whose value
   * actually changed.
   */
  lemma StoreKeepsAgreement(data: Catalog, pending: Pending, id: string, update: OMap<string, Value>, keys: seq<string>)
    requires data.Valid() && PendingValid(pending) && update.Valid()
    requires LedgerAgrees(data, pending) && id in data.vals
    requires forall k :: k in keys ==> k in update.vals
    requires forall k :: Differs(update, data.vals[id], k) ==> k in keys
    ensures LedgerAgrees(Put(data, id, data.vals[id] + update.vals),
                         Put(pending, id, Stored(EntryOf(pending, id), update.vals, keys)))
  {
    var item := data.vals[id] + update.vals;
    var entry := Stored(EntryOf(pending, id), update.vals, keys);
    StoredFields(EntryOf(pending, id), update.vals, keys);
    forall f | f in entry.vals
      ensures Get(item, f) == entry.vals[f]
    {
      if f in keys {
      } else if f in update.vals {
        assert !Differs(update, data.vals[id], f);
      }
    }
  }

  // ---------------------------------------------------------------------
  // applyBulkEdit

  /**
   * The bulk-edit dialog: for each field, `null` when its box is unchecked,
   * otherwise the chosen value. With the processed box checked and no radio
   * button chosen, `processed` is `undefined`.
   */
  datatype BulkForm = BulkForm(genre: Value, language: Value, processed: Value)

  lemma BulkFieldsDiffer()
    ensures "real_genre" != "real_language" && "real_genre" != "processed" && "real_language" != "processed"
  {
    assert |"real_genre"| == 10 && |"real_language"| == 13 && |"processed"| == 9;
  }

  /** `updates`: the same fields for every selected item, in the order genre, language, processed. */
  function BulkUpdates(f: BulkForm): (u: OMap<string, Value>)
    ensures u.Valid()
    ensures forall k :: k in u.vals <==>
      (k == "real_genre" && Truthy(f.genre)) || (k == "real_language" && Truthy(f.language)) ||
      (k == "processed" && f.processed != Null)
    ensures "real_genre" in u.vals ==> u.vals["real_genre"] == f.genre
    ensures "real_language" in u.vals ==> u.vals["real_language"] == f.language
    ensures "processed" in u.vals ==> u.vals["processed"] == Bool(f.processed == Str("true"))
  {
    BulkFieldsDiffer();
    var u0: OMap<string, Value> := Empty();
    var u1 := if Truthy(f.genre) then Put(u0, "real_genre", f.genre) else u0;
    var u2 := if Truthy(f.language) then Put(u1, "real_language", f.language) else u1;
    if f.processed != Null then Put(u2, "processed", Bool(f.processed == Str("true"))) else u2
  }

  /** The state `updateItem`, `applyBulkEdit` and `submitChanges` change together. */
  datatype Ledger = Ledger(data: Catalog, pending: Pending, history: seq<HistoryRecord>) {
    ghost predicate Valid() {
      data.Valid() && PendingValid(pending)
    }
  }

  /**
   * One selected item of a bulk edit: an item the catalog lacks is skipped;
   * otherwise it takes on the updates, its pending entry gains all of them,
   * and the fields whose value really changes are logged with the `_bulk`
   * suffix, under the title the item had before.
   */
  function BulkItem(l: Ledger, id: string, u: OMap<string, Value>, now: int): (r: Ledger)
    requires l.Valid() && u.Valid()
    ensures r.Valid()
    ensures r.data.keys == l.data.keys && r.data.vals.Keys == l.data.vals.Keys
  {
    if id !in l.data.vals || u.keys == [] then l
    else
      var previous := l.data.vals[id];
      Ledger(Put(l.data, id, previous + u.vals),
             Put(l.pending, id, Merge(EntryOf(l.pending, id), u)),
             l.history + Records(id, ItemTitle(previous, id), previous, u.vals, ChangedKeys(u, previous), now, "_bulk"))
  }

  /** The bulk edit of the first `n` selected items, in selection order. */
  function BulkAll(l: Ledger, ids: seq<string>, u: OMap<string, Value>, now: int, n: nat): (r: Ledger)
    requires l.Valid() && u.Valid() && n <= |ids|
    ensures r.Valid()
    ensures r.data.keys == l.data.keys && r.data.vals.Keys == l.data.vals.Keys
  {
    if n == 0 then l else BulkItem(BulkAll(l, ids, u, now, n - 1), ids[n - 1], u, now)
  }

  /** The history loop of `applyBulkEdit` for one item. */
  method LogChanges(history: seq<HistoryRecord>, u: OMap<string, Value>, previous: Item, id: string, title: Value, now: int)
    returns (history': seq<HistoryRecord>)
    requires u.Valid()
    ensures history' == history + Records(id, title, previous, u.vals, ChangedKeys(u, previous), now, "_bulk")
  {
    history' := history;
    var i := 0;
    while i < |u.keys|
      invariant 0 <= i <= |u.keys|
      invariant history' == history + Records(id, title, previous, u.vals, ChangedKeysUpTo(u, previous, i), now, "_bulk")
    {
      var key := u.keys[i];
      HistoryStep(history, id, title, previous, u, now, "_bulk", i);
      if !StrictEq(u.vals[key], Get(previous, key)) {
        history' := history' + [RecordFor(id, title, key, Get(previous, key), u.vals[key], now, "_bulk")];
      }
      i := i + 1;
    }
  }

  /** The loop of `applyBulkEdit` over the selected items. */
  method BulkEdit(l: Ledger, ids: seq<string>, u: OMap<string, Value>, now: int) returns (r: Ledger)
    requires l.Valid() && u.Valid()
    ensures r == BulkAll(l, ids, u, now, |ids|)
  {
    r := l;
    var i := 0;
    while i < |ids|
      invariant 0 <= i <= |ids|
      invariant r == BulkAll(l, ids, u, now, i)
    {
      assert BulkAll(l, ids, u, now, i + 1) == BulkItem(r, ids[i], u, now);
      r := BulkEditItem(r, ids[i], u, now);
      i := i + 1;
    }
  }

  /** The body of `applyBulkEdit`'s loop for the selected item `id`. */
  method BulkEditItem(l: Ledger, id: string, u: OMap<string, Value>, now: int) returns (r: Ledger)
    requires l.Valid() && u.Valid()
    ensures r == BulkItem(l, id, u, now)
  {
    r := l;
    if id in l.data.vals && |u.keys| > 0 {
      var previous := l.data.vals[id];
      var title := ItemTitle(previous, id);
      var history := LogChanges(l.history, u, previous, id, title, now);
      r := Ledger(Put(l.data, id, previous + u.vals), Put(l.pending, id, Merge(EntryOf(l.pending, id), u)), history);
    }
  }

  /** The item `x` of `data` once the first `n` selected ids have taken on the updates `u`. */
  ghost function Bulked(data: Catalog, ids: seq<string>, n: nat, u: OMap<string, Value>, x: string): Item
    requires x in data.vals && n <= |ids|
  {
    if !Unvisited(ids, n, x) && u.keys != [] then data.vals[x] + u.vals else data.vals[x]
  }

  /** Taking on the same updates twice is taking them on once. */
  lemma UnionTwice(a: Item, b: Item)
    ensures a + b + b == a + b
  {
  }

  /** One item of a bulk edit changes that item of the catalog and no other. */
  lemma BulkItemAt(l: Ledger, id: string, u: OMap<string, Value>, now: int, x: string)
    requires l.Valid() && u.Valid() && x in l.data.vals
    ensures BulkItem(l, id, u, now).data.vals[x] == if x == id && u.keys != [] then l.data.vals[x] + u.vals else l.data.vals[x]
  {
  }

  lemma BulkStepAt(l: Ledger, ids: seq<string>, u: OMap<string, Value>, now: int, n: nat, x: string)
    requires l.Valid() && u.Valid() && 0 < n <= |ids| && x in l.data.vals
    requires BulkAll(l, ids, u, now, n - 1).data.vals[x] == Bulked(l.data, ids, n - 1, u, x)
    ensures BulkAll(l, ids, u, now, n).data.vals[x] == Bulked(l.data, ids, n, u, x)
  {
    UnvisitedStep(ids, n, x);
    BulkItemAt(BulkAll(l, ids, u, now, n - 1), ids[n - 1], u, now, x);
    if x == ids[n - 1] && u.keys != [] {
      UnionTwice(l.data.vals[x], u.vals);
    }
  }

  /**
   * After a bulk edit every selected item of the catalog holds the updated
   * values and every other item is as it was; no item is added or moved.
   */
  lemma {:induction false} BulkCatalog(l: Ledger, ids: seq<string>, u: OMap<string, Value>, now: int, n: nat)
    requires l.Valid() && u.Valid() && n <= |ids|
    ensures BulkAll(l, ids, u, now, n).data.keys == l.data.keys
    ensures forall x {:trigger Bulked(l.data, ids, n, u, x)} :: x in l.data.vals ==>
      x in BulkAll(l, ids, u, now, n).data.vals && BulkAll(l, ids, u, now, n).data.vals[x] == Bulked(l.data, ids, n, u, x)
  {
    if n > 0 {
      BulkCatalog(l, ids, u, now, n - 1);
      forall x | x in l.data.vals
        ensures BulkAll(l, ids, u, now, n).data.vals[x] == Bulked(l.data, ids, n, u, x)
      {
        BulkStepAt(l, ids, u, now, n, x);
      }
    } else {
      BulkCatalogStart(l, ids, u, now);
    }
  }

  lemma BulkCatalogStart(l: Ledger, ids: seq<string>, u: OMap<string, Value>, now: int)
    requires l.Valid() && u.Valid()
    ensures forall x {:trigger Bulked(l.data, ids, 0, u, x)} :: x in l.data.vals ==>
      BulkAll(l, ids, u, now, 0).data.vals[x] == Bulked(l.data, ids, 0, u, x)
  {
    forall x | x in l.data.vals
      ensures BulkAll(l, ids, u, now, 0).data.vals[x] == Bulked(l.data, ids, 0, u, x)
    {
      assert Unvisited(ids, 0, x);
    }
  }

  /** One item of a bulk edit: its pending entry gains the updates; no other entry changes. */
  lemma BulkItemPending(l: Ledger, id: string, u: OMap<string, Value>, now: int)
    requires l.Valid() && u.Valid()
    ensures var r := BulkItem(l, id, u, now).pending;
      (id in l.data.vals && u.keys != [] ==>
         id in r.vals && forall k :: k in u.vals ==> k in r.vals[id].vals && r.vals[id].vals[k] == u.vals[k]) &&
      (forall x :: x != id ==> (x in r.vals <==> x in l.pending.vals) && (x in r.vals ==> r.vals[x] == l.pending.vals[x]))
  {
  }

  /**
   * The pending entry of `x` once the first `n` selected ids have taken on the
   * updates `u`: a visited item of the catalog holds each update, any other
   * entry is as it was.
   */
  ghost predicate PendingAfter(l: Ledger, ids: seq<string>, u: OMap<string, Value>, n: nat, r: Pending, x: string)
    requires n <= |ids|
  {
    (!Unvisited(ids, n, x) && x in l.data.vals && u.keys != [] ==>
       x in r.vals && forall k :: k in u.vals ==> k in r.vals[x].vals && r.vals[x].vals[k] == u.vals[k]) &&
    (Unvisited(ids, n, x) ==> (x in r.vals <==> x in l.pending.vals) && (x in r.vals ==> r.vals[x] == l.pending.vals[x]))
  }

  lemma BulkPendingStepAt(l: Ledger, ids: seq<string>, u: OMap<string, Value>, now: int, n: nat, x: string)
    requires l.Valid() && u.Valid() && 0 < n <= |ids|
    requires PendingAfter(l, ids, u, n - 1, BulkAll(l, ids, u, now, n - 1).pending, x)
    ensures PendingAfter(l, ids, u, n, BulkAll(l, ids, u, now, n).pending, x)
  {
    UnvisitedStep(ids, n, x);
    BulkItemPending(BulkAll(l, ids, u, now, n - 1), ids[n - 1], u, now);
  }

  /**
   * After a bulk edit the pending entry of every selected item of the catalog
   * holds each of the updates; the entries of the other items are as they were.
   */
  lemma {:induction false} BulkPending(l: Ledger, ids: seq<string>, u: OMap<string, Value>, now: int, n: nat)
    requires l.Valid() && u.Valid() && n <= |ids|
    ensures forall x :: PendingAfter(l, ids, u, n, BulkAll(l, ids, u, now, n).pending, x)
  {
    if n > 0 {
      BulkPending(l, ids, u, now, n - 1);
      forall x {
        BulkPendingStepAt(l, ids, u, now, n, x);
      }
    }
  }

  /** One item of a bulk edit keeps every pending change visible in the catalog. */
  lemma BulkItemAgrees(l: Ledger, id: string, u: OMap<string, Value>, now: int)
    requires l.Valid() && u.Valid() && LedgerAgrees(l.data, l.pending)
    ensures var r := BulkItem(l, id, u, now); LedgerAgrees(r.data, r.pending)
  {
    if id in l.data.vals && u.keys != [] {
      var item := l.data.vals[id] + u.vals;
      var entry := Merge(EntryOf(l.pending, id), u);
      forall f | f in entry.vals
        ensures Get(item, f) == entry.vals[f]
      {
      }
    }
  }

  /** A bulk edit keeps every pending change visible in the catalog. */
  lemma {:induction false} BulkKeepsAgreement(l: Ledger, ids: seq<string>, u: OMap<string, Value>, now: int, n: nat)
    requires l.Valid() && u.Valid() && n <= |ids|
    requires LedgerAgrees(l.data, l.pending)
    ensures var r := BulkAll(l, ids, u, now, n); LedgerAgrees(r.data, r.pending)
  {
    if n > 0 {
      BulkKeepsAgreement(l, ids, u, now, n - 1);
      BulkItemAgrees(BulkAll(l, ids, u, now, n - 1), ids[n - 1], u, now);
    }
  }
}
