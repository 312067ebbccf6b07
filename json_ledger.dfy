/**
 * The JSON editor's change ledger: for each edited item (in the order items
 * were first edited) the fields changed on it (in the order they were first
 * changed), each with the value the field held before the first edit and the
 * value it holds now. Cell edits, undo, bulk edits and bulk deletion act on
 * the table and the ledger together; saving flattens the ledger into the
 * payload sent to the server.
 */
module JsonLedger {
  import opened Values
  import opened Collections
  import opened JsonCells

  datatype Change = Change(before: Value, after: Value)

  type FieldChanges = OMap<string, Change>

  /** `changedItems`: a `Map` from item id to a `Map` from field to change. */
  type Ledger = OMap<Value, FieldChanges>

  /** Every recorded item has at least one recorded field. */
  ghost predicate LedgerValid(l: Ledger) {
    l.Valid() && forall id :: id in l.vals ==> l.vals[id].Valid() && l.vals[id].keys != []
  }

  lemma PutKeepsValid(ledger: Ledger, id: Value, inner: FieldChanges)
    requires LedgerValid(ledger) && inner.Valid() && inner.keys != []
    ensures LedgerValid(Put(ledger, id, inner))
  {
    var l := Put(ledger, id, inner);
    forall k | k in l.vals ensures l.vals[k].Valid() && l.vals[k].keys != [] {
      if k != id {
        assert k in ledger.vals;
      }
    }
  }

  function PutEntry(ledger: Ledger, id: Value, inner: FieldChanges): (r: Ledger)
    requires LedgerValid(ledger) && inner.Valid() && inner.keys != []
    ensures LedgerValid(r) && r == Put(ledger, id, inner)
  {
    PutKeepsValid(ledger, id, inner);
    Put(ledger, id, inner)
  }

  /** The table and the ledger after an edit, and whether the edit reported success. */
  datatype EditOutcome = EditOutcome(ok: bool, data: seq<Item>, ledger: Ledger)

  /** The entry `column` would get when `newValue` is written over `oldValue` in a row with changes `inner`. */
  function Record(inner: FieldChanges, column: string, oldValue: Value, newValue: Value): (r: FieldChanges)
    requires inner.Valid()
    ensures r.Valid() && r.keys != [] && column in r.vals
  {
    if column in inner.vals then Put(inner, column, Change(inner.vals[column].before, newValue))
    else Put(inner, column, Change(oldValue, newValue))
  }

  /**
   * `updateItemValue(itemId, column, newValue)`: find the row, validate the value for
   * its column, and, when it differs from the current value, write it and record the
   * change, keeping the value from before the first edit of that field.
   */
  function Edit(data: seq<Item>, ledger: Ledger, itemId: Value, column: string, newValue: Value,
                currentYear: int, isUrl: string -> bool): (o: EditOutcome)
    requires LedgerValid(ledger)
    ensures LedgerValid(o.ledger) && |o.data| == |data|
    ensures o.ok <==> FindRow(data, itemId).Some? && ValidateCellValue(newValue, column, currentYear, isUrl) == []
    ensures !o.ok ==> o.data == data && o.ledger == ledger
  {
    match FindRow(data, itemId)
    case None => EditOutcome(false, data, ledger)
    case Some(i) =>
      var oldValue := Get(data[i], column);
      if ValidateCellValue(newValue, column, currentYear, isUrl) != [] then EditOutcome(false, data, ledger)
      else if StrictEq(oldValue, newValue) then EditOutcome(true, data, ledger)
      else
        var inner := if itemId in ledger.vals then ledger.vals[itemId] else Empty();
        var ledger' := PutEntry(ledger, itemId, Record(inner, column, oldValue, newValue));
        EditOutcome(true, data[i := data[i][column := newValue]], ledger')
  }

  /**
   * After a successful edit the found row holds the new value in `column`, and
   * every other cell of the table reads as before.
   */
  lemma EditWritesCell(data: seq<Item>, ledger: Ledger, itemId: Value, column: string, newValue: Value,
                       currentYear: int, isUrl: string -> bool)
    requires LedgerValid(ledger)
    ensures var o := Edit(data, ledger, itemId, column, newValue, currentYear, isUrl);
            o.ok ==> var i := FindRow(data, itemId).value;
                     Get(o.data[i], column) == newValue &&
                     (forall j, c :: 0 <= j < |data| && (j != i || c != column) ==> Get(o.data[j], c) == Get(data[j], c))
  {
  }

  /**
   * A change is recorded when the value differs: the entry holds the new value and,
   * as its old value, the value from before the FIRST edit of that field on that
   * item. Nothing else in the ledger changes.
   */
  lemma EditRecordsChange(data: seq<Item>, ledger: Ledger, itemId: Value, column: string, newValue: Value,
                          currentYear: int, isUrl: string -> bool)
    requires LedgerValid(ledger)
    requires FindRow(data, itemId).Some? && ValidateCellValue(newValue, column, currentYear, isUrl) == []
    requires !StrictEq(Get(data[FindRow(data, itemId).value], column), newValue)
    ensures var o := Edit(data, ledger, itemId, column, newValue, currentYear, isUrl);
            var prior := Get(data[FindRow(data, itemId).value], column);
            itemId in o.ledger.vals && column in o.ledger.vals[itemId].vals &&
            o.ledger.vals[itemId].vals[column] ==
              (if itemId in ledger.vals && column in ledger.vals[itemId].vals
               then Change(ledger.vals[itemId].vals[column].before, newValue)
               else Change(prior, newValue))
    ensures var o := Edit(data, ledger, itemId, column, newValue, currentYear, isUrl);
            (forall id :: id in ledger.vals && id != itemId ==> id in o.ledger.vals && o.ledger.vals[id] == ledger.vals[id]) &&
            (forall f :: itemId in ledger.vals && f in ledger.vals[itemId].vals && f != column ==>
               o.ledger.vals[itemId].vals[f] == ledger.vals[itemId].vals[f])
  {
  }

  /** Writing the value a cell already holds reports success and changes nothing. */
  lemma EditSameValue(data: seq<Item>, ledger: Ledger, itemId: Value, column: string, newValue: Value,
                      currentYear: int, isUrl: string -> bool)
    requires LedgerValid(ledger)
    requires FindRow(data, itemId).Some? && ValidateCellValue(newValue, column, currentYear, isUrl) == []
    requires StrictEq(Get(data[FindRow(data, itemId).value], column), newValue)
    ensures Edit(data, ledger, itemId, column, newValue, currentYear, isUrl) == EditOutcome(true, data, ledger)
  {
  }

  /** Every change already recorded keeps its old value through any edit. */
  lemma EditKeepsOriginals(data: seq<Item>, ledger: Ledger, itemId: Value, column: string, newValue: Value,
                           currentYear: int, isUrl: string -> bool)
    requires LedgerValid(ledger)
    ensures var o := Edit(data, ledger, itemId, column, newValue, currentYear, isUrl);
            forall id, f :: id in ledger.vals && f in ledger.vals[id].vals ==>
              id in o.ledger.vals && f in o.ledger.vals[id].vals &&
              o.ledger.vals[id].vals[f].before == ledger.vals[id].vals[f].before
  {
    match FindRow(data, itemId)
    case None =>
    case Some(i) =>
      var oldValue := Get(data[i], column);
      if ValidateCellValue(newValue, column, currentYear, isUrl) == [] && !StrictEq(oldValue, newValue) {
        var inner := if itemId in ledger.vals then ledger.vals[itemId] else Empty();
        RecordEntryKeepsBefore(ledger, itemId, column, oldValue, newValue);
        assert Edit(data, ledger, itemId, column, newValue, currentYear, isUrl).ledger ==
          PutEntry(ledger, itemId, Record(inner, column, oldValue, newValue));
      }
  }

  lemma RecordEntryKeepsBefore(ledger: Ledger, itemId: Value, column: string, oldValue: Value, newValue: Value)
    requires LedgerValid(ledger)
    ensures var inner := if itemId in ledger.vals then ledger.vals[itemId] else Empty();
            var l := PutEntry(ledger, itemId, Record(inner, column, oldValue, newValue));
            forall id, f :: id in ledger.vals && f in ledger.vals[id].vals ==>
              id in l.vals && f in l.vals[id].vals && l.vals[id].vals[f].before == ledger.vals[id].vals[f].before
  {
    var inner := if itemId in ledger.vals then ledger.vals[itemId] else Empty();
    RecordKeepsBefore(inner, column, oldValue, newValue);
  }

  lemma RecordKeepsBefore(inner: FieldChanges, column: string, oldValue: Value, newValue: Value)
    requires inner.Valid()
    ensures var r := Record(inner, column, oldValue, newValue);
            forall f :: f in inner.vals ==> f in r.vals && r.vals[f].before == inner.vals[f].before
  {
  }

  /** An edit of a field other than `id` leaves every row's key as it was. */
  lemma EditKeepsRowKeys(data: seq<Item>, ledger: Ledger, itemId: Value, column: string, newValue: Value,
                         currentYear: int, isUrl: string -> bool)
    requires LedgerValid(ledger) && column != "id"
    ensures var o := Edit(data, ledger, itemId, column, newValue, currentYear, isUrl);
            forall j :: 0 <= j < |data| ==> Get(o.data[j], "id") == Get(data[j], "id")
  {
    match FindRow(data, itemId)
    case None =>
    case Some(i) =>
      EditKeepsKeys(data, i, column, newValue);
  }

  // ---------------------------------------------------------------------
  // Undo

  /**
   * `undoLastChange()`: take the field changed last on the item edited last, write
   * its old value back and drop that entry, and the item too when it has no other
   * change. Nothing happens when the ledger is empty or the item cannot be found.
   */
  function Undo(data: seq<Item>, ledger: Ledger): (r: (seq<Item>, Ledger))
    requires LedgerValid(ledger)
    ensures LedgerValid(r.1) && |r.0| == |data|
    ensures ledger.keys == [] ==> r == (data, ledger)
  {
    if ledger.keys == [] then (data, ledger)
    else
      var id := ledger.keys[|ledger.keys| - 1];
      var inner := ledger.vals[id];
      var field := inner.keys[|inner.keys| - 1];
      match FindRow(data, id)
      case None => (data, ledger)
      case Some(i) => (data[i := data[i][field := inner.vals[field].before]], Drop(ledger, id, field))
  }

  /** The ledger without the change to `field` of item `id`, and without the item once it has no change left. */
  function Drop(ledger: Ledger, id: Value, field: string): (r: Ledger)
    requires LedgerValid(ledger) && id in ledger.vals
    ensures LedgerValid(r)
  {
    var inner' := Remove(ledger.vals[id], field);
    if inner'.keys == [] then
      assert LedgerValid(Remove(ledger, id)) by {
        forall k | k in Remove(ledger, id).vals ensures k in ledger.vals {
        }
      }
      Remove(ledger, id)
    else PutEntry(ledger, id, inner')
  }

  /**
   * Dropping the change to the last field of item `id`: the item keeps its other
   * fields in order, and leaves the ledger exactly when that was its only field;
   * every other item keeps its changes.
   */
  lemma DropLast(ledger: Ledger, id: Value)
    requires LedgerValid(ledger) && id in ledger.vals
    ensures var inner := ledger.vals[id];
            var field := inner.keys[|inner.keys| - 1];
            var r := Drop(ledger, id, field);
            (id in r.vals <==> |inner.keys| > 1) &&
            (id in r.vals ==> (r.vals[id].keys == inner.keys[..|inner.keys| - 1] &&
                               r.vals[id].vals == inner.vals - {field})) &&
            (forall other :: other in ledger.vals && other != id ==> other in r.vals && r.vals[other] == ledger.vals[other])
  {
    var inner := ledger.vals[id];
    RemoveLastKey(inner);
  }

  /** Dropping an item's last change keeps the ledger's order, less the item when it has no change left. */
  lemma DropLastOrder(ledger: Ledger)
    requires LedgerValid(ledger) && ledger.keys != []
    ensures var id := ledger.keys[|ledger.keys| - 1];
            var inner := ledger.vals[id];
            Drop(ledger, id, inner.keys[|inner.keys| - 1]).keys ==
              if |inner.keys| > 1 then ledger.keys else ledger.keys[..|ledger.keys| - 1]
  {
    var id := ledger.keys[|ledger.keys| - 1];
    RemoveLastKey(ledger.vals[id]);
    RemoveLastKey(ledger);
  }

  /**
   * Undo in general: when the item edited last is found in the table, the field
   * changed last on it gets its old value back and every other cell reads as
   * before; the ledger loses that one change, and the item too when it had no
   * other. When the item is not in the table nothing changes.
   */
  lemma UndoLast(data: seq<Item>, ledger: Ledger)
    requires LedgerValid(ledger) && ledger.keys != []
    ensures var id := ledger.keys[|ledger.keys| - 1];
            var inner := ledger.vals[id];
            var field := inner.keys[|inner.keys| - 1];
            var r := Undo(data, ledger);
            (FindRow(data, id).None? ==> r == (data, ledger)) &&
            (FindRow(data, id).Some? ==>
               var i := FindRow(data, id).value;
               Get(r.0[i], field) == inner.vals[field].before &&
               (forall j, c :: 0 <= j < |data| && (j != i || c != field) ==> Get(r.0[j], c) == Get(data[j], c)) &&
               r.1 == Drop(ledger, id, field))
  {
  }

  /** Dropping the only change of the item added last gives back the ledger from before it. */
  lemma DropFresh(ledger: Ledger, itemId: Value, column: string, change: Change)
    requires LedgerValid(ledger) && itemId !in ledger.vals
    ensures Drop(PutEntry(ledger, itemId, Put(Empty(), column, change)), itemId, column) == ledger
  {
    var inner := Put(Empty(), column, change);
    RemovePut(Empty(), column, change);
    RemovePut(ledger, itemId, inner);
  }

  /** The first edit of an item adds it to the end of the ledger with that one change. */
  lemma EditFresh(data: seq<Item>, ledger: Ledger, itemId: Value, column: string, newValue: Value,
                  currentYear: int, isUrl: string -> bool)
    requires LedgerValid(ledger) && itemId !in ledger.vals
    requires FindRow(data, itemId).Some? && ValidateCellValue(newValue, column, currentYear, isUrl) == []
    requires !StrictEq(Get(data[FindRow(data, itemId).value], column), newValue)
    ensures var i := FindRow(data, itemId).value;
            Edit(data, ledger, itemId, column, newValue, currentYear, isUrl) ==
            EditOutcome(true, data[i := data[i][column := newValue]],
                        PutEntry(ledger, itemId, Put(Empty(), column, Change(Get(data[i], column), newValue))))
  {
  }

  /** Undo when the last ledger entry is an item with a single change. */
  lemma UndoOfFresh(data: seq<Item>, ledger: Ledger, itemId: Value, column: string, change: Change, i: nat)
    requires LedgerValid(ledger) && itemId !in ledger.vals && FindRow(data, itemId) == Some(i)
    ensures Undo(data, PutEntry(ledger, itemId, Put(Empty(), column, change))) ==
            (data[i := data[i][column := change.before]], ledger)
  {
    var inner := Put(Empty(), column, change);
    var l := PutEntry(ledger, itemId, inner);
    assert l.keys[|l.keys| - 1] == itemId;
    assert inner.keys[|inner.keys| - 1] == column;
    DropFresh(ledger, itemId, column, change);
  }

  /**
   * Undo right after the first edit of an item puts the ledger back as it was and
   * the edited cell back to its old value: the row reads as before, and is equal to
   * it when the field existed.
   */
  lemma UndoAfterFirstEdit(data: seq<Item>, ledger: Ledger, itemId: Value, column: string, newValue: Value,
                           currentYear: int, isUrl: string -> bool)
    requires LedgerValid(ledger) && itemId !in ledger.vals && column != "id"
    requires FindRow(data, itemId).Some? && ValidateCellValue(newValue, column, currentYear, isUrl) == []
    requires !StrictEq(Get(data[FindRow(data, itemId).value], column), newValue)
    ensures var o := Edit(data, ledger, itemId, column, newValue, currentYear, isUrl);
            var i := FindRow(data, itemId).value;
            var u := Undo(o.data, o.ledger);
            u.1 == ledger && u.0 == data[i := data[i][column := Get(data[i], column)]]
  {
    var i := FindRow(data, itemId).value;
    EditFresh(data, ledger, itemId, column, newValue, currentYear, isUrl);
    UndoWrite(data, ledger, itemId, column, newValue, i);
  }

  /** Undoing a single fresh write of a non-`id` field restores the cell's previous reading. */
  lemma UndoWrite(data: seq<Item>, ledger: Ledger, itemId: Value, column: string, newValue: Value, i: nat)
    requires LedgerValid(ledger) && itemId !in ledger.vals && column != "id" && FindRow(data, itemId) == Some(i)
    ensures var prior := Get(data[i], column);
            Undo(data[i := data[i][column := newValue]],
                 PutEntry(ledger, itemId, Put(Empty(), column, Change(prior, newValue)))) ==
            (data[i := data[i][column := prior]], ledger)
  {
    var prior := Get(data[i], column);
    var edited := data[i := data[i][column := newValue]];
    EditKeepsKeys(data, i, column, newValue);
    FindRowSameKeys(edited, data, itemId, 0);
    UndoOfFresh(edited, ledger, itemId, column, Change(prior, newValue), i);
    WriteTwice(data, i, column, newValue, prior);
  }

  /** Writing a cell twice is writing it once with the second value. */
  lemma WriteTwice(data: seq<Item>, i: nat, column: string, a: Value, b: Value)
    requires i < |data|
    ensures var once := data[i := data[i][column := a]];
            once[i := once[i][column := b]] == data[i := data[i][column := b]]
  {
    var once := data[i := data[i][column := a]];
    assert once[i][column := b] == data[i][column := b];
  }

  // ---------------------------------------------------------------------
  // Saving

  /** The inner object of the payload: field to current value, in the ledger's field order. */
  function NewValues(inner: FieldChanges): (r: OMap<string, Value>)
    ensures r.keys == inner.keys
    ensures inner.Valid() ==> r.Valid()
  {
    OMap(inner.keys, map f | f in inner.vals :: inner.vals[f].after)
  }

  /**
   * The object sent to `/api/data/save`: for each item in ledger order,
   * `changes[itemId] = {}` and then every field's new value. Ids become property
   * names through `String`, so two ids that print alike share one entry, the later
   * item's.
   */
  function Flatten(ledger: Ledger): (p: OMap<string, OMap<string, Value>>)
    requires LedgerValid(ledger)
    ensures p.Valid()
  {
    Rekey(ledger, ToStr, NewValues, |ledger.keys|)
  }

  /** The ids of the recorded items print as distinct property names. */
  ghost predicate DistinctNames(ledger: Ledger) {
    forall a, b :: 0 <= a < b < |ledger.keys| ==> ToStr(ledger.keys[a]) != ToStr(ledger.keys[b])
  }

  /**
   * When no two recorded ids print alike, the payload has one entry per recorded
   * item, in ledger order, holding exactly that item's fields with their new values.
   */
  lemma FlattenExact(ledger: Ledger)
    requires LedgerValid(ledger) && DistinctNames(ledger)
    ensures var p := Flatten(ledger);
            |p.keys| == |ledger.keys| &&
            (forall k :: 0 <= k < |ledger.keys| ==> p.keys[k] == ToStr(ledger.keys[k])) &&
            (forall k :: 0 <= k < |ledger.keys| ==>
               var inner := ledger.vals[ledger.keys[k]];
               var entry := p.vals[ToStr(ledger.keys[k])];
               entry.keys == inner.keys && forall f :: f in inner.vals ==> f in entry.vals && entry.vals[f] == inner.vals[f].after)
  {
    RekeyInjective(ledger, ToStr, NewValues, |ledger.keys|);
    assert RekeyedInOrder(ledger, ToStr, NewValues, |ledger.keys|, Flatten(ledger));
  }

  // ---------------------------------------------------------------------
  // Bulk operations

  datatype BulkOutcome = BulkOutcome(count: nat, data: seq<Item>, ledger: Ledger)

  /** `applyBulkEdit()`'s loop: edit `field` on each selected id in turn, counting the edits reported successful. */
  function BulkEdit(data: seq<Item>, ledger: Ledger, ids: seq<Value>, field: string, v: Value,
                    currentYear: int, isUrl: string -> bool): (r: BulkOutcome)
    requires LedgerValid(ledger)
    ensures LedgerValid(r.ledger) && |r.data| == |data| && r.count <= |ids|
    decreases |ids|
  {
    if ids == [] then BulkOutcome(0, data, ledger)
    else
      var prev := BulkEdit(data, ledger, ids[..|ids| - 1], field, v, currentYear, isUrl);
      var o := Edit(prev.data, prev.ledger, ids[|ids| - 1], field, v, currentYear, isUrl);
      BulkOutcome(prev.count + (if o.ok then 1 else 0), o.data, o.ledger)
  }

  /** One more selected id: the bulk edit so far, then one edit of that id. */
  lemma BulkEditStep(data: seq<Item>, ledger: Ledger, ids: seq<Value>, k: nat, field: string, v: Value,
                     currentYear: int, isUrl: string -> bool)
    requires LedgerValid(ledger) && k < |ids|
    ensures var prev := BulkEdit(data, ledger, ids[..k], field, v, currentYear, isUrl);
            var o := Edit(prev.data, prev.ledger, ids[k], field, v, currentYear, isUrl);
            BulkEdit(data, ledger, ids[..k + 1], field, v, currentYear, isUrl) ==
              BulkOutcome(prev.count + (if o.ok then 1 else 0), o.data, o.ledger)
  {
    assert ids[..k + 1][..k] == ids[..k];
  }

  /** A value the field's validation rejects changes nothing and counts nothing. */
  lemma {:induction false} BulkEditRejected(data: seq<Item>, ledger: Ledger, ids: seq<Value>, field: string, v: Value,
                                            currentYear: int, isUrl: string -> bool)
    requires LedgerValid(ledger) && ValidateCellValue(v, field, currentYear, isUrl) != []
    ensures BulkEdit(data, ledger, ids, field, v, currentYear, isUrl) == BulkOutcome(0, data, ledger)
    decreases |ids|
  {
    if ids != [] {
      BulkEditRejected(data, ledger, ids[..|ids| - 1], field, v, currentYear, isUrl);
    }
  }

  /**
   * Unless the edited field is `id`, a bulk edit of a valid value counts exactly the
   * selected ids that name a row of the table.
   */
  lemma {:induction false} BulkEditCount(data: seq<Item>, ledger: Ledger, ids: seq<Value>, field: string, v: Value,
                                         currentYear: int, isUrl: string -> bool)
    requires LedgerValid(ledger) && field != "id" && ValidateCellValue(v, field, currentYear, isUrl) == []
    ensures var r := BulkEdit(data, ledger, ids, field, v, currentYear, isUrl);
            r.count == |Filter(ids, id => FindRow(data, id).Some?)| &&
            forall j :: 0 <= j < |data| ==> Get(r.data[j], "id") == Get(data[j], "id")
    decreases |ids|
  {
    if ids != [] {
      var init := ids[..|ids| - 1];
      var id := ids[|ids| - 1];
      BulkEditCount(data, ledger, init, field, v, currentYear, isUrl);
      var prev := BulkEdit(data, ledger, init, field, v, currentYear, isUrl);
      FindRowSameKeys(prev.data, data, id, 0);
      EditKeepsRowKeys(prev.data, prev.ledger, id, field, v, currentYear, isUrl);
      assert ids == init + [id];
      FilterAppend(init, [id], id => FindRow(data, id).Some?);
    }
  }

  /** A bulk edit never forgets the original value of a change recorded before it. */
  lemma {:induction false} BulkEditKeepsOriginals(data: seq<Item>, ledger: Ledger, ids: seq<Value>, field: string,
                                                  v: Value, currentYear: int, isUrl: string -> bool)
    requires LedgerValid(ledger)
    ensures var r := BulkEdit(data, ledger, ids, field, v, currentYear, isUrl);
            forall id, f :: id in ledger.vals && f in ledger.vals[id].vals ==>
              id in r.ledger.vals && f in r.ledger.vals[id].vals &&
              r.ledger.vals[id].vals[f].before == ledger.vals[id].vals[f].before
    decreases |ids|
  {
    if ids != [] {
      BulkEditKeepsOriginals(data, ledger, ids[..|ids| - 1], field, v, currentYear, isUrl);
      var prev := BulkEdit(data, ledger, ids[..|ids| - 1], field, v, currentYear, isUrl);
      EditKeepsOriginals(prev.data, prev.ledger, ids[|ids| - 1], field, v, currentYear, isUrl);
    }
  }

  /**
   * The positions `bulkDelete()`'s filter keeps: the rows whose key
   * (`item.id || this.data.indexOf(item)`, taken in the table before deletion) is
   * not selected, in table order.
   */
  function Unselected(data: seq<Item>, selected: seq<Value>): (kept: seq<nat>)
    ensures forall j :: 0 <= j < |data| ==> (j in kept <==> RowKey(data, j) !in selected)
    ensures forall t :: 0 <= t < |kept| ==> kept[t] < |data|
    ensures Increasing(kept)
  {
    var p := (j: nat) => j < |data| && RowKey(data, j) !in selected;
    var all: seq<nat> := Range(|data|);
    assert forall j :: 0 <= j < |data| ==> j in all by {
      forall j | 0 <= j < |data| ensures j in all {
        assert all[j] == j;
      }
    }
    FilterIncreasing(all, p);
    var kept: seq<nat> := Filter(all, p);
    assert forall t :: 0 <= t < |kept| ==> kept[t] < |data| by {
      forall t | 0 <= t < |kept| ensures kept[t] < |data| {
        assert kept[t] in kept;
      }
    }
    kept
  }

  /** `this.data.filter(item => !this.selectedItems.has(item.id || this.data.indexOf(item)))` */
  function KeepUnselected(data: seq<Item>, selected: seq<Value>): (r: seq<Item>)
  {
    var kept := Unselected(data, selected);
    seq(|kept|, t requires 0 <= t < |kept| => data[kept[t]])
  }
}
