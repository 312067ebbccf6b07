/**
 * The server's side of an edit (`server.js`): the checks `/api/submit` makes on
 * a submission, the reconciliation of the submitted changes with the catalog
 * fetched from the repository (only the fields that really differ are
 * written, and only items that really change are counted), the "Modified
 * Items" summary of the pull request, the `/api/search` filter, the
 * changes `/api/data/save` writes with its counts, and the content hash of
 * `/api/data-hash`.
 *
 * The repository and GitHub are not modelled: the catalog the server fetches
 * and whether the server is configured are parameters, and a reply that would
 * go on to GitHub is returned as the branch, messages and content it would
 * propose.
 */
module Server {
  import opened Values
  import opened Collections
  import opened ChangeStore

  // ---------------------------------------------------------------------
  // The request

  /**
   * `req.body.changes`: either something that is not an object (missing,
   * `null`, a primitive), or an object of item id to the changed fields.
   */
  datatype ChangesBody = NotAnObject(v: Value) | Entries(items: Pending)

  ghost predicate BodyValid(changes: ChangesBody) {
    changes.Entries? ==> PendingValid(changes.items)
  }

  /** A string field that passes `!x || typeof x !== 'string' || !x.trim()` unrefused. */
  predicate Given(v: Value) {
    v.Str? && Trim(v.s) != []
  }

  /** The first check of `/api/submit` that refuses the request, with its message. */
  function SubmitError(changes: ChangesBody, branchName: Value, commitMessage: Value, prTitle: Value): (r: Option<string>)
    ensures r == None <==>
      changes.Entries? && changes.items.keys != [] && Given(branchName) && Given(commitMessage) && Given(prTitle)
    ensures !(changes.Entries? && changes.items.keys != []) ==> r == Some("No changes provided")
    ensures changes.Entries? && changes.items.keys != [] && !Given(branchName) ==> r == Some("Branch name is required")
    ensures changes.Entries? && changes.items.keys != [] && Given(branchName) && !Given(commitMessage) ==>
      r == Some("Commit message is required")
    ensures changes.Entries? && changes.items.keys != [] && Given(branchName) && Given(commitMessage) && !Given(prTitle) ==>
      r == Some("PR title is required")
  {
    if !changes.Entries? || changes.items.keys == [] then Some("No changes provided")
    else if !Truthy(branchName) || !branchName.Str? || Trim(branchName.s) == [] then Some("Branch name is required")
    else if !Truthy(commitMessage) || !commitMessage.Str? || Trim(commitMessage.s) == [] then Some("Commit message is required")
    else if !Truthy(prTitle) || !prTitle.Str? || Trim(prTitle.s) == [] then Some("PR title is required")
    else None
  }

  // ---------------------------------------------------------------------
  // Reconciling the submitted changes with the repository's catalog

  /** `originalItem[field] !== value` */
  predicate Differs(original: Item, field: string, value: Value) {
    !StrictEq(Get(original, field), value)
  }

  /** The item once every field among the first `n` that differs from `original` is written over it. */
  function PatchUpTo(original: Item, fields: OMap<string, Value>, n: nat): Item
    requires fields.Valid() && n <= |fields.keys|
  {
    if n == 0 then original
    else
      var prev := PatchUpTo(original, fields, n - 1);
      var f := fields.keys[n - 1];
      if Differs(original, f, fields.vals[f]) then prev[f := fields.vals[f]] else prev
  }

  /** Some field among the first `n` differs from `original` (`hasActualChanges`). */
  predicate DiffersUpTo(original: Item, fields: OMap<string, Value>, n: nat)
    requires fields.Valid() && n <= |fields.keys|
  {
    n > 0 && (Differs(original, fields.keys[n - 1], fields.vals[fields.keys[n - 1]]) || DiffersUpTo(original, fields, n - 1))
  }

  /** The submitted fields change the repository's item `id`: it is counted in `actualChangesCount`. */
  ghost predicate Effective(current: Catalog, changes: Pending, id: string) {
    id in current.vals && id in changes.vals && changes.vals[id].Valid() &&
    DiffersUpTo(current.vals[id], changes.vals[id], |changes.vals[id].keys|)
  }

  datatype Reconciled = Reconciled(updated: Catalog, count: nat)

  /** `updatedData` and `actualChangesCount` once the first `n` submitted items are reconciled. */
  function ReconcileUpTo(current: Catalog, changes: Pending, n: nat): (r: Reconciled)
    requires current.Valid() && PendingValid(changes) && n <= |changes.keys|
    ensures r.updated.Valid() && r.updated.keys == current.keys
    ensures r.count <= n
  {
    if n == 0 then Reconciled(current, 0)
    else
      var prev := ReconcileUpTo(current, changes, n - 1);
      var id := changes.keys[n - 1];
      var fields := changes.vals[id];
      if id in current.vals && DiffersUpTo(current.vals[id], fields, |fields.keys|) then
        Reconciled(Put(prev.updated, id, PatchUpTo(current.vals[id], fields, |fields.keys|)), prev.count + 1)
      else prev
  }

  /**
   * `updatedData` and `actualChangesCount` after the reconciliation loop:
   * the repository's ids in their order, and at most one count per
   * submitted item.
   */
  function Reconcile(current: Catalog, changes: Pending): (r: Reconciled)
    requires current.Valid() && PendingValid(changes)
    ensures r.updated.Valid() && r.updated.keys == current.keys
    ensures r.count <= |changes.keys|
  {
    ReconcileUpTo(current, changes, |changes.keys|)
  }

  /**
   * The reconciliation loop of `/api/submit`: for every submitted item the
   * repository has, each field whose value differs is written into
   * `updatedData`, and the item is counted when at least one did; submitted
   * items the repository lacks are skipped.
   */
  method ReconcileChanges(current: Catalog, changes: Pending) returns (updated: Catalog, count: nat)
    requires current.Valid() && PendingValid(changes)
    ensures Reconciled(updated, count) == Reconcile(current, changes)
  {
    updated := current;
    count := 0;
    var i := 0;
    while i < |changes.keys|
      invariant i <= |changes.keys|
      invariant Reconciled(updated, count) == ReconcileUpTo(current, changes, i)
    {
      var id := changes.keys[i];
      if id in current.vals {
        var original := current.vals[id];
        var fields := changes.vals[id];
        NotYetSeen(changes.keys, i);
        ReconcileUntouched(current, changes, i, id);
        var hasActualChanges;
        updated, hasActualChanges := WriteDiffering(updated, id, original, fields);
        if hasActualChanges {
          count := count + 1;
        }
      }
      i := i + 1;
    }
  }

  /**
   * The inner loop for one item: every field of `fields` whose value differs
   * from `original` is written into the item `id` of `data`.
   */
  method WriteDiffering(data: Catalog, id: string, original: Item, fields: OMap<string, Value>)
    returns (updated: Catalog, hasActualChanges: bool)
    requires data.Valid() && fields.Valid() && id in data.vals && data.vals[id] == original
    ensures hasActualChanges == DiffersUpTo(original, fields, |fields.keys|)
    ensures updated == if hasActualChanges then Put(data, id, PatchUpTo(original, fields, |fields.keys|)) else data
  {
    updated := data;
    hasActualChanges := false;
    var j := 0;
    while j < |fields.keys|
      invariant j <= |fields.keys|
      invariant hasActualChanges == DiffersUpTo(original, fields, j)
      invariant hasActualChanges ==> updated == Put(data, id, PatchUpTo(original, fields, j))
      invariant !hasActualChanges ==> updated == data
    {
      var field := fields.keys[j];
      var value := fields.vals[field];
      if Differs(original, field, value) {
        if !hasActualChanges {
          PatchUnchanged(original, fields, j);
        }
        updated := Put(updated, id, updated.vals[id][field := value]);
        hasActualChanges := true;
      }
      j := j + 1;
    }
  }

  /** The element at position `i` of a duplicate-free sequence is not among the ones before it. */
  lemma NotYetSeen<T>(s: seq<T>, i: nat)
    requires Distinct(s) && i < |s|
    ensures !Seen(s, i, s[i])
  {
    SeenIsIn(s, i, s[i]);
  }

  /** As long as no field differed, nothing has been written. */
  lemma {:induction false} PatchUnchanged(original: Item, fields: OMap<string, Value>, n: nat)
    requires fields.Valid() && n <= |fields.keys|
    requires !DiffersUpTo(original, fields, n)
    ensures PatchUpTo(original, fields, n) == original
  {
    if n > 0 {
      PatchUnchanged(original, fields, n - 1);
    }
  }

  /** An item not among the first `n` submitted ones still holds the repository's version. */
  lemma {:induction false} ReconcileUntouched(current: Catalog, changes: Pending, n: nat, id: string)
    requires current.Valid() && PendingValid(changes) && n <= |changes.keys|
    requires id in current.vals && !Seen(changes.keys, n, id)
    ensures ReconcileUpTo(current, changes, n).updated.vals[id] == current.vals[id]
  {
    if n > 0 {
      ReconcileUntouched(current, changes, n - 1, id);
    }
  }

  /** A field of the patched item holds the submitted value exactly when that value differs; otherwise the original's. */
  lemma {:induction false} PatchField(original: Item, fields: OMap<string, Value>, n: nat, f: string)
    requires fields.Valid() && n <= |fields.keys|
    ensures Get(PatchUpTo(original, fields, n), f) ==
      if f in fields.vals && Seen(fields.keys, n, f) && Differs(original, f, fields.vals[f]) then fields.vals[f] else Get(original, f)
  {
    if n > 0 {
      PatchField(original, fields, n - 1, f);
    }
  }

  /** A submitted field that differs makes its item count. */
  lemma {:induction false} DiffersWitness(original: Item, fields: OMap<string, Value>, n: nat, f: string)
    requires fields.Valid() && n <= |fields.keys|
    requires f in fields.vals && Seen(fields.keys, n, f) && Differs(original, f, fields.vals[f])
    ensures DiffersUpTo(original, fields, n)
  {
    if fields.keys[n - 1] != f {
      DiffersWitness(original, fields, n - 1, f);
    }
  }

  /** After `n` submitted items, an item holds its patched version exactly when it was among them and changed. */
  lemma {:induction false} ReconcileAt(current: Catalog, changes: Pending, n: nat, id: string)
    requires current.Valid() && PendingValid(changes) && n <= |changes.keys| && id in current.vals
    ensures ReconcileUpTo(current, changes, n).updated.vals[id] ==
      if Seen(changes.keys, n, id) && Effective(current, changes, id)
      then PatchUpTo(current.vals[id], changes.vals[id], |changes.vals[id].keys|)
      else current.vals[id]
  {
    if n > 0 {
      ReconcileAt(current, changes, n - 1, id);
      ReconcileStep(current, changes, n, id);
    }
  }

  /** One submitted item changes at most its own entry. */
  lemma ReconcileStep(current: Catalog, changes: Pending, n: nat, id: string)
    requires current.Valid() && PendingValid(changes) && 0 < n <= |changes.keys| && id in current.vals
    ensures ReconcileUpTo(current, changes, n).updated.vals[id] ==
      if changes.keys[n - 1] == id && Effective(current, changes, id)
      then PatchUpTo(current.vals[id], changes.vals[id], |changes.vals[id].keys|)
      else ReconcileUpTo(current, changes, n - 1).updated.vals[id]
  {
  }

  /**
   * What `/api/submit` writes: in an item the repository has, a field takes the
   * submitted value when one was submitted for it and it differs (`!==`) from
   * the repository's; every other field, and every item nobody submitted,
   * keeps the repository's value; no item is added.
   */
  lemma ReconcileWritesDiffering(current: Catalog, changes: Pending, id: string, f: string)
    requires current.Valid() && PendingValid(changes)
    ensures Reconcile(current, changes).updated.keys == current.keys
    ensures id in current.vals ==>
      var u := Reconcile(current, changes).updated;
      id in u.vals &&
      Get(u.vals[id], f) ==
        if id in changes.vals && f in changes.vals[id].vals && Differs(current.vals[id], f, changes.vals[id].vals[f])
        then changes.vals[id].vals[f]
        else Get(current.vals[id], f)
  {
    if id in current.vals {
      ReconcileAt(current, changes, |changes.keys|, id);
      SeenIsIn(changes.keys, |changes.keys|, id);
      assert changes.keys[..|changes.keys|] == changes.keys;
      if id in changes.vals {
        var fields := changes.vals[id];
        PatchField(current.vals[id], fields, |fields.keys|, f);
        SeenIsIn(fields.keys, |fields.keys|, f);
        assert fields.keys[..|fields.keys|] == fields.keys;
        if f in fields.vals && Differs(current.vals[id], f, fields.vals[f]) {
          DiffersWitness(current.vals[id], fields, |fields.keys|, f);
        }
      }
    }
  }

  /** `actualChangesCount` after `n` submitted items counts those among them that change their item. */
  lemma {:induction false} ReconcileCountUpTo(current: Catalog, changes: Pending, n: nat)
    requires current.Valid() && PendingValid(changes) && n <= |changes.keys|
    ensures ReconcileUpTo(current, changes, n).count == |Filter(changes.keys[..n], id => Effective(current, changes, id))|
  {
    if n > 0 {
      ReconcileCountUpTo(current, changes, n - 1);
      assert changes.keys[..n][..n - 1] == changes.keys[..n - 1];
    }
  }

  /**
   * `actualChangesCount` is the number of submitted items that change their
   * item in the repository; it is zero, and the submission is refused as
   * having no actual changes, exactly when no submitted item does.
   */
  lemma ReconcileCount(current: Catalog, changes: Pending)
    requires current.Valid() && PendingValid(changes)
    ensures Reconcile(current, changes).count == |Filter(changes.keys, id => Effective(current, changes, id))|
    ensures Reconcile(current, changes).count == 0 <==> forall id :: id in changes.vals ==> !Effective(current, changes, id)
  {
    ReconcileCountUpTo(current, changes, |changes.keys|);
    assert changes.keys[..|changes.keys|] == changes.keys;
    var hits := Filter(changes.keys, id => Effective(current, changes, id));
    if hits != [] {
      assert hits[0] in changes.vals;
    }
  }

  // ---------------------------------------------------------------------
  // The reconciliation as written, with inherited members

  /**
   * The fields among the first `n` that differ from `original`, written over
   * an empty object: `{ ...updatedData[id], [field]: value }` when
   * `updatedData[id]` is an inherited function, which has no own enumerable
   * property to spread.
   */
  function WrittenUpTo(original: Item, fields: OMap<string, Value>, n: nat): Item
    requires fields.Valid() && n <= |fields.keys|
  {
    if n == 0 then map[]
    else
      var prev := WrittenUpTo(original, fields, n - 1);
      var f := fields.keys[n - 1];
      if Differs(original, f, fields.vals[f]) then prev[f := fields.vals[f]] else prev
  }

  /** `inherited` gives what a lookup reads for each member of `Object.prototype`. */
  predicate InheritsPrototype(inherited: map<string, Item>) {
    inherited.Keys == set name | name in PrototypeMembers
  }

  /**
   * One submitted item of the reconciliation loop exactly as server.js:232-250
   * writes it. The test `if (currentData[id])` is a plain object lookup, so
   * an id the repository lacks but that names a member of `Object.prototype`
   * finds that member: `inherited` gives, for each such name, the properties
   * the lookup reads from it (the function `Object` for `constructor`, and so
   * on). A field that differs from them is written into a new own entry of
   * `updatedData` and the id is counted; the assignment to `__proto__`
   * replaces the object's prototype instead, so the catalog keeps its entries
   * while the count still grows.
   */
  function VisitAsWritten(current: Catalog, changes: Pending, inherited: map<string, Item>, prev: Reconciled, id: string): (r: Reconciled)
    requires current.Valid() && PendingValid(changes) && prev.updated.Valid() && id in changes.vals
    ensures r.updated.Valid() && prev.updated.vals.Keys <= r.updated.vals.Keys
    ensures id in current.vals && DiffersUpTo(current.vals[id], changes.vals[id], |changes.vals[id].keys|) ==>
      r.count == prev.count + 1
    ensures !(id in current.vals && DiffersUpTo(current.vals[id], changes.vals[id], |changes.vals[id].keys|)) ==>
      prev.count <= r.count
  {
    var fields := changes.vals[id];
    if id in current.vals && DiffersUpTo(current.vals[id], fields, |fields.keys|) then
      Reconciled(Put(prev.updated, id, PatchUpTo(current.vals[id], fields, |fields.keys|)), prev.count + 1)
    else if id !in current.vals && id in inherited && DiffersUpTo(inherited[id], fields, |fields.keys|) then
      var updated := if id == "__proto__" then prev.updated
                     else Put(prev.updated, id, WrittenUpTo(inherited[id], fields, |fields.keys|));
      Reconciled(updated, prev.count + 1)
    else prev
  }

  /** `updatedData` and `actualChangesCount` as written, once the first `n` submitted items are visited. */
  function ReconcileAsWrittenUpTo(current: Catalog, changes: Pending, inherited: map<string, Item>, n: nat): (r: Reconciled)
    requires current.Valid() && PendingValid(changes) && n <= |changes.keys|
    ensures r.updated.Valid()
  {
    if n == 0 then Reconciled(current, 0)
    else VisitAsWritten(current, changes, inherited, ReconcileAsWrittenUpTo(current, changes, inherited, n - 1), changes.keys[n - 1])
  }

  /** `updatedData` and `actualChangesCount` as written, once every submitted item is visited. */
  function ReconcileAsWritten(current: Catalog, changes: Pending, inherited: map<string, Item>): (r: Reconciled)
    requires current.Valid() && PendingValid(changes)
    requires InheritsPrototype(inherited)
    ensures r.updated.Valid()
  {
    ReconcileAsWrittenUpTo(current, changes, inherited, |changes.keys|)
  }

  /**
   * When every submitted id the repository lacks is an ordinary name, the
   * loop as written and the model's reconciliation agree.
   */
  lemma {:induction false} AsWrittenAgreesUpTo(current: Catalog, changes: Pending, inherited: map<string, Item>, n: nat)
    requires current.Valid() && PendingValid(changes) && n <= |changes.keys|
    requires forall id :: id in changes.vals && id !in current.vals ==> id !in inherited
    ensures ReconcileAsWrittenUpTo(current, changes, inherited, n) == ReconcileUpTo(current, changes, n)
  {
    if n > 0 {
      AsWrittenAgreesUpTo(current, changes, inherited, n - 1);
      assert changes.keys[n - 1] in changes.vals;
    }
  }

  lemma AsWrittenAgrees(current: Catalog, changes: Pending, inherited: map<string, Item>)
    requires current.Valid() && PendingValid(changes)
    requires InheritsPrototype(inherited)
    requires forall id :: id in changes.vals && id !in current.vals ==> id !in inherited
    ensures ReconcileAsWritten(current, changes, inherited) == Reconcile(current, changes)
  {
    AsWrittenAgreesUpTo(current, changes, inherited, |changes.keys|);
  }

  /** The loop as written counts at least what the model's reconciliation counts, after any prefix. */
  lemma {:induction false} AsWrittenCountsAtLeast(current: Catalog, changes: Pending, inherited: map<string, Item>, n: nat)
    requires current.Valid() && PendingValid(changes) && n <= |changes.keys|
    ensures ReconcileUpTo(current, changes, n).count <= ReconcileAsWrittenUpTo(current, changes, inherited, n).count
  {
    if n > 0 {
      AsWrittenCountsAtLeast(current, changes, inherited, n - 1);
      assert changes.keys[n - 1] in changes.vals;
    }
  }

  /**
   * Right after the loop as written visits a submitted id that names an
   * inherited member and carries a field differing from it, it has counted
   * one change more than the model's reconciliation.
   */
  lemma AsWrittenAheadAt(current: Catalog, changes: Pending, inherited: map<string, Item>, k: nat)
    requires current.Valid() && PendingValid(changes) && k < |changes.keys|
    requires changes.keys[k] !in current.vals && changes.keys[k] in inherited
    requires DiffersUpTo(inherited[changes.keys[k]], changes.vals[changes.keys[k]], |changes.vals[changes.keys[k]].keys|)
    ensures ReconcileUpTo(current, changes, k + 1).count < ReconcileAsWrittenUpTo(current, changes, inherited, k + 1).count
  {
    AsWrittenCountsAtLeast(current, changes, inherited, k);
    InheritedStep(current, changes, inherited, k);
  }

  /** Once ahead of the model's count, the loop as written stays ahead for the rest of the submitted items. */
  lemma {:induction false} AsWrittenStaysAhead(current: Catalog, changes: Pending, inherited: map<string, Item>, j: nat, n: nat)
    requires current.Valid() && PendingValid(changes) && j <= n <= |changes.keys|
    requires ReconcileUpTo(current, changes, j).count < ReconcileAsWrittenUpTo(current, changes, inherited, j).count
    ensures ReconcileUpTo(current, changes, n).count < ReconcileAsWrittenUpTo(current, changes, inherited, n).count
    decreases n
  {
    if j < n {
      AsWrittenStaysAhead(current, changes, inherited, j, n - 1);
      AsWrittenStep(current, changes, inherited, n);
    }
  }

  /** An entry of `updatedData` stays there for the rest of the loop as written. */
  lemma {:induction false} AsWrittenKeepsEntries(current: Catalog, changes: Pending, inherited: map<string, Item>, id: string, j: nat, n: nat)
    requires current.Valid() && PendingValid(changes) && j <= n <= |changes.keys|
    requires id in ReconcileAsWrittenUpTo(current, changes, inherited, j).updated.vals
    ensures id in ReconcileAsWrittenUpTo(current, changes, inherited, n).updated.vals
    decreases n
  {
    if j < n {
      AsWrittenKeepsEntries(current, changes, inherited, id, j, n - 1);
      AsWrittenKeepsEntry(current, changes, inherited, n, id);
    }
  }

  /** The step that visits an inherited id with a differing field: the model skips it, the loop as written counts it and writes its entry. */
  lemma InheritedStep(current: Catalog, changes: Pending, inherited: map<string, Item>, k: nat)
    requires current.Valid() && PendingValid(changes) && k < |changes.keys|
    requires changes.keys[k] !in current.vals && changes.keys[k] in inherited
    requires DiffersUpTo(inherited[changes.keys[k]], changes.vals[changes.keys[k]], |changes.vals[changes.keys[k]].keys|)
    ensures ReconcileUpTo(current, changes, k + 1) == ReconcileUpTo(current, changes, k)
    ensures ReconcileAsWrittenUpTo(current, changes, inherited, k + 1).count ==
            ReconcileAsWrittenUpTo(current, changes, inherited, k).count + 1
    ensures changes.keys[k] != "__proto__" ==>
            changes.keys[k] in ReconcileAsWrittenUpTo(current, changes, inherited, k + 1).updated.vals
  {
  }

  /** Any step: the loop as written gains at least the count the model gains. */
  lemma AsWrittenStep(current: Catalog, changes: Pending, inherited: map<string, Item>, n: nat)
    requires current.Valid() && PendingValid(changes) && 0 < n <= |changes.keys|
    ensures ReconcileUpTo(current, changes, n).count - ReconcileUpTo(current, changes, n - 1).count <=
            ReconcileAsWrittenUpTo(current, changes, inherited, n).count - ReconcileAsWrittenUpTo(current, changes, inherited, n - 1).count
  {
    assert changes.keys[n - 1] in changes.vals;
  }

  /** Any step: the loop as written keeps an entry `updatedData` already holds. */
  lemma AsWrittenKeepsEntry(current: Catalog, changes: Pending, inherited: map<string, Item>, n: nat, id: string)
    requires current.Valid() && PendingValid(changes) && 0 < n <= |changes.keys|
    requires id in ReconcileAsWrittenUpTo(current, changes, inherited, n - 1).updated.vals
    ensures id in ReconcileAsWrittenUpTo(current, changes, inherited, n).updated.vals
  {
    assert changes.keys[n - 1] in changes.vals;
  }

  /**
   * A submitted id the repository lacks but that names a member of
   * `Object.prototype` (`{"constructor": {"x": 1}}`): the loop as written
   * counts it as a change and, except for `__proto__`, adds it to the
   * catalog, while the model's reconciliation skips it. So a submission
   * holding only such an id opens a pull request instead of being refused
   * with "No actual changes detected".
   */
  lemma PrototypeIdCountedAsWritten(current: Catalog, changes: Pending, inherited: map<string, Item>, id: string)
    requires current.Valid() && PendingValid(changes)
    requires InheritsPrototype(inherited)
    requires id in changes.vals && id !in current.vals && id in inherited
    requires DiffersUpTo(inherited[id], changes.vals[id], |changes.vals[id].keys|)
    ensures Reconcile(current, changes).count < ReconcileAsWritten(current, changes, inherited).count
    ensures id !in Reconcile(current, changes).updated.vals
    ensures id != "__proto__" ==> id in ReconcileAsWritten(current, changes, inherited).updated.vals
  {
    var k :| 0 <= k < |changes.keys| && changes.keys[k] == id;
    AsWrittenAheadAt(current, changes, inherited, k);
    AsWrittenStaysAhead(current, changes, inherited, k + 1, |changes.keys|);
    if id != "__proto__" {
      InheritedStep(current, changes, inherited, k);
      AsWrittenKeepsEntries(current, changes, inherited, id, k + 1, |changes.keys|);
    }
  }

  // ---------------------------------------------------------------------
  // The "Modified Items" summary of the pull request

  /** The fields the summary reports, each with its label, in the order it checks them. */
  const SummaryFields: seq<(string, string)> := [
    ("real_title", "Title"), ("real_author", "Author"), ("real_genre", "Genre"),
    ("real_synopsis", "Synopsis"), ("summary", "Summary"), ("processed", "Processed status"),
    ("content_type", "Content type"), ("real_language", "Language"),
    ("real_published_year", "Published year"), ("real_narrator", "Narrator"), ("audio_file", "Audio file")]

  /**
   * The summary names `field` of a submitted item: the submitted value is set
   * (for `processed`, merely not `undefined`) and is not `===` the repository's.
   */
  predicate Reported(change: Item, current: Item, field: string) {
    var v := Get(change, field);
    (if field == "processed" then !v.Undefined? else Truthy(v)) && !StrictEq(v, Get(current, field))
  }

  /** `modifiedFields` once the first `k` fields of `SummaryFields` are checked. */
  function LabelsUpTo(change: Item, current: Item, k: nat): (r: seq<string>)
    requires k <= |SummaryFields|
    ensures |r| <= k
  {
    if k == 0 then []
    else
      var entry := SummaryFields[k - 1];
      LabelsUpTo(change, current, k - 1) + (if Reported(change, current, entry.0) then [entry.1] else [])
  }

  /** The labels of the changed fields a summary line lists: at most one per summarised field. */
  function Labels(change: Item, current: Item): (r: seq<string>)
    ensures |r| <= |SummaryFields|
  {
    LabelsUpTo(change, current, |SummaryFields|)
  }

  /** No two reported fields share a label. */
  lemma LabelsDiffer(i: nat, j: nat)
    requires i < j < |SummaryFields|
    ensures SummaryFields[i].1 != SummaryFields[j].1
  {
    assert |SummaryFields[i].1| != |SummaryFields[j].1| || SummaryFields[i].1[0] != SummaryFields[j].1[0];
  }

  /** A label is listed exactly when its field is among the first `k` checked and is reported. */
  lemma {:induction false} LabelsUpToListed(change: Item, current: Item, k: nat, j: nat)
    requires k <= |SummaryFields| && j < |SummaryFields|
    ensures SummaryFields[j].1 in LabelsUpTo(change, current, k) <==> j < k && Reported(change, current, SummaryFields[j].0)
  {
    if k > 0 {
      LabelsUpToListed(change, current, k - 1, j);
      if j < k - 1 {
        LabelsDiffer(j, k - 1);
      } else if k - 1 < j {
        LabelsDiffer(k - 1, j);
      }
    }
  }

  /** The summary line of an item names the label of a field exactly when that field is reported. */
  lemma LabelsListed(change: Item, current: Item, j: nat)
    requires j < |SummaryFields|
    ensures SummaryFields[j].1 in Labels(change, current) <==> Reported(change, current, SummaryFields[j].0)
  {
    LabelsUpToListed(change, current, |SummaryFields|, j);
  }

  /** `item.real_title || currentItem.real_title || currentItem.title || 'No Title'` */
  function SummaryTitle(change: Item, current: Item): Value {
    Or(Or(Or(Get(change, "real_title"), Get(current, "real_title")), Get(current, "title")), Str("No Title"))
  }

  /** The title of a summary line is the first of its candidates that is truthy, and there always is one. */
  lemma TitleFirstTruthy(change: Item, current: Item)
    ensures var candidates := [Get(change, "real_title"), Get(current, "real_title"), Get(current, "title"), Str("No Title")];
      var t := SummaryTitle(change, current);
      Truthy(t) &&
      exists i :: 0 <= i < 4 && candidates[i] == t && forall j :: 0 <= j < i ==> !Truthy(candidates[j])
  {
    var candidates := [Get(change, "real_title"), Get(current, "real_title"), Get(current, "title"), Str("No Title")];
    var t := SummaryTitle(change, current);
    if Truthy(candidates[0]) {
      assert candidates[0] == t;
    } else if Truthy(candidates[1]) {
      assert candidates[1] == t;
    } else if Truthy(candidates[2]) {
      assert candidates[2] == t;
    } else {
      assert candidates[3] == t;
    }
  }

  /** `- **${title}** ${fieldsText}\n` */
  function SummaryLine(change: Item, current: Item): string {
    var labels := Labels(change, current);
    var fieldsText := if labels != [] then "- " + Join(labels, ", ") + " updated" else "- Modified";
    "- **" + ToStr(SummaryTitle(change, current)) + "** " + fieldsText + "\n"
  }

  /** `currentData[id] || {}` */
  function CurrentOr(current: Catalog, id: string): Item {
    if id in current.vals then current.vals[id] else map[]
  }

  const SummaryHeading := "### Modified Items:\n\n"

  /** The summary line of the submitted item at position `i`. */
  function LineOf(changes: Pending, current: Catalog, i: nat): string
    requires PendingValid(changes) && i < |changes.keys|
  {
    var id := changes.keys[i];
    SummaryLine(changes.vals[id].vals, CurrentOr(current, id))
  }

  /** The summary line of every submitted item, in submission order. */
  function SummaryLines(changes: Pending, current: Catalog): (lines: seq<string>)
    requires PendingValid(changes)
    ensures |lines| == |changes.keys|
    ensures forall i :: 0 <= i < |lines| ==> lines[i] == LineOf(changes, current, i)
  {
    seq(|changes.keys|, i requires 0 <= i < |changes.keys| => LineOf(changes, current, i))
  }

  /** The parts written one after the other. */
  function Concat(parts: seq<string>): string {
    if parts == [] then [] else Concat(parts[..|parts| - 1]) + parts[|parts| - 1]
  }

  lemma ConcatStep(parts: seq<string>, i: nat)
    requires i < |parts|
    ensures Concat(parts[..i + 1]) == Concat(parts[..i]) + parts[i]
  {
    assert parts[..i + 1][..i] == parts[..i];
  }

  /** The concatenation of the first `m` parts is how the concatenation of the first `n` begins. */
  lemma {:induction false} ConcatGrows(parts: seq<string>, m: nat, n: nat)
    requires m <= n <= |parts|
    ensures StartsWith(Concat(parts[..n]), Concat(parts[..m]))
    decreases n - m
  {
    if m < n {
      ConcatGrows(parts, m + 1, n);
      ConcatStep(parts, m);
      var a := Concat(parts[..m]);
      var b := Concat(parts[..m + 1]);
      var c := Concat(parts[..n]);
      assert c[..|a|] == c[..|b|][..|a|] == b[..|a|];
    }
  }

  /** Part `i` appears in the concatenation right after the parts before it. */
  lemma ConcatHolds(parts: seq<string>, i: nat)
    requires i < |parts|
    ensures OccursAt(Concat(parts), parts[i], |Concat(parts[..i])|)
  {
    ConcatStep(parts, i);
    ConcatGrows(parts, i + 1, |parts|);
    assert parts[..|parts|] == parts;
    var a := Concat(parts[..i]);
    var b := Concat(parts[..i + 1]);
    var c := Concat(parts);
    assert c[|a|..|a| + |parts[i]|] == c[..|b|][|a|..] == b[|a|..] == parts[i];
  }

  /** `modifiedItemsList`: the heading, then one line per submitted item. */
  function SummaryText(changes: Pending, current: Catalog): string
    requires PendingValid(changes)
  {
    SummaryHeading + Concat(SummaryLines(changes, current))
  }

  /** The loop that builds `modifiedItemsList`, appending the line of each submitted item in turn. */
  method BuildSummary(changes: Pending, current: Catalog) returns (list: string)
    requires PendingValid(changes)
    ensures list == SummaryText(changes, current)
  {
    ghost var lines := SummaryLines(changes, current);
    list := SummaryHeading;
    var i := 0;
    while i < |changes.keys|
      invariant i <= |changes.keys|
      invariant list == SummaryHeading + Concat(lines[..i])
    {
      ConcatStep(lines, i);
      AppendAssoc(SummaryHeading, Concat(lines[..i]), lines[i]);
      list := list + LineOf(changes, current, i);
      i := i + 1;
    }
    assert lines[..i] == lines;
  }

  /**
   * Every submitted item, whether or not the repository has it, has its line in
   * the summary, after the heading and after the lines of the items submitted
   * before it.
   */
  lemma SummaryListsEveryItem(changes: Pending, current: Catalog, i: nat)
    requires PendingValid(changes) && i < |changes.keys|
    ensures var lines := SummaryLines(changes, current);
      var list := SummaryText(changes, current);
      StartsWith(list, SummaryHeading) &&
      OccursAt(list, lines[i], |SummaryHeading| + |Concat(lines[..i])|)
  {
    var lines := SummaryLines(changes, current);
    ConcatHolds(lines, i);
    OccursAfter(SummaryHeading, Concat(lines), lines[i], |Concat(lines[..i])|);
  }

  /** The pull request's description when `prDescription` is absent or a string. */
  function PullRequestBody(prDescription: Value, list: string): (body: string)
    requires !Truthy(prDescription) || prDescription.Str?
  {
    if Truthy(prDescription) && Trim(prDescription.s) != [] then Trim(prDescription.s) + "\n\n" + list
    else "This PR updates the audiolibri data with new changes.\n\n" + list
  }

  /**
   * The description always ends with the summary; it begins with the
   * submitted description, trimmed, unless that is missing or blank, in which
   * case it begins with the fixed sentence.
   */
  lemma BodyEndsWithSummary(prDescription: Value, list: string)
    requires !Truthy(prDescription) || prDescription.Str?
    ensures var body := PullRequestBody(prDescription, list);
      |list| <= |body| && body[|body| - |list|..] == list &&
      (Given(prDescription) ==> StartsWith(body, Trim(prDescription.s) + "\n\n")) &&
      (!Given(prDescription) ==> StartsWith(body, "This PR updates the audiolibri data with new changes.\n\n"))
  {
  }

  // ---------------------------------------------------------------------
  // `/api/submit`

  /** What the fetch of the repository's catalog gave: a JSON object, or something else. */
  datatype Fetched = Document(data: Catalog) | Malformed

  /**
   * The answer to a submission: refused with a status and a message, or the
   * pull request it proposes (branch, commit message, title, description, the
   * new catalog, and `changesCount`).
   */
  datatype SubmitReply =
    | Refused(status: nat, error: string)
    | Proposed(branch: string, commitMessage: string, title: string, body: string, content: Catalog, changesCount: nat)

  /**
   * `/api/submit` up to the pull request, the GitHub calls taken as
   * succeeding. `configured` says whether the token and the repository owner
   * and name are set.
   */
  function Submit(changes: ChangesBody, branchName: Value, commitMessage: Value, prTitle: Value, prDescription: Value,
                  configured: bool, fetched: Fetched): (r: SubmitReply)
    requires BodyValid(changes) && (fetched.Document? ==> fetched.data.Valid())
    ensures SubmitError(changes, branchName, commitMessage, prTitle).Some? ==>
      r == Refused(400, SubmitError(changes, branchName, commitMessage, prTitle).value)
    ensures r.Proposed? ==>
      fetched.Document? && configured && r.changesCount > 0 && r.content.keys == fetched.data.keys &&
      Given(branchName) && r.branch == Trim(branchName.s) &&
      Given(commitMessage) && r.commitMessage == Trim(commitMessage.s) &&
      Given(prTitle) && r.title == Trim(prTitle.s)
  {
    match SubmitError(changes, branchName, commitMessage, prTitle)
    case Some(e) => Refused(400, e)
    case None =>
      if !configured then Refused(500, "GitHub configuration missing")
      else match fetched
      case Malformed => Refused(500, "Invalid data format received from repository")
      case Document(current) => Propose(changes.items, branchName.s, commitMessage.s, prTitle.s, prDescription, current)
  }

  /** The rest of `/api/submit` once the request passed its checks and the catalog was fetched. */
  function Propose(changes: Pending, branchName: string, commitMessage: string, prTitle: string, prDescription: Value,
                   current: Catalog): (r: SubmitReply)
    requires PendingValid(changes) && current.Valid()
    ensures r.Proposed? ==>
      r.changesCount > 0 && r.content.keys == current.keys &&
      r.branch == Trim(branchName) && r.commitMessage == Trim(commitMessage) && r.title == Trim(prTitle)
  {
    var rec := Reconcile(current, changes);
    if rec.count == 0 then Refused(400, "No actual changes detected")
    else if Truthy(prDescription) && !prDescription.Str? then Refused(500, "prDescription.trim is not a function")
    else
      Proposed(Trim(branchName), Trim(commitMessage), Trim(prTitle),
               PullRequestBody(prDescription, SummaryText(changes, current)),
               rec.updated, rec.count)
  }

  /**
   * Once fetched, a submission is refused as having no actual changes exactly
   * when no submitted item differs, in any field, from the repository's
   * version of it (items the repository lacks never count).
   */
  lemma ProposeRefusesNoop(changes: Pending, branchName: string, commitMessage: string, prTitle: string,
                           prDescription: Value, current: Catalog)
    requires PendingValid(changes) && current.Valid()
    ensures Propose(changes, branchName, commitMessage, prTitle, prDescription, current) ==
      Refused(400, "No actual changes detected")
      <==> forall id :: id in changes.vals ==> !Effective(current, changes, id)
  {
    ReconcileCount(current, changes);
  }

  /** A well-formed submission to a configured server reaches the reconciliation. */
  lemma SubmitRefusesNoop(changes: ChangesBody, branchName: Value, commitMessage: Value, prTitle: Value, prDescription: Value,
                          current: Catalog)
    requires BodyValid(changes) && current.Valid()
    requires SubmitError(changes, branchName, commitMessage, prTitle) == None
    ensures Submit(changes, branchName, commitMessage, prTitle, prDescription, true, Document(current)) ==
      Refused(400, "No actual changes detected")
      <==> forall id :: id in changes.items.vals ==> !Effective(current, changes.items, id)
  {
    ProposeRefusesNoop(changes.items, branchName.s, commitMessage.s, prTitle.s, prDescription, current);
  }

  /**
   * A proposed pull request carries the reconciled catalog, `changesCount` is
   * the number of items that change, and its description is built around the
   * summary of every submitted item.
   */
  lemma SubmitProposes(changes: ChangesBody, branchName: Value, commitMessage: Value, prTitle: Value, prDescription: Value,
                       current: Catalog)
    requires BodyValid(changes) && current.Valid()
    ensures var r := Submit(changes, branchName, commitMessage, prTitle, prDescription, true, Document(current));
      r.Proposed? ==>
        r.content == Reconcile(current, changes.items).updated &&
        r.changesCount == |Filter(changes.items.keys, id => Effective(current, changes.items, id))| &&
        (!Truthy(prDescription) || prDescription.Str?) &&
        r.body == PullRequestBody(prDescription, SummaryText(changes.items, current))
  {
    var r := Submit(changes, branchName, commitMessage, prTitle, prDescription, true, Document(current));
    if r.Proposed? {
      ReconcileCount(current, changes.items);
    }
  }

  // ---------------------------------------------------------------------
  // `/api/search`

  /** The fields the search looks at, in the order it lists them. */
  const SearchedFields: seq<string> := [
    "title", "real_title", "real_author", "real_genre", "real_synopsis", "real_narrator",
    "channel_name", "description", "summary", "content_type", "real_language", "audio_file"]

  /** The values of `fields` in `item`, in order. */
  function Project(item: Item, fields: seq<string>): (vs: seq<Value>)
    ensures |vs| == |fields|
    ensures forall i :: 0 <= i < |fields| ==> vs[i] == Get(item, fields[i])
  {
    if fields == [] then [] else Project(item, fields[..|fields| - 1]) + [Get(item, fields[|fields| - 1])]
  }

  /** What `if (v && Array.isArray(v)) searchableFields.push(...v)` adds. */
  function Spread(v: Value): seq<Value> {
    if v.List? then v.elems else []
  }

  /** `searchableFields`: the listed fields, then the categories and the tags when they are arrays. */
  function Searchable(item: Item): (r: seq<Value>)
    ensures |SearchedFields| <= |r|
    ensures forall i :: 0 <= i < |SearchedFields| ==> r[i] == Get(item, SearchedFields[i])
  {
    Project(item, SearchedFields) + Spread(Get(item, "categories")) + Spread(Get(item, "tags"))
  }

  /** `field && String(field).toLowerCase().includes(searchQuery)` */
  predicate Hit(v: Value, query: string) {
    Truthy(v) && Contains(Lower(ToStr(v)), query)
  }

  /** `searchableFields.some(...)` */
  predicate Matches(item: Item, query: string) {
    exists v :: v in Searchable(item) && Hit(v, query)
  }

  /**
   * The search looks at every listed field and every category and tag: an
   * item matches when one of them, lower-cased, contains the query.
   */
  lemma MatchesIffSomeHit(item: Item, query: string)
    ensures Matches(item, query) <==>
      (exists f :: f in SearchedFields && Hit(Get(item, f), query)) ||
      (exists v :: v in Spread(Get(item, "categories")) && Hit(v, query)) ||
      (exists v :: v in Spread(Get(item, "tags")) && Hit(v, query))
  {
    var listed := Project(item, SearchedFields);
    if v :| v in listed && Hit(v, query) {
      var i :| 0 <= i < |listed| && listed[i] == v;
      assert SearchedFields[i] in SearchedFields;
    }
    if f :| f in SearchedFields && Hit(Get(item, f), query) {
      var i :| 0 <= i < |SearchedFields| && SearchedFields[i] == f;
      assert listed[i] in Searchable(item);
    }
  }

  /** `results` once the first `n` items of `data` are looked at. */
  function SearchUpTo(data: Catalog, query: string, n: nat): (r: Catalog)
    requires data.Valid() && n <= |data.keys|
    ensures r.Valid()
  {
    if n == 0 then Empty()
    else
      var prev := SearchUpTo(data, query, n - 1);
      var id := data.keys[n - 1];
      if Matches(data.vals[id], query) then Put(prev, id, data.vals[id]) else prev
  }

  /** The loop of `/api/search` over the catalog, keeping every matching item under its id. */
  method Search(data: Catalog, query: string) returns (results: Catalog)
    requires data.Valid()
    ensures results == SearchUpTo(data, query, |data.keys|)
  {
    results := Empty();
    var i := 0;
    while i < |data.keys|
      invariant i <= |data.keys|
      invariant results == SearchUpTo(data, query, i)
    {
      var id := data.keys[i];
      var item := data.vals[id];
      if Matches(item, query) {
        results := Put(results, id, item);
      }
      i := i + 1;
    }
  }

  /** The item `id` is in the catalog and matches the query. */
  ghost predicate Found(data: Catalog, query: string, id: string) {
    id in data.vals && Matches(data.vals[id], query)
  }

  lemma {:induction false} SearchUpToFilters(data: Catalog, query: string, n: nat)
    requires data.Valid() && n <= |data.keys|
    ensures SearchUpTo(data, query, n).keys == Filter(data.keys[..n], id => Found(data, query, id))
    ensures forall id :: id in SearchUpTo(data, query, n).vals ==> SearchUpTo(data, query, n).vals[id] == data.vals[id]
  {
    if n > 0 {
      SearchUpToFilters(data, query, n - 1);
      var prev := SearchUpTo(data, query, n - 1);
      var id := data.keys[n - 1];
      assert data.keys[..n][..n - 1] == data.keys[..n - 1];
      assert id !in data.keys[..n - 1];
    }
  }

  /**
   * The results are exactly the matching items: each under its own id with the
   * catalog's own value, in the catalog's order.
   */
  lemma SearchExact(data: Catalog, query: string, id: string)
    requires data.Valid()
    ensures var r := SearchUpTo(data, query, |data.keys|);
      r.keys == Filter(data.keys, id => Found(data, query, id)) &&
      (id in r.vals <==> Found(data, query, id)) &&
      (id in r.vals ==> r.vals[id] == data.vals[id])
  {
    SearchUpToFilters(data, query, |data.keys|);
    assert data.keys[..|data.keys|] == data.keys;
  }

  datatype SearchReply = Results(items: Catalog) | SearchFailed(status: nat, error: string)

  /**
   * `/api/search`: no query (or an empty one) returns the whole catalog; a
   * string query is lower-cased and filters it; any other query (a repeated
   * parameter) makes `toLowerCase` throw and the search fail.
   */
  function SearchEndpoint(data: Catalog, query: Value): (r: SearchReply)
    requires data.Valid()
    ensures !Truthy(query) ==> r == Results(data)
    ensures r.SearchFailed? <==> Truthy(query) && !query.Str?
  {
    if !Truthy(query) then Results(data)
    else if query.Str? then Results(SearchUpTo(data, Lower(query.s), |data.keys|))
    else SearchFailed(500, "Failed to search data")
  }

  lemma LowerTwice(s: string)
    ensures Lower(Lower(s)) == Lower(s)
  {
  }

  /** The search ignores the case of the query. */
  lemma SearchIgnoresQueryCase(data: Catalog, s: string)
    requires data.Valid()
    ensures SearchEndpoint(data, Str(s)) == SearchEndpoint(data, Str(Lower(s)))
  {
    LowerTwice(s);
  }

  // ---------------------------------------------------------------------
  // `/api/data/save`

  /** The item once each of the first `n` fields of `fields` is set (`currentData[itemId][field] = newValue`). */
  function WriteUpTo(item: Item, fields: OMap<string, Value>, n: nat): Item
    requires fields.Valid() && n <= |fields.keys|
  {
    if n == 0 then item
    else
      var f := fields.keys[n - 1];
      WriteUpTo(item, fields, n - 1)[f := fields.vals[f]]
  }

  /** The catalog once the fields of the first `n` submitted items are written into the items it has. */
  function SaveUpTo(current: Catalog, changes: Pending, n: nat): (r: Catalog)
    requires current.Valid() && PendingValid(changes) && n <= |changes.keys|
    ensures r.Valid() && r.keys == current.keys
  {
    if n == 0 then current
    else
      var prev := SaveUpTo(current, changes, n - 1);
      var id := changes.keys[n - 1];
      var fields := changes.vals[id];
      if id in current.vals then Put(prev, id, WriteUpTo(current.vals[id], fields, |fields.keys|)) else prev
  }

  /** The inner loop for one item: every field of `fields` is set in the item `id`. */
  method WriteFields(data: Catalog, id: string, fields: OMap<string, Value>) returns (updated: Catalog)
    requires data.Valid() && fields.Valid() && id in data.vals
    ensures updated == Put(data, id, WriteUpTo(data.vals[id], fields, |fields.keys|))
  {
    updated := data;
    assert data.vals[id := data.vals[id]] == data.vals;
    var j := 0;
    while j < |fields.keys|
      invariant j <= |fields.keys|
      invariant updated == Put(data, id, WriteUpTo(data.vals[id], fields, j))
    {
      var field := fields.keys[j];
      updated := Put(updated, id, updated.vals[id][field := fields.vals[field]]);
      j := j + 1;
    }
  }

  /** The apply loop of `/api/data/save`: the submitted fields are written, unconditionally, into the items the repository has. */
  method ApplySave(current: Catalog, changes: Pending) returns (data: Catalog)
    requires current.Valid() && PendingValid(changes)
    ensures data == SaveUpTo(current, changes, |changes.keys|)
  {
    data := current;
    var i := 0;
    while i < |changes.keys|
      invariant i <= |changes.keys|
      invariant data == SaveUpTo(current, changes, i)
    {
      var id := changes.keys[i];
      if id in data.vals {
        NotYetSeen(changes.keys, i);
        SaveUntouched(current, changes, i, id);
        data := WriteFields(data, id, changes.vals[id]);
      }
      i := i + 1;
    }
  }

  lemma {:induction false} SaveUntouched(current: Catalog, changes: Pending, n: nat, id: string)
    requires current.Valid() && PendingValid(changes) && n <= |changes.keys|
    requires id in current.vals && !Seen(changes.keys, n, id)
    ensures SaveUpTo(current, changes, n).vals[id] == current.vals[id]
  {
    if n > 0 {
      SaveUntouched(current, changes, n - 1, id);
    }
  }

  /** A written field holds the submitted value; the others keep theirs. */
  lemma {:induction false} WriteField(item: Item, fields: OMap<string, Value>, n: nat, f: string)
    requires fields.Valid() && n <= |fields.keys|
    ensures Get(WriteUpTo(item, fields, n), f) ==
      if f in fields.vals && Seen(fields.keys, n, f) then fields.vals[f] else Get(item, f)
  {
    if n > 0 {
      WriteField(item, fields, n - 1, f);
    }
  }

  lemma {:induction false} SaveAt(current: Catalog, changes: Pending, n: nat, id: string)
    requires current.Valid() && PendingValid(changes) && n <= |changes.keys| && id in current.vals
    ensures SaveUpTo(current, changes, n).vals[id] ==
      if id in changes.vals && Seen(changes.keys, n, id)
      then WriteUpTo(current.vals[id], changes.vals[id], |changes.vals[id].keys|)
      else current.vals[id]
  {
    if n > 0 {
      SaveAt(current, changes, n - 1, id);
    }
  }

  /**
   * What `/api/data/save` writes: in an item the repository has, every
   * submitted field takes the submitted value, whether or not it differs;
   * every other field and item keeps its value; no item is added.
   */
  lemma SaveWritesEveryField(current: Catalog, changes: Pending, id: string, f: string)
    requires current.Valid() && PendingValid(changes)
    ensures SaveUpTo(current, changes, |changes.keys|).keys == current.keys
    ensures id in current.vals ==>
      var u := SaveUpTo(current, changes, |changes.keys|);
      id in u.vals &&
      Get(u.vals[id], f) ==
        if id in changes.vals && f in changes.vals[id].vals then changes.vals[id].vals[f] else Get(current.vals[id], f)
  {
    if id in current.vals {
      SaveAt(current, changes, |changes.keys|, id);
      SeenIsIn(changes.keys, |changes.keys|, id);
      assert changes.keys[..|changes.keys|] == changes.keys;
      if id in changes.vals {
        var fields := changes.vals[id];
        WriteField(current.vals[id], fields, |fields.keys|, f);
        SeenIsIn(fields.keys, |fields.keys|, f);
        assert fields.keys[..|fields.keys|] == fields.keys;
      }
    }
  }

  /**
   * Saving and submitting the same changes give catalogs that read the same in
   * every field of every item: writing a value equal to the one already there
   * changes nothing a reader can see.
   */
  lemma SaveAgreesWithSubmit(current: Catalog, changes: Pending, id: string, f: string)
    requires current.Valid() && PendingValid(changes) && id in current.vals
    ensures var saved := SaveUpTo(current, changes, |changes.keys|);
      var submitted := Reconcile(current, changes).updated;
      saved.keys == submitted.keys && id in saved.vals && id in submitted.vals &&
      Get(saved.vals[id], f) == Get(submitted.vals[id], f)
  {
    SaveWritesEveryField(current, changes, id, f);
    ReconcileWritesDiffering(current, changes, id, f);
  }

  /** `Object.values(changes).reduce((total, fieldChanges) => total + Object.keys(fieldChanges).length, 0)` over the first `n` items. */
  function FieldCount(changes: Pending, n: nat): nat
    requires PendingValid(changes) && n <= |changes.keys|
  {
    if n == 0 then 0 else FieldCount(changes, n - 1) + |changes.vals[changes.keys[n - 1]].keys|
  }

  /** Every (item, field) pair of the first `n` submitted items, in order. */
  function FieldPairs(changes: Pending, n: nat): seq<(string, string)>
    requires PendingValid(changes) && n <= |changes.keys|
  {
    if n == 0 then []
    else
      var id := changes.keys[n - 1];
      var fields := changes.vals[id].keys;
      FieldPairs(changes, n - 1) + seq(|fields|, j requires 0 <= j < |fields| => (id, fields[j]))
  }

  /** The total field count counts each submitted (item, field) pair once. */
  lemma {:induction false} FieldCountCountsPairs(changes: Pending, n: nat, id: string, f: string)
    requires PendingValid(changes) && n <= |changes.keys|
    ensures FieldCount(changes, n) == |FieldPairs(changes, n)|
    ensures (id, f) in FieldPairs(changes, n) <==> id in changes.vals && Seen(changes.keys, n, id) && f in changes.vals[id].vals
  {
    if n > 0 {
      FieldCountCountsPairs(changes, n - 1, id, f);
      var k := changes.keys[n - 1];
      var fields := changes.vals[k].keys;
      var block := seq(|fields|, j requires 0 <= j < |fields| => (k, fields[j]));
      if (id, f) in block {
        var j :| 0 <= j < |fields| && block[j] == (id, f);
      }
      if id == k && f in changes.vals[k].vals {
        var j :| 0 <= j < |fields| && fields[j] == f;
        assert block[j] == (id, f);
      }
    }
  }

  datatype SaveReply =
    | SaveRefused(status: nat, error: string)
    | SaveProposed(branch: string, commitMessage: string, content: Catalog, itemCount: nat, fieldCount: nat)

  /**
   * `/api/data/save` up to the pull request, the GitHub calls taken as
   * succeeding; `now` is `Date.now()`.
   */
  function Save(changes: ChangesBody, current: Catalog, now: int): (r: SaveReply)
    requires BodyValid(changes) && current.Valid()
    ensures r.SaveRefused? <==> !changes.Entries? || changes.items.keys == []
    ensures r.SaveProposed? ==>
      r.content.keys == current.keys && r.itemCount == |changes.items.keys| > 0 &&
      StartsWith(r.branch, "json-editor-update-")
  {
    if !changes.Entries? || changes.items.keys == [] then SaveRefused(400, "No changes provided")
    else
      var n := |changes.items.keys|;
      SaveProposed("json-editor-update-" + IntToString(now),
                   "Update audiolibri data via JSON Editor (" + NatToString(n) + " items modified)",
                   SaveUpTo(current, changes.items, n), n, FieldCount(changes.items, n))
  }

  /**
   * The counts of a save are taken from the request: every submitted item
   * counts, including those the repository lacks, and the field total is the
   * number of submitted (item, field) pairs.
   */
  lemma SaveCounts(changes: Pending, current: Catalog, now: int, id: string, f: string)
    requires PendingValid(changes) && current.Valid() && changes.keys != []
    ensures var r := Save(Entries(changes), current, now);
      r.itemCount == |changes.vals| &&
      r.fieldCount == |FieldPairs(changes, |changes.keys|)| &&
      ((id, f) in FieldPairs(changes, |changes.keys|) <==> id in changes.vals && f in changes.vals[id].vals)
  {
    FieldCountCountsPairs(changes, |changes.keys|, id, f);
    SeenIsIn(changes.keys, |changes.keys|, id);
    assert changes.keys[..|changes.keys|] == changes.keys;
    KeysCount(changes);
  }

  // ---------------------------------------------------------------------
  // The content hash of `/api/data-hash` (recomputed by `/api/data/save`)

  /** How many characters the hash reads. */
  const HashedPrefix := 1000

  const Two32: int := 0x1_0000_0000

  /** ECMAScript's ToInt32: the integer taken modulo 2^32 into the signed 32-bit range. */
  function ToInt32(x: int): (r: int)
    ensures -0x8000_0000 <= r < 0x8000_0000
    ensures -0x8000_0000 <= x < 0x8000_0000 ==> r == x
  {
    var m := x % Two32;
    if m >= 0x8000_0000 then m - Two32 else m
  }

  /** ToInt32 sees its argument only modulo 2^32. */
  lemma ToInt32Shift(x: int, k: int)
    ensures ToInt32(x + k * Two32) == ToInt32(x)
  {
    assert (x + k * Two32) % Two32 == x % Two32;
  }

  /** `h << 5`: both operand and result are taken through ToInt32. */
  function ShiftLeft5(h: int): int {
    ToInt32(ToInt32(h) * 32)
  }

  /** One step of the hash: `hash * 31 + char` in 32-bit two's-complement arithmetic. */
  function HashStep(h: int, c: char): (r: int)
    ensures -0x8000_0000 <= r < 0x8000_0000
  {
    ToInt32(31 * h + c as int)
  }

  /** The hash of the first `n` characters of `s`. */
  function HashUpTo(s: string, n: nat): (h: int)
    requires n <= |s|
    ensures -0x8000_0000 <= h < 0x8000_0000
  {
    if n == 0 then 0 else HashStep(HashUpTo(s, n - 1), s[n - 1])
  }

  /** `((hash << 5) - hash) + char` followed by `hash & hash` is one step of the hash. */
  lemma ShiftStep(h: int, c: char)
    requires -0x8000_0000 <= h < 0x8000_0000
    ensures ToInt32(ShiftLeft5(h) - h + c as int) == HashStep(h, c)
  {
    var m := (h * 32) % Two32;
    var q := (h * 32) / Two32;
    assert h * 32 == q * Two32 + m;
    var k := if m >= 0x8000_0000 then q + 1 else q;
    assert ShiftLeft5(h) == h * 32 - k * Two32;
    ToInt32Shift(31 * h + c as int, -k);
  }

  function Min(a: nat, b: nat): nat {
    if a < b then a else b
  }

  /** The hash loop, with the operations it uses: `((hash << 5) - hash) + char`, then `hash & hash`. */
  method PrefixHash(json: string) returns (hash: int)
    ensures hash == HashUpTo(json, Min(|json|, HashedPrefix))
  {
    hash := 0;
    var i := 0;
    while i < Min(|json|, HashedPrefix)
      invariant i <= Min(|json|, HashedPrefix)
      invariant hash == HashUpTo(json, i)
    {
      var c := json[i];
      ShiftStep(hash, c);
      hash := (ShiftLeft5(hash) - hash) + c as int;
      hash := ToInt32(hash);
      i := i + 1;
    }
  }

  /** `Math.abs(hash) + '_' + jsonString.length + '_' + Date.now()` */
  function ContentHash(json: string, now: int): (r: string)
    ensures forall i :: 0 <= i < |r| ==> IsDigit(r[i]) || r[i] == '_' || r[i] == '-'
  {
    var h := HashUpTo(json, Min(|json|, HashedPrefix));
    NatToString(if h < 0 then -h else h) + "_" + NatToString(|json|) + "_" + IntToString(now)
  }

  /** The hash of a prefix depends on that prefix only. */
  lemma {:induction false} HashUpToPrefix(s: string, t: string, n: nat)
    requires n <= |s| && n <= |t| && s[..n] == t[..n]
    ensures HashUpTo(s, n) == HashUpTo(t, n)
  {
    if n > 0 {
      assert s[..n - 1] == s[..n][..n - 1] == t[..n][..n - 1] == t[..n - 1];
      assert s[n - 1] == s[..n][n - 1] == t[n - 1];
      HashUpToPrefix(s, t, n - 1);
    }
  }

  /**
   * The hash reads only the first thousand characters and the length: two
   * documents of the same length that agree on their first thousand
   * characters get the same hash at the same moment.
   */
  lemma ContentHashIgnoresTail(s: string, t: string, now: int)
    requires |s| == |t| && s[..Min(|s|, HashedPrefix)] == t[..Min(|t|, HashedPrefix)]
    ensures ContentHash(s, now) == ContentHash(t, now)
  {
    HashUpToPrefix(s, t, Min(|s|, HashedPrefix));
  }

  /** A run of digits followed by `_` is told apart from the rest. */
  lemma DigitsThenSeparator(a: string, b: string, x: string, y: string)
    requires forall i :: 0 <= i < |a| ==> IsDigit(a[i])
    requires forall i :: 0 <= i < |b| ==> IsDigit(b[i])
    requires a + "_" + x == b + "_" + y
    ensures a == b && x == y
  {
    var l := a + "_" + x;
    if |a| < |b| {
      SeparatorAt(a, x, b, y);
      assert false;
    } else if |b| < |a| {
      SeparatorAt(b, y, a, x);
      assert false;
    }
    assert a == l[..|a|];
    assert b == (b + "_" + y)[..|b|];
    assert x == l[|a| + 1..];
    assert y == (b + "_" + y)[|b| + 1..];
  }

  /** Where the shorter run of digits ends, the one text has its separator and the other a digit. */
  lemma SeparatorAt(a: string, x: string, b: string, y: string)
    requires |a| < |b|
    ensures (a + "_" + x)[|a|] == '_' && (b + "_" + y)[|a|] == b[|a|]
  {
  }

  /** In `a_p_n` with `a` and `p` runs of digits, the middle field is recovered. */
  lemma MiddleField(a: string, p: string, b: string, q: string, n: string)
    requires forall i :: 0 <= i < |a| ==> IsDigit(a[i])
    requires forall i :: 0 <= i < |b| ==> IsDigit(b[i])
    requires forall i :: 0 <= i < |p| ==> IsDigit(p[i])
    requires forall i :: 0 <= i < |q| ==> IsDigit(q[i])
    requires a + "_" + p + "_" + n == b + "_" + q + "_" + n
    ensures p == q
  {
    AppendAssoc(a + "_" + p, "_", n);
    AppendAssoc(b + "_" + q, "_", n);
    AppendAssoc(a + "_", p, "_" + n);
    AppendAssoc(b + "_", q, "_" + n);
    AppendAssoc(p, "_", n);
    AppendAssoc(q, "_", n);
    assert a + "_" + (p + "_" + n) == b + "_" + (q + "_" + n);
    DigitsThenSeparator(a, b, p + "_" + n, q + "_" + n);
    DigitsThenSeparator(p, q, n, n);
  }

  /** Documents of different lengths never get the same hash at the same moment. */
  lemma ContentHashSeesLength(s: string, t: string, now: int)
    requires ContentHash(s, now) == ContentHash(t, now)
    ensures |s| == |t|
  {
    var hs := HashUpTo(s, Min(|s|, HashedPrefix));
    var ht := HashUpTo(t, Min(|t|, HashedPrefix));
    MiddleField(NatToString(if hs < 0 then -hs else hs), NatToString(|s|),
                NatToString(if ht < 0 then -ht else ht), NatToString(|t|), IntToString(now));
    ParseUnsignedOfNatToString(|s|);
    ParseUnsignedOfNatToString(|t|);
  }
}
