/**
 * The state the main editor, the edit log and the genre manager share through
 * the page: the catalog keyed by item id (`allData`), the pending changes
 * (`changedItems`, item id to the changed fields and their new values) and the
 * change history the edit log lists (`changeHistory`).
 */
module ChangeStore {
  import opened Values
  import opened Collections

  /** `allData`: item id to item, in the order the ids were inserted. */
  type Catalog = OMap<string, Item>

  /** `changedItems`: item id to the fields changed in it, with their new values. */
  type Pending = OMap<string, OMap<string, Value>>

  ghost predicate PendingValid(p: Pending) {
    p.Valid() && forall id :: id in p.vals ==> p.vals[id].Valid()
  }

  /**
   * Every pending change is visible in the catalog: each changed item is
   * present and holds, in every changed field, the value recorded for it.
   */
  ghost predicate LedgerAgrees(data: Catalog, pending: Pending) {
    forall id :: id in pending.vals ==>
      id in data.vals &&
      forall f :: f in pending.vals[id].vals ==> Get(data.vals[id], f) == pending.vals[id].vals[f]
  }

  /**
   * One entry of `changeHistory`. `timestamp` is the moment of the change in
   * milliseconds; the source stores it as an ISO date string.
   */
  datatype HistoryRecord = HistoryRecord(
    id: string,
    itemId: string,
    itemTitle: Value,
    field: string,
    oldValue: Value,
    newValue: Value,
    timestamp: int)

  /** The title a change is logged under: `real_title || title || "Elemento " + id`. */
  function ItemTitle(item: Item, id: string): (t: Value)
    ensures Truthy(Get(item, "real_title")) ==> t == Get(item, "real_title")
    ensures !Truthy(Get(item, "real_title")) && Truthy(Get(item, "title")) ==> t == Get(item, "title")
    ensures Truthy(t)
  {
    Or(Or(Get(item, "real_title"), Get(item, "title")), Str("Elemento " + id))
  }

  /**
   * The history entry for `field` of item `itemId` changing from `before` to
   * `after`; absent or falsy values are logged as `''`.
   */
  function RecordFor(itemId: string, title: Value, field: string, before: Value, after: Value, now: int, suffix: string): HistoryRecord {
    HistoryRecord(itemId + "_" + field + "_" + IntToString(now) + suffix, itemId, title, field,
                  Or(before, Str("")), Or(after, Str("")), now)
  }
}
