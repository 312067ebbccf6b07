/**
 * The state of the main editor page and the event handlers that change it:
 * loading the catalog, searching, filtering, paging, selecting, the item
 * form (`updateItem`), the bulk edit and the submission of a pull request.
 */
module MainPage {
  import opened Values
  import opened Collections
  import opened ChangeStore
  import opened MainEditing
  import opened MainViews

  /**
   * What `filteredData` refers to. After loading, and after an
   * `applyFilters` with no filter and no search, it is the `allData` object
   * itself, so every later edit shows in it; otherwise it is an object of its
   * own, holding the items as they were when it was built.
   */
  datatype ViewRef = AllData | Snapshot(items: Catalog)

  /** How `updateItem` ends. */
  datatype UpdateOutcome =
    | NoItemSelected   // "Nessun elemento selezionato per l'aggiornamento"
    | FormInvalid      // "Correggi gli errori nel form prima di salvare"
    | NoChanges        // "Nessuna modifica rilevata"
    | Crashed          // the selected id is not in the catalog: reading its fields throws, and the error is shown
    | Updated

  /** The verdict of `updateItem` on the cleaned form `filled`. */
  function UpdateVerdict(current: Option<string>, formValid: bool, data: Catalog, filled: OMap<string, Value>): UpdateOutcome
    requires filled.Valid()
  {
    if current.None? || current.value == "" then NoItemSelected
    else if !formValid then FormInvalid
    else if current.value !in data.vals then (if filled.keys == [] then NoChanges else Crashed)
    else if ChangedKeys(filled, data.vals[current.value]) == [] then NoChanges
    else Updated
  }

  /**
   * `updateItem` on item `id` once the form is cleaned: the item takes on the
   * form's values, its pending entry stores each field that changed, and the
   * history logs them under the title of the updated item.
   */
  function UpdateLedger(l: Ledger, id: string, filled: OMap<string, Value>, now: int): (r: Ledger)
    requires l.Valid() && filled.Valid() && id in l.data.vals
    ensures r.Valid()
  {
    var previous := l.data.vals[id];
    var item := previous + filled.vals;
    var keys := ChangedKeys(filled, previous);
    Ledger(Put(l.data, id, item),
           Put(l.pending, id, Stored(EntryOf(l.pending, id), filled.vals, keys)),
           l.history + Records(id, ItemTitle(item, id), previous, filled.vals, keys, now, ""))
  }

  /**
   * The catalog after `updateItem`: the same ids in the same order, the
   * updated item holding the form's values and otherwise its own, every other
   * item unchanged.
   */
  lemma UpdateLedgerCatalog(l: Ledger, id: string, filled: OMap<string, Value>, now: int)
    requires l.Valid() && filled.Valid() && id in l.data.vals
    ensures var r := UpdateLedger(l, id, filled, now).data;
      r.keys == l.data.keys && r.vals.Keys == l.data.vals.Keys &&
      (forall x :: x in r.vals && x != id ==> r.vals[x] == l.data.vals[x]) &&
      (forall f :: f in filled.vals ==> Get(r.vals[id], f) == filled.vals[f]) &&
      (forall f :: f !in filled.vals ==> Get(r.vals[id], f) == Get(l.data.vals[id], f))
  {
  }

  /**
   * The pending changes after `updateItem` on a form that changes something:
   * the item's entry is not empty and holds the new value of every field that
   * changed, keeps its other fields, and no other entry changes.
   */
  lemma UpdateLedgerPending(l: Ledger, id: string, filled: OMap<string, Value>, now: int)
    requires l.Valid() && filled.Valid() && id in l.data.vals
    requires ChangedKeys(filled, l.data.vals[id]) != []
    ensures var r := UpdateLedger(l, id, filled, now).pending;
      id in r.vals && r.vals[id].keys != [] &&
      (forall f :: Differs(filled, l.data.vals[id], f) ==> f in r.vals[id].vals && r.vals[id].vals[f] == filled.vals[f]) &&
      (forall f :: f in EntryOf(l.pending, id).vals && !Differs(filled, l.data.vals[id], f) ==>
         f in r.vals[id].vals && r.vals[id].vals[f] == EntryOf(l.pending, id).vals[f]) &&
      (forall x :: x != id ==> (x in r.vals <==> x in l.pending.vals) && (x in r.vals ==> r.vals[x] == l.pending.vals[x]))
  {
    var previous := l.data.vals[id];
    var keys := ChangedKeys(filled, previous);
    StoredFields(EntryOf(l.pending, id), filled.vals, keys);
    assert keys[0] in keys;
  }

  /**
   * The history after `updateItem`: the old records, then one record per
   * changed field, each naming the item, the field, its old and its new value.
   */
  lemma UpdateLedgerHistory(l: Ledger, id: string, filled: OMap<string, Value>, now: int)
    requires l.Valid() && filled.Valid() && id in l.data.vals
    ensures var r := UpdateLedger(l, id, filled, now).history;
      var added := r[|l.history|..];
      |r| >= |l.history| && r[..|l.history|] == l.history &&
      (forall i :: 0 <= i < |added| ==>
         added[i].itemId == id && Differs(filled, l.data.vals[id], added[i].field) &&
         added[i].oldValue == Or(Get(l.data.vals[id], added[i].field), Str("")) &&
         added[i].newValue == Or(filled.vals[added[i].field], Str(""))) &&
      (forall f :: Differs(filled, l.data.vals[id], f) ==> exists i :: 0 <= i < |added| && added[i].field == f)
  {
    var previous := l.data.vals[id];
    var r := UpdateLedger(l, id, filled, now).history;
    var rs := Records(id, ItemTitle(previous + filled.vals, id), previous, filled.vals, ChangedKeys(filled, previous), now, "");
    UpdateLogsExactlyTheChanges(id, ItemTitle(previous + filled.vals, id), previous, filled, now, "");
    assert r[|l.history|..] == rs;
  }

  /** `updateItem` keeps every pending change visible in the catalog. */
  lemma UpdateLedgerAgrees(l: Ledger, id: string, filled: OMap<string, Value>, now: int)
    requires l.Valid() && filled.Valid() && id in l.data.vals
    requires LedgerAgrees(l.data, l.pending)
    ensures var r := UpdateLedger(l, id, filled, now); LedgerAgrees(r.data, r.pending)
  {
    StoreKeepsAgreement(l.data, l.pending, id, filled, ChangedKeys(filled, l.data.vals[id]));
  }

  /**
   * What `applyFilters` leaves in `filteredData`: the `allData` object itself
   * when no filter applies and no search is active, else a new object holding
   * the filtered items.
   */
  function Filtering(allData: Catalog, searchResults: Option<Catalog>, genre: string, status: string, pending: Pending): ViewRef
    requires allData.Valid()
    requires searchResults.Some? ==> searchResults.value.Valid()
  {
    if searchResults.None? && genre == "" && !(status == "processed" || status == "pending" || status == "modified") then AllData
    else Snapshot(ApplyFilters(allData, searchResults, genre, status, pending))
  }

  /** The catalog a `ViewRef` shows. */
  function Resolve(allData: Catalog, v: ViewRef): Catalog {
    match v
    case AllData => allData
    case Snapshot(items) => items
  }

  /** Whatever object `applyFilters` picks, it shows the filtered items. */
  lemma FilteringShowsFiltered(allData: Catalog, searchResults: Option<Catalog>, genre: string, status: string, pending: Pending)
    requires allData.Valid()
    requires searchResults.Some? ==> searchResults.value.Valid()
    ensures Resolve(allData, Filtering(allData, searchResults, genre, status, pending)) ==
      ApplyFilters(allData, searchResults, genre, status, pending)
  {
  }

  /** A selection with `id` added (a `Set` keeps insertion order and ignores repeats) or removed. */
  function Toggled(selection: seq<string>, id: string, checked: bool): (r: seq<string>)
    requires Distinct(selection)
    ensures Distinct(r)
    ensures forall x :: x in r <==> (if x == id then checked else x in selection)
  {
    if !checked then RemoveValue(selection, id)
    else if id in selection then selection
    else selection + [id]
  }

  /** The variables of the page's `DOMContentLoaded` handler, as one value. */
  datatype PageState = PageState(
    allData: Catalog,
    filteredData: ViewRef,
    searchResults: Option<Catalog>,
    changedItems: Pending,
    history: seq<HistoryRecord>,
    selectedItems: seq<string>,
    currentItemId: Option<string>,
    currentPage: nat,
    itemsPerPage: nat,
    genreFilter: string,
    statusFilter: string)
  {
    ghost predicate Valid() {
      allData.Valid() &&
      (filteredData.Snapshot? ==> filteredData.items.Valid()) &&
      (searchResults.Some? ==> searchResults.value.Valid()) &&
      PendingValid(changedItems) &&
      Distinct(selectedItems) &&
      currentPage >= 1 && itemsPerPage >= 1
    }

    /** The catalog, the pending changes and the history. */
    function Changes(): Ledger {
      Ledger(allData, changedItems, history)
    }

    /** The same page with another catalog, pending changes and history. */
    function WithChanges(l: Ledger): PageState {
      this.(allData := l.data, changedItems := l.pending, history := l.history)
    }
  }

  /**
   * `performSearch` on the trimmed query `q`: a blank query clears the
   * search and applies the filters to the catalog; a query longer than 200
   * characters is refused; a failed request (`results` is `None`) changes
   * nothing; otherwise the results are shown from page 1, unfiltered.
   */
  function SearchState(s: PageState, q: string, results: Option<Catalog>): (r: PageState)
    requires s.Valid() && (results.Some? ==> results.value.Valid())
    ensures r.Valid()
  {
    if q == "" then
      s.(searchResults := None, currentPage := 1,
         filteredData := Filtering(s.allData, None, s.genreFilter, s.statusFilter, s.changedItems))
    else if |q| <= 200 && results.Some? then
      s.(searchResults := results, filteredData := Snapshot(results.value), currentPage := 1)
    else s
  }

  /** What a submission leaves behind: the page, the request sent if any, and the toast or the pull request's address. */
  datatype Submission = Submission(state: PageState, sent: Option<SubmitRequest>, outcome: Outcome<Value>)

  /**
   * `submitChanges` on page `s` with the dialog's four fields, when the
   * request (if one is sent) is answered with `reply`.
   */
  function Submitted(s: PageState, branchName: string, commitMessage: string, prTitle: string, prDescription: string,
                     reply: Reply): (r: Submission)
    requires s.Valid()
    ensures r.state.Valid()
  {
    var refused := SubmitGuard(branchName, commitMessage, prTitle, s.changedItems);
    if refused.Some? then Submission(s, None, Failure(refused.value))
    else
      var outcome := SubmitOutcome(reply);
      Submission(if outcome.Success? then s.(changedItems := Empty(), history := []) else s,
                 Some(RequestFor(s.changedItems, branchName, commitMessage, prTitle, prDescription)),
                 outcome)
  }

  /**
   * Nothing is sent when a field is blank or nothing changed, and the page is
   * then as it was; a sent request carries every pending change with the
   * trimmed fields; the pending changes and the history are emptied exactly
   * when the answer reports success, and nothing else on the page changes.
   */
  lemma SubmitClearsOnlyOnSuccess(s: PageState, branchName: string, commitMessage: string, prTitle: string,
                                  prDescription: string, reply: Reply)
    requires s.Valid()
    ensures var r := Submitted(s, branchName, commitMessage, prTitle, prDescription, reply);
      (r.sent.None? <==> !HasVisible(branchName) || !HasVisible(commitMessage) || !HasVisible(prTitle) ||
                         s.changedItems.keys == []) &&
      (r.sent.None? ==> r.state == s && r.outcome.Failure?) &&
      (r.sent.Some? ==> r.sent.value.changes == s.changedItems && r.sent.value.branchName == Trim(branchName) &&
                        r.sent.value.commitMessage == Trim(commitMessage) && r.sent.value.prTitle == Trim(prTitle)) &&
      (r.sent.Some? && r.outcome.Success? <==> r.sent.Some? && reply.Answer? && Truthy(reply.success)) &&
      (r.outcome.Success? ==> r.state == s.(changedItems := Empty(), history := []) && r.outcome.value == reply.prUrl) &&
      (r.outcome.Failure? ==> r.state == s)
  {
    SentRequestIsComplete(s.changedItems, branchName, commitMessage, prTitle, prDescription);
    SubmitOutcomeSpec(reply);
  }

  /** The state of the main editor page. */
  class MainEditor {
    var allData: Catalog
    var filteredData: ViewRef
    /** The results of the last search, while the search box is in use. */
    var searchResults: Option<Catalog>
    var changedItems: Pending
    /** `changeHistory` as kept in the browser's storage. */
    var history: seq<HistoryRecord>
    var selectedItems: seq<string>
    var currentItemId: Option<string>
    var currentPage: nat
    var itemsPerPage: nat
    var genreFilter: string
    var statusFilter: string

    function State(): PageState
      reads this
    {
      PageState(allData, filteredData, searchResults, changedItems, history, selectedItems,
                currentItemId, currentPage, itemsPerPage, genreFilter, statusFilter)
    }

    ghost predicate Valid()
      reads this
    {
      State().Valid()
    }

    /** The items the list shows: `filteredData`. */
    function Shown(): Catalog
      reads this
    {
      Resolve(allData, filteredData)
    }

    /** The list `renderItems(filteredData)` draws. */
    function Listing(): Listing
      reads this
      requires Valid()
    {
      RenderItems(Shown(), changedItems, currentPage, itemsPerPage)
    }

    /** The counters `updateStatistics` shows. */
    function Counters(): (s: Stats)
      reads this
      requires Valid()
      ensures s.processed + s.pending == s.total
    {
      Statistics(allData, changedItems)
    }

    /**
     * The page before the catalog arrives: nothing loaded, the pending
     * changes and the history kept in the browser's storage, page 1 of 20
     * items, nothing selected.
     */
    constructor(storedChanges: Pending, storedHistory: seq<HistoryRecord>)
      requires PendingValid(storedChanges)
      ensures Valid()
      ensures State() == PageState(Empty(), Snapshot(Empty()), None, storedChanges, storedHistory, [], None, 1, 20, "", "")
    {
      allData := Empty();
      filteredData := Snapshot(Empty());
      searchResults := None;
      changedItems := storedChanges;
      history := storedHistory;
      selectedItems := [];
      currentItemId := None;
      currentPage := 1;
      itemsPerPage := 20;
      genreFilter := "";
      statusFilter := "";
    }

    /** `fetchData` once the catalog arrives: `allData` and `filteredData` become that object. */
    method LoadData(data: Catalog)
      requires Valid() && data.Valid()
      modifies this
      ensures Valid()
      ensures State() == old(State()).(allData := data, filteredData := AllData)
      ensures Shown() == data
    {
      allData := data;
      filteredData := AllData;
    }

    /**
     * `performSearch`: a blank query clears the search; a query longer than
     * 200 characters is refused; a failed request changes nothing; otherwise
     * the list shows the results from page 1.
     */
    method PerformSearch(query: string, results: Option<Catalog>)
      requires Valid()
      requires results.Some? ==> results.value.Valid()
      modifies this
      ensures Valid()
      ensures State() == SearchState(old(State()), Trim(query), results)
    {
      var q := Trim(query);
      if q == "" {
        ClearSearch();
      } else if |q| <= 200 && results.Some? {
        searchResults := results;
        filteredData := Snapshot(results.value);
        currentPage := 1;
      }
    }

    /** `clearSearch`: the search is dropped and the filters apply to the whole catalog, from page 1. */
    method ClearSearch()
      requires Valid()
      modifies this
      ensures Valid()
      ensures State() == old(State()).(searchResults := None, currentPage := 1,
        filteredData := Filtering(allData, None, genreFilter, statusFilter, changedItems))
      ensures Shown() == MainViews.ApplyFilters(allData, None, genreFilter, statusFilter, changedItems)
    {
      searchResults := None;
      ApplyFilters(genreFilter, statusFilter);
    }

    /**
     * `applyFilters` after the genre or the status choice changes: the list
     * shows the items of the search results (or of the catalog) that pass
     * both filters, from page 1.
     */
    method ApplyFilters(genre: string, status: string)
      requires Valid()
      modifies this
      ensures Valid()
      ensures State() == old(State()).(genreFilter := genre, statusFilter := status, currentPage := 1,
        filteredData := Filtering(allData, searchResults, genre, status, changedItems))
      ensures Shown() == MainViews.ApplyFilters(allData, searchResults, genre, status, changedItems)
    {
      genreFilter, statusFilter := genre, status;
      filteredData := Filtering(allData, searchResults, genre, status, changedItems);
      FilteringShowsFiltered(allData, searchResults, genre, status, changedItems);
      currentPage := 1;
    }

    /** The page-size select: `n` items per page, from page 1. */
    method SetItemsPerPage(n: nat)
      requires Valid() && n >= 1
      modifies this
      ensures Valid()
      ensures State() == old(State()).(itemsPerPage := n, currentPage := 1)
    {
      itemsPerPage, currentPage := n, 1;
    }

    /** A click on a page button of `renderPagination`. */
    method GoToPage(page: nat)
      requires Valid() && page >= 1
      modifies this
      ensures Valid()
      ensures State() == old(State()).(currentPage := page)
    {
      currentPage := page;
    }

    /** `selectItem(id)`: the form now edits item `id`. */
    method SelectItem(id: string)
      requires Valid()
      modifies this
      ensures Valid()
      ensures State() == old(State()).(currentItemId := Some(id))
    {
      currentItemId := Some(id);
    }

    /** The check box of item `id` in the list: `selectedItems.add(id)` or `selectedItems.delete(id)`. */
    method ToggleSelection(id: string, checked: bool)
      requires Valid()
      modifies this
      ensures Valid()
      ensures State() == old(State()).(selectedItems := Toggled(old(selectedItems), id, checked))
    {
      selectedItems := Toggled(selectedItems, id, checked);
    }

    /** Replaces the catalog, the pending changes and the history, and nothing else. */
    method SetLedger(l: Ledger)
      requires Valid() && l.Valid()
      modifies this
      ensures Valid()
      ensures State() == old(State()).WithChanges(l)
    {
      allData, changedItems, history := l.data, l.pending, l.history;
    }

    /**
     * `updateItem`: with an item selected and a valid form, the form's `''`
     * and `null` values are dropped; when some remaining field differs from
     * the item's, the item takes on the form's values and each differing
     * field is stored and logged. Any other ending changes nothing.
     */
    method UpdateItem(form: OMap<string, Value>, formValid: bool, now: int) returns (o: UpdateOutcome)
      requires Valid() && form.Valid()
      modifies this
      ensures Valid()
      ensures o == UpdateVerdict(old(currentItemId), formValid, old(allData), Filled(form))
      ensures o == Updated ==> old(currentItemId).Some? && old(currentItemId).value in old(allData).vals
      ensures State() == if o == Updated
        then old(State()).WithChanges(UpdateLedger(old(State()).Changes(), old(currentItemId).value, Filled(form), now))
        else old(State())
      ensures old(LedgerAgrees(allData, changedItems)) ==> LedgerAgrees(allData, changedItems)
    {
      if currentItemId.None? || currentItemId.value == "" {
        return NoItemSelected;
      }
      if !formValid {
        return FormInvalid;
      }
      var id := currentItemId.value;
      var filled := DropEmpty(form);
      if id !in allData.vals {
        return if filled.keys == [] then NoChanges else Crashed;
      }
      var previous := allData.vals[id];
      var changed := HasChanges(filled, previous);
      if !changed {
        return NoChanges;
      }
      StoreUpdate(id, filled, now);
      o := Updated;
    }

    /** The writing half of `updateItem`: the merge into the catalog and the recording loop. */
    method StoreUpdate(id: string, filled: OMap<string, Value>, now: int)
      requires Valid() && filled.Valid() && id in allData.vals
      modifies this
      ensures Valid()
      ensures State() == old(State()).WithChanges(UpdateLedger(old(State()).Changes(), id, filled, now))
      ensures old(LedgerAgrees(allData, changedItems)) ==> LedgerAgrees(allData, changedItems)
    {
      var previous := allData.vals[id];
      var item := previous + filled.vals;
      var entry, logged := RecordChanges(EntryOf(changedItems, id), history, filled, previous, id, ItemTitle(item, id), now);
      if LedgerAgrees(allData, changedItems) {
        UpdateLedgerAgrees(State().Changes(), id, filled, now);
      }
      SetLedger(Ledger(Put(allData, id, item), Put(changedItems, id, entry), logged));
    }

    /**
     * `applyBulkEdit`: with nothing selected it only warns; otherwise every
     * selected item of the catalog takes on the chosen fields, in selection
     * order, and the selection is cleared. The result is the number of items
     * the success message names.
     */
    method ApplyBulkEdit(f: BulkForm, now: int) returns (count: Option<nat>)
      requires Valid()
      modifies this
      ensures Valid()
      ensures old(selectedItems) == [] <==> count.None?
      ensures count.Some? ==> count.value == |old(selectedItems)|
      ensures State() == if count.None? then old(State())
        else old(State()).WithChanges(BulkAll(old(State()).Changes(), old(selectedItems), BulkUpdates(f), now, |old(selectedItems)|))
                         .(selectedItems := [])
      ensures old(LedgerAgrees(allData, changedItems)) ==> LedgerAgrees(allData, changedItems)
    {
      if |selectedItems| == 0 {
        return None;
      }
      count := Some(|selectedItems|);
      var l := BulkEdit(State().Changes(), selectedItems, BulkUpdates(f), now);
      if LedgerAgrees(allData, changedItems) {
        BulkKeepsAgreement(State().Changes(), selectedItems, BulkUpdates(f), now, |selectedItems|);
      }
      SetLedger(l);
      selectedItems := [];
    }

    /**
     * `submitChanges`: when a field is blank or nothing changed nothing is
     * sent; otherwise the request carries every pending change, and the
     * pending changes and the history are cleared only when the answer
     * reports success.
     */
    method SubmitChanges(branchName: string, commitMessage: string, prTitle: string, prDescription: string, reply: Reply)
      returns (sent: Option<SubmitRequest>, outcome: Outcome<Value>)
      requires Valid()
      modifies this
      ensures Valid()
      ensures Submitted(old(State()), branchName, commitMessage, prTitle, prDescription, reply) == Submission(State(), sent, outcome)
    {
      var r := Submitted(State(), branchName, commitMessage, prTitle, prDescription, reply);
      changedItems, history := r.state.changedItems, r.state.history;
      sent, outcome := r.sent, r.outcome;
    }
  }
}
