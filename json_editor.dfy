/**
 * The JSON editor (`public/json-editor.js`, class `JSONEditor`): the table of
 * items, its filtered and sorted view, the page shown, the columns, the
 * change ledger and the selection, and the handlers that update them. The
 * network is a parameter: the document a load fetched, and the outcome of a
 * save. Confirmation dialogs are parameters too.
 */
module JsonEditing {
  import opened Values
  import opened Collections
  import opened Paging
  import opened JsonCells
  import opened JsonLedger
  import opened JsonView

  /** How `fetch('/api/data/save')` ended: it threw, or the server replied (`error` is `''` when absent). */
  datatype SaveResponse =
    | Thrown(message: string)
    | Replied(httpOk: bool, status: int, success: bool, error: string)

  /** The message `saveChanges()` throws for a response, or `None` when the server reports success. */
  function SaveFailure(response: SaveResponse): (m: Option<string>)
    ensures m.None? <==> response.Replied? && response.httpOk && response.success
    ensures response.Replied? && response.error != "" && m.Some? ==> m.value == response.error
  {
    match response
    case Thrown(message) => Some(message)
    case Replied(httpOk, status, success, error) =>
      if !httpOk then Some(if error != "" then error else "HTTP error! status: " + IntToString(status))
      else if success then None
      else Some(if error != "" then error else "Errore sconosciuto durante il salvataggio")
  }

  /** The message shown for a failed save. */
  function SaveErrorMessage(message: string): string {
    if Contains(message, "Failed to fetch") then "Errore di connessione. Verifica la tua connessione internet e riprova."
    else if Contains(message, "401") then "Errore di autenticazione. Le credenziali GitHub potrebbero essere scadute."
    else if Contains(message, "403") then "Accesso negato. Verifica i permessi del repository GitHub."
    else if Contains(message, "404") then "Repository o file non trovato. Verifica la configurazione."
    else "Errore durante il salvataggio delle modifiche: " + message
  }

  /** A string lacking one of `t`'s characters does not contain `t`. */
  lemma AbsentChar(s: string, t: string, k: nat)
    requires k < |t| && forall i :: 0 <= i < |s| ==> s[i] != t[k]
    ensures !Contains(s, t)
  {
    forall i | 0 <= i <= |s| - |t| ensures !OccursAt(s, t, i) {
      assert s[i..i + |t|][k] == s[i + k];
    }
  }

  /** `String(status)` for the three statuses the save error message singles out. */
  lemma StatusDigits()
    ensures IntToString(401) == "401" && IntToString(403) == "403" && IntToString(404) == "404"
  {
    assert NatToString(4) == "4";
    assert NatToString(40) == "40";
  }

  /** A save that cannot reach the server reports a connection problem. */
  lemma SaveErrorOffline()
    ensures SaveErrorMessage(SaveFailure(Thrown("Failed to fetch")).value) ==
            "Errore di connessione. Verifica la tua connessione internet e riprova."
  {
    ContainsSelf("Failed to fetch");
  }

  /** An HTTP 401 without an error text from the server reports expired credentials. */
  lemma SaveErrorUnauthorized(success: bool)
    ensures SaveErrorMessage(SaveFailure(Replied(false, 401, success, "")).value) ==
            "Errore di autenticazione. Le credenziali GitHub potrebbero essere scadute."
  {
    StatusDigits();
    var m := "HTTP error! status: 401";
    assert "HTTP error! status: " + IntToString(401) == m;
    AbsentChar(m, "Failed to fetch", 0);
    assert OccursAt(m, "401", 20);
  }

  /** An HTTP 403 without an error text from the server reports missing permissions. */
  lemma SaveErrorForbidden(success: bool)
    ensures SaveErrorMessage(SaveFailure(Replied(false, 403, success, "")).value) ==
            "Accesso negato. Verifica i permessi del repository GitHub."
  {
    StatusDigits();
    var m := "HTTP error! status: 403";
    assert "HTTP error! status: " + IntToString(403) == m;
    AbsentChar(m, "Failed to fetch", 0);
    AbsentChar(m, "401", 2);
    assert OccursAt(m, "403", 20);
  }

  /** An HTTP 404 without an error text from the server reports a missing repository or file. */
  lemma SaveErrorNotFound(success: bool)
    ensures SaveErrorMessage(SaveFailure(Replied(false, 404, success, "")).value) ==
            "Repository o file non trovato. Verifica la configurazione."
  {
    StatusDigits();
    var m := "HTTP error! status: 404";
    assert "HTTP error! status: " + IntToString(404) == m;
    AbsentChar(m, "Failed to fetch", 0);
    AbsentChar(m, "401", 2);
    AbsentChar(m, "403", 2);
    assert OccursAt(m, "404", 20);
  }

  /** A failure whose text mentions none of those is reported with its text after a fixed prefix. */
  lemma SaveErrorOther(response: SaveResponse)
    requires SaveFailure(response).Some?
    requires var m := SaveFailure(response).value;
             !Contains(m, "Failed to fetch") && !Contains(m, "401") && !Contains(m, "403") && !Contains(m, "404")
    ensures SaveErrorMessage(SaveFailure(response).value) ==
            "Errore durante il salvataggio delle modifiche: " + SaveFailure(response).value
  {
  }

  /** The notice `bulkDelete()` means to show: how many rows went. */
  function DeleteNotice(deleted: nat): string {
    NatToString(deleted) + " elementi eliminati"
  }

  /**
   * The notice as `bulkDelete()` builds it: the size of the selection, read
   * after `clearSelection()` has emptied it.
   */
  function DeleteNoticeAsWritten(): string {
    var selectedAfter: seq<Value> := [];
    DeleteNotice(|selectedAfter|)
  }

  /** Deleting the one selected row is announced as zero deletions. */
  lemma DeleteNoticeSaysZero()
    ensures var data := [map["id" := Str("a")]];
            var selected := [Str("a")];
            |data| - |KeepUnselected(data, selected)| == 1 &&
            DeleteNoticeAsWritten() == "0 elementi eliminati" &&
            DeleteNotice(|data| - |KeepUnselected(data, selected)|) == "1 elementi eliminati"
  {
    OneSelectedRowDeleted();
    assert NatToString(0) == "0";
    assert NatToString(1) == "1";
  }

  lemma OneSelectedRowDeleted()
    ensures var data := [map["id" := Str("a")]];
            |data| - |KeepUnselected(data, [Str("a")])| == 1
  {
    var data := [map["id" := Str("a")]];
    var selected := [Str("a")];
    assert RowKey(data, 0) == Str("a");
    var kept := Unselected(data, selected);
    assert 0 !in kept;
    assert kept == [];
  }

  /** Deletion removes exactly the rows whose key is selected. */
  lemma DeletedCount(data: seq<Item>, selected: seq<Value>)
    ensures |data| - |KeepUnselected(data, selected)| ==
            |Filter(Range(|data|), (j: nat) => j < |data| && RowKey(data, j) in selected)|
  {
    var all: seq<nat> := Range(|data|);
    var p := (j: nat) => j < |data| && RowKey(data, j) !in selected;
    var q := (j: nat) => j < |data| && RowKey(data, j) in selected;
    assert forall j: nat :: j in all ==> j < |data| by {
      forall j: nat | j in all ensures j < |data| {
        var t :| 0 <= t < |all| && all[t] == j;
      }
    }
    FilterSplit(all, p, (j: nat) => !p(j));
    assert Filter(all, (j: nat) => !p(j)) == Filter(all, q) by {
      FilterSameOn(all, (j: nat) => !p(j), q);
    }
    assert Unselected(data, selected) == Filter(all, p);
  }

  /** Two predicates that agree on a sequence's elements filter it alike. */
  lemma {:induction false} FilterSameOn<T(!new)>(s: seq<T>, p: T -> bool, q: T -> bool)
    requires forall x :: x in s ==> p(x) == q(x)
    ensures Filter(s, p) == Filter(s, q)
    decreases |s|
  {
    if s != [] {
      FilterSameOn(s[..|s| - 1], p, q);
    }
  }

  /**
   * `getCurrentPageData()`: the rows at the view positions on page `page`
   * (`Paging.PageOf` and the lemmas beside it say which positions those are).
   */
  function PageRows(data: seq<Item>, view: seq<nat>, page: int, perPage: int): (rows: seq<Item>)
    requires page >= 1 && perPage >= 1
    requires forall t :: 0 <= t < |view| ==> view[t] < |data|
    ensures |rows| == |PageOf(view, page, perPage)|
    ensures forall t :: 0 <= t < |rows| ==> PageOf(view, page, perPage)[t] < |data| && rows[t] == data[PageOf(view, page, perPage)[t]]
  {
    PageOfBounded(view, page, perPage, |data|);
    Pick(data, PageOf(view, page, perPage))
  }

  /** The keys of the rows on a page, `item.id || this.data.indexOf(item)`, with the view positions they come from. */
  function PageKeys(data: seq<Item>, view: seq<nat>, page: int, perPage: int): (keys: seq<Value>)
    requires page >= 1 && perPage >= 1
    requires forall t :: 0 <= t < |view| ==> view[t] < |data|
    ensures forall key :: key in keys <==> exists j :: j in PageOf(view, page, perPage) && j < |data| && key == RowKey(data, j)
  {
    var positions := PageOf(view, page, perPage);
    PageOfBounded(view, page, perPage, |data|);
    var keys := seq(|positions|, t requires 0 <= t < |positions| => RowKey(data, positions[t]));
    assert forall key :: key in keys <==> exists j :: j in positions && j < |data| && key == RowKey(data, j) by {
      forall key ensures key in keys <==> exists j :: j in positions && j < |data| && key == RowKey(data, j) {
        if key in keys {
          var t :| 0 <= t < |keys| && keys[t] == key;
          assert positions[t] in positions;
        }
        if exists j :: j in positions && j < |data| && key == RowKey(data, j) {
          var j :| j in positions && j < |data| && key == RowKey(data, j);
          var t :| 0 <= t < |positions| && positions[t] == j;
          assert keys[t] == key;
        }
      }
    }
    keys
  }

  /**
   * `saveChanges()`'s payload: for each recorded item, `changes[itemId] = {}`,
   * then the new value of each of its changed fields.
   */
  method BuildPayload(ledger: Ledger) returns (changes: OMap<string, OMap<string, Value>>)
    requires LedgerValid(ledger)
    ensures changes == Flatten(ledger)
  {
    changes := Empty();
    var k := 0;
    while k < |ledger.keys|
      invariant 0 <= k <= |ledger.keys|
      invariant changes == Rekey(ledger, ToStr, NewValues, k)
    {
      var itemId := ledger.keys[k];
      var entry := NewEntry(ledger.vals[itemId]);
      changes := Put(changes, ToStr(itemId), entry);
      k := k + 1;
    }
  }

  /** `changes[itemId][field] = change.newValue` for each changed field of one item, in the ledger's order. */
  method NewEntry(fieldChanges: FieldChanges) returns (entry: OMap<string, Value>)
    requires fieldChanges.Valid()
    ensures entry == NewValues(fieldChanges)
  {
    entry := Empty();
    var j := 0;
    while j < |fieldChanges.keys|
      invariant 0 <= j <= |fieldChanges.keys|
      invariant entry.Valid() && entry.keys == fieldChanges.keys[..j]
      invariant forall f :: f in entry.vals ==> f in fieldChanges.vals && entry.vals[f] == fieldChanges.vals[f].after
    {
      var field := fieldChanges.keys[j];
      assert field !in entry.keys by {
        assert forall a :: 0 <= a < j ==> fieldChanges.keys[a] != fieldChanges.keys[j];
      }
      entry := Put(entry, field, fieldChanges.vals[field].after);
      assert fieldChanges.keys[..j + 1] == fieldChanges.keys[..j] + [field];
      j := j + 1;
    }
    assert fieldChanges.keys[..j] == fieldChanges.keys;
  }

  /**
   * What `extractColumns()` computes from the rows: every field name of every
   * row, in ascending order and once each; the columns shown at first; and the
   * rest, hidden, in the same order.
   */
  ghost predicate ColumnsOf(data: seq<Item>, columns: seq<string>, visible: seq<string>, hidden: seq<string>) {
    StrictlySorted(columns) && Distinct(columns) &&
    (forall c :: c in columns <==> exists i :: 0 <= i < |data| && c in data[i]) &&
    visible == InitialColumns(columns) && hidden == HiddenColumns(columns, visible)
  }

  /** `extractColumns()`'s first half: every field name of every row, sorted as `Array.prototype.sort` sorts strings. */
  method CollectColumns(data: seq<Item>) returns (sorted: seq<string>)
    ensures StrictlySorted(sorted) && Distinct(sorted)
    ensures forall c :: c in sorted <==> exists i :: 0 <= i < |data| && c in data[i]
  {
    var allKeys: set<string> := {};
    var n := 0;
    while n < |data|
      invariant 0 <= n <= |data|
      invariant forall c :: c in allKeys <==> exists i :: 0 <= i < n && c in data[i]
    {
      allKeys := allKeys + data[n].Keys;
      n := n + 1;
    }
    sorted := [];
    var rest := allKeys;
    while rest != {}
      invariant rest <= allKeys && StrictlySorted(sorted)
      invariant forall c :: c in sorted <==> c in allKeys && c !in rest
      decreases |rest|
    {
      var key :| key in rest;
      sorted := InsertSorted(sorted, key);
      rest := rest - {key};
    }
    SortedDistinct(sorted);
  }

  /** `extractColumns()`'s second half: the preferred columns present, then the first eligible others, up to the limit. */
  method ChooseVisible(columns: seq<string>) returns (visible: seq<string>)
    requires Distinct(columns)
    ensures visible == InitialColumns(columns)
  {
    var preferred := PreferredColumns(columns);
    visible := FillVisible(preferred, Eligible(columns, preferred));
    InitialColumnsSplit(columns);
  }

  /** `while (visible.length < 15 && remaining.length > 0) visible.push(remaining.shift())` */
  method FillVisible(preferred: seq<string>, eligible: seq<string>) returns (visible: seq<string>)
    requires |preferred| <= MaxInitialColumns
    ensures visible == preferred + eligible[..if MaxInitialColumns - |preferred| < |eligible| then MaxInitialColumns - |preferred| else |eligible|]
  {
    visible := preferred;
    var remaining := eligible;
    ghost var taken := 0;
    while |visible| < MaxInitialColumns && |remaining| > 0
      invariant 0 <= taken <= |eligible| && |preferred| + taken <= MaxInitialColumns
      invariant visible == preferred + eligible[..taken] && remaining == eligible[taken..]
    {
      assert remaining[0] == eligible[taken];
      visible := visible + [remaining[0]];
      assert eligible[..taken + 1] == eligible[..taken] + [eligible[taken]];
      assert remaining[1..] == eligible[taken + 1..];
      remaining := remaining[1..];
      taken := taken + 1;
    }
    assert taken == if MaxInitialColumns - |preferred| < |eligible| then MaxInitialColumns - |preferred| else |eligible|;
  }

  class JsonEditor {
    var data: seq<Item>
    /** Positions in `data` of the rows shown, in display order. */
    var filteredData: seq<nat>
    var currentPage: int
    var itemsPerPage: int
    var columns: seq<string>
    var visibleColumns: seq<string>
    var hiddenColumns: seq<string>
    var changedItems: Ledger
    /** `''` stands for no sort column (`null`). */
    var sortColumn: string
    var sortDirection: string
    var filters: Filters
    /** `selectedItems`, a `Set`, in insertion order. */
    var selectedItems: seq<Value>

    ghost predicate Valid()
      reads this
    {
      LedgerValid(changedItems) && itemsPerPage >= 1 && currentPage >= 1 && Distinct(selectedItems) &&
      forall t :: 0 <= t < |filteredData| ==> filteredData[t] < |data|
    }

    /** The view settings and the view. */
    ghost function ViewState(): (seq<nat>, int, int, string, string, Filters)
      reads this
    {
      (filteredData, currentPage, itemsPerPage, sortColumn, sortDirection, filters)
    }

    /** All columns, the shown ones and the hidden ones. */
    ghost function ColumnState(): (seq<string>, seq<string>, seq<string>)
      reads this
    {
      (columns, visibleColumns, hiddenColumns)
    }

    constructor()
      ensures Valid()
      ensures data == [] && filteredData == [] && currentPage == 1 && itemsPerPage == 50
      ensures columns == [] && visibleColumns == [] && hiddenColumns == []
      ensures changedItems == Empty() && sortColumn == "" && sortDirection == "asc"
      ensures filters == Filters("", "", "") && selectedItems == []
    {
      data := [];
      filteredData := [];
      currentPage := 1;
      itemsPerPage := 50;
      columns := [];
      visibleColumns := [];
      hiddenColumns := [];
      changedItems := Empty();
      sortColumn := "";
      sortDirection := "asc";
      filters := Filters("", "", "");
      selectedItems := [];
    }

    /**
     * `updateItemValue(itemId, column, newValue)`: false for an unknown row or a
     * value the column rejects; otherwise true, and a changed value is written
     * and recorded, keeping the value from before the field's first edit.
     */
    method UpdateItemValue(itemId: Value, column: string, newValue: Value, currentYear: int, isUrl: string -> bool)
      returns (ok: bool)
      requires Valid()
      modifies this
      ensures Valid()
      ensures var o := Edit(old(data), old(changedItems), itemId, column, newValue, currentYear, isUrl);
              ok == o.ok && data == o.data && changedItems == o.ledger
      ensures ViewState() == old(ViewState()) && ColumnState() == old(ColumnState())
      ensures selectedItems == old(selectedItems)
    {
      var found := FindRow(data, itemId);
      if found.None? {
        return false;
      }
      var i := found.value;
      var oldValue := Get(data[i], column);
      var validationErrors := ValidateCellValue(newValue, column, currentYear, isUrl);
      if |validationErrors| > 0 {
        return false;
      }
      if !StrictEq(oldValue, newValue) {
        var itemChanges: FieldChanges := if itemId in changedItems.vals then changedItems.vals[itemId] else Empty();
        if column !in itemChanges.vals {
          itemChanges := Put(itemChanges, column, Change(oldValue, newValue));
        } else {
          itemChanges := Put(itemChanges, column, Change(itemChanges.vals[column].before, newValue));
        }
        Commit(data[i := data[i][column := newValue]], PutEntry(changedItems, itemId, itemChanges));
      }
      return true;
    }

    /**
     * `undoLastChange()`: write back the old value of the field changed last on
     * the item edited last, and forget that change.
     */
    method UndoLastChange()
      requires Valid()
      modifies this
      ensures Valid()
      ensures (data, changedItems) == Undo(old(data), old(changedItems))
      ensures ViewState() == old(ViewState()) && ColumnState() == old(ColumnState())
      ensures selectedItems == old(selectedItems)
    {
      if |changedItems.keys| == 0 {
        return;
      }
      var lastItemId := changedItems.keys[|changedItems.keys| - 1];
      var itemChanges := changedItems.vals[lastItemId];
      var lastField := itemChanges.keys[|itemChanges.keys| - 1];
      var lastChange := itemChanges.vals[lastField];
      var found := FindRow(data, lastItemId);
      if found.Some? {
        var i := found.value;
        assert Undo(data, changedItems) == (data[i := data[i][lastField := lastChange.before]], Drop(changedItems, lastItemId, lastField));
        Commit(data[i := data[i][lastField := lastChange.before]], Drop(changedItems, lastItemId, lastField));
      }
    }

    /** Stores an edited table of the same size and its ledger; nothing else changes. */
    method Commit(newData: seq<Item>, newLedger: Ledger)
      requires Valid() && LedgerValid(newLedger) && |newData| == |data|
      modifies this
      ensures Valid() && data == newData && changedItems == newLedger
      ensures ViewState() == old(ViewState()) && ColumnState() == old(ColumnState())
      ensures selectedItems == old(selectedItems)
    {
      data, changedItems := newData, newLedger;
    }

    /**
     * `saveChanges()`: with no change there is nothing to send. Otherwise the
     * ledger is flattened into the payload, and it is cleared only when the
     * server reports success; any failure keeps it and yields a message.
     */
    method SaveChanges(response: SaveResponse) returns (payload: Option<OMap<string, OMap<string, Value>>>, error: Option<string>)
      requires Valid()
      modifies this
      ensures Valid()
      ensures old(changedItems).keys == [] ==>
                payload.None? && error == Some("Nessuna modifica da salvare") && changedItems == old(changedItems)
      ensures old(changedItems).keys != [] ==>
                payload == Some(Flatten(old(changedItems))) &&
                (SaveFailure(response).None? ==> changedItems == Empty() && error.None?) &&
                (SaveFailure(response).Some? ==>
                   changedItems == old(changedItems) && error == Some(SaveErrorMessage(SaveFailure(response).value)))
      ensures data == old(data) && selectedItems == old(selectedItems)
      ensures ViewState() == old(ViewState()) && ColumnState() == old(ColumnState())
    {
      if |changedItems.keys| == 0 {
        return None, Some("Nessuna modifica da salvare");
      }
      var changes := BuildPayload(changedItems);
      payload := Some(changes);
      match SaveFailure(response)
      case None =>
        changedItems := Empty();
        error := None;
      case Some(message) =>
        error := Some(SaveErrorMessage(message));
    }

    /** The timer `scheduleAutoSave()` sets saves only when there is something to save, and says nothing otherwise. */
    method AutoSave(response: SaveResponse) returns (payload: Option<OMap<string, OMap<string, Value>>>, error: Option<string>)
      requires Valid()
      modifies this
      ensures Valid()
      ensures old(changedItems).keys == [] ==> payload.None? && error.None? && changedItems == old(changedItems)
      ensures old(changedItems).keys != [] ==> payload == Some(Flatten(old(changedItems)))
      ensures data == old(data) && selectedItems == old(selectedItems)
      ensures ViewState() == old(ViewState()) && ColumnState() == old(ColumnState())
    {
      if |changedItems.keys| > 0 {
        payload, error := SaveChanges(response);
      } else {
        payload, error := None, None;
      }
    }

    /** `applyFiltersAndSort()`: recompute the view and go back to the first page. */
    method ApplyFiltersAndSort()
      requires Valid()
      modifies this
      ensures Valid()
      ensures filteredData == View(data, filters, sortColumn, sortDirection == "asc") && currentPage == 1
      ensures itemsPerPage == old(itemsPerPage) && sortColumn == old(sortColumn) && sortDirection == old(sortDirection)
      ensures filters == old(filters)
      ensures data == old(data) && changedItems == old(changedItems) && selectedItems == old(selectedItems)
      ensures ColumnState() == old(ColumnState())
    {
      var view := View(data, filters, sortColumn, sortDirection == "asc");
      ViewMembers(data, filters, sortColumn, sortDirection == "asc");
      assert forall t :: 0 <= t < |view| ==> view[t] in view;
      filteredData := view;
      currentPage := 1;
    }

    /** The search box: its text is stored lower-cased. */
    method SetGlobalSearch(text: string)
      requires Valid()
      modifies this
      ensures Valid()
      ensures filters == old(filters).(global := Lower(text))
      ensures filteredData == View(data, filters, sortColumn, sortDirection == "asc") && currentPage == 1
      ensures data == old(data) && changedItems == old(changedItems) && sortColumn == old(sortColumn)
      ensures sortDirection == old(sortDirection) && selectedItems == old(selectedItems)
    {
      filters := filters.(global := Lower(text));
      ApplyFiltersAndSort();
    }

    /** The column filter's column. */
    method SetFilterColumn(column: string)
      requires Valid()
      modifies this
      ensures Valid()
      ensures filters == old(filters).(column := column)
      ensures filteredData == View(data, filters, sortColumn, sortDirection == "asc") && currentPage == 1
      ensures data == old(data) && changedItems == old(changedItems) && sortColumn == old(sortColumn)
      ensures sortDirection == old(sortDirection) && selectedItems == old(selectedItems)
    {
      filters := filters.(column := column);
      ApplyFiltersAndSort();
    }

    /** The column filter's text, stored lower-cased. */
    method SetFilterValue(text: string)
      requires Valid()
      modifies this
      ensures Valid()
      ensures filters == old(filters).(value := Lower(text))
      ensures filteredData == View(data, filters, sortColumn, sortDirection == "asc") && currentPage == 1
      ensures data == old(data) && changedItems == old(changedItems) && sortColumn == old(sortColumn)
      ensures sortDirection == old(sortDirection) && selectedItems == old(selectedItems)
    {
      filters := filters.(value := Lower(text));
      ApplyFiltersAndSort();
    }

    /** The sort column and direction selectors. */
    method SetSort(column: string, direction: string)
      requires Valid()
      modifies this
      ensures Valid()
      ensures sortColumn == column && sortDirection == direction && filters == old(filters)
      ensures filteredData == View(data, filters, sortColumn, sortDirection == "asc") && currentPage == 1
      ensures data == old(data) && changedItems == old(changedItems) && selectedItems == old(selectedItems)
    {
      sortColumn := column;
      sortDirection := direction;
      ApplyFiltersAndSort();
    }

    /** `clearFilters()`: no search, no column filter, no sort column. */
    method ClearFilters()
      requires Valid()
      modifies this
      ensures Valid()
      ensures filters == Filters("", "", "") && sortColumn == ""
      ensures filteredData == Matching(data, filters) && currentPage == 1
      ensures data == old(data) && changedItems == old(changedItems) && selectedItems == old(selectedItems)
    {
      filters := Filters("", "", "");
      sortColumn := "";
      ApplyFiltersAndSort();
    }

    /** `goToPage(page)`: pages outside `1..totalPages` are ignored. */
    method GoToPage(page: int)
      requires Valid()
      modifies this
      ensures Valid()
      ensures currentPage == if 1 <= page <= TotalPages(|filteredData|, itemsPerPage) then page else old(currentPage)
      ensures filteredData == old(filteredData) && itemsPerPage == old(itemsPerPage) && sortColumn == old(sortColumn)
      ensures sortDirection == old(sortDirection) && filters == old(filters)
      ensures data == old(data) && changedItems == old(changedItems) && selectedItems == old(selectedItems)
      ensures ColumnState() == old(ColumnState())
    {
      var totalPages := TotalPages(|filteredData|, itemsPerPage);
      if page < 1 || page > totalPages {
        return;
      }
      currentPage := page;
    }

    /** `selectAllItems()`: the keys of the rows on the current page. */
    method SelectAllItems()
      requires Valid()
      modifies this
      ensures Valid()
      ensures forall key :: key in selectedItems <==>
                exists j :: j in PageOf(filteredData, currentPage, itemsPerPage) && j < |data| && key == RowKey(data, j)
      ensures Distinct(selectedItems)
      ensures data == old(data) && changedItems == old(changedItems)
      ensures ViewState() == old(ViewState()) && ColumnState() == old(ColumnState())
    {
      selectedItems := Dedupe(PageKeys(data, filteredData, currentPage, itemsPerPage));
    }

    /** `clearSelection()` */
    method ClearSelection()
      requires Valid()
      modifies this
      ensures Valid()
      ensures selectedItems == []
      ensures data == old(data) && changedItems == old(changedItems)
      ensures ViewState() == old(ViewState()) && ColumnState() == old(ColumnState())
    {
      selectedItems := [];
    }

    /**
     * A click on row `pageRow` of the page: the row's key is its `id`, or else
     * its position on the page. With Ctrl or Cmd the key is toggled; otherwise
     * it becomes the whole selection.
     */
    method ClickRow(pageRow: nat, toggle: bool)
      requires Valid()
      modifies this
      ensures Valid()
      ensures var page := PageOf(filteredData, currentPage, itemsPerPage);
              pageRow < |page| ==>
                page[pageRow] < |data| &&
                var key := Or(Get(data[page[pageRow]], "id"), Num(pageRow));
                if !toggle then selectedItems == [key]
                else if key in old(selectedItems) then selectedItems == RemoveValue(old(selectedItems), key)
                else selectedItems == old(selectedItems) + [key]
      ensures pageRow >= |PageOf(filteredData, currentPage, itemsPerPage)| ==> selectedItems == old(selectedItems)
      ensures data == old(data) && changedItems == old(changedItems)
      ensures ViewState() == old(ViewState()) && ColumnState() == old(ColumnState())
    {
      var rows := PageRows(data, filteredData, currentPage, itemsPerPage);
      if pageRow >= |rows| {
        return;
      }
      var key := Or(Get(rows[pageRow], "id"), Num(pageRow));
      if toggle {
        if key in selectedItems {
          selectedItems := RemoveValue(selectedItems, key);
        } else {
          selectedItems := selectedItems + [key];
        }
      } else {
        selectedItems := [key];
      }
    }

    /**
     * `applyBulkEdit()`: nothing without a field; otherwise the typed text is
     * parsed for the field and written into every selected row in selection
     * order, the successful writes are counted and the selection is cleared.
     */
    method ApplyBulkEdit(field: string, text: string, currentYear: int, isUrl: string -> bool) returns (changedCount: Option<nat>)
      requires Valid()
      modifies this
      ensures Valid()
      ensures field == "" ==> changedCount.None? && data == old(data) && changedItems == old(changedItems) &&
                              selectedItems == old(selectedItems)
      ensures field != "" ==>
                var r := BulkEdit(old(data), old(changedItems), old(selectedItems), field, ParseValue(text, field), currentYear, isUrl);
                changedCount == Some(r.count) && data == r.data && changedItems == r.ledger && selectedItems == []
      ensures ViewState() == old(ViewState()) && ColumnState() == old(ColumnState())
    {
      if field == "" {
        return None;
      }
      var parsedValue := ParseValue(text, field);
      var count := 0;
      var ids := selectedItems;
      var k := 0;
      while k < |ids|
        invariant 0 <= k <= |ids| && Valid() && selectedItems == ids
        invariant BulkOutcome(count, data, changedItems) ==
                  BulkEdit(old(data), old(changedItems), ids[..k], field, parsedValue, currentYear, isUrl)
        invariant ViewState() == old(ViewState()) && ColumnState() == old(ColumnState())
      {
        BulkEditStep(old(data), old(changedItems), ids, k, field, parsedValue, currentYear, isUrl);
        var success := UpdateItemValue(ids[k], field, parsedValue, currentYear, isUrl);
        if success {
          count := count + 1;
        }
        k := k + 1;
      }
      assert ids[..k] == ids;
      ClearSelection();
      return Some(count);
    }

    /**
     * `bulkDelete()`, once confirmed: drop the rows whose key is selected,
     * clear the selection and recompute the view. The ledger keeps whatever
     * it recorded for the dropped rows. Returns the notice shown.
     */
    method BulkDelete(confirmed: bool) returns (notice: Option<string>)
      requires Valid()
      modifies this
      ensures Valid()
      ensures !confirmed ==> notice.None? && data == old(data) && selectedItems == old(selectedItems) &&
                             filteredData == old(filteredData) && currentPage == old(currentPage)
      ensures confirmed ==>
                data == KeepUnselected(old(data), old(selectedItems)) && selectedItems == [] &&
                filteredData == View(data, filters, sortColumn, sortDirection == "asc") && currentPage == 1 &&
                notice == Some(DeleteNotice(|old(data)| - |data|))
      ensures itemsPerPage == old(itemsPerPage) && sortColumn == old(sortColumn) && sortDirection == old(sortDirection)
      ensures filters == old(filters) && changedItems == old(changedItems) && ColumnState() == old(ColumnState())
    {
      if !confirmed {
        return None;
      }
      var before := |data|;
      data := KeepUnselected(data, selectedItems);
      filteredData := [];
      ClearSelection();
      ApplyFiltersAndSort();
      return Some(DeleteNotice(before - |data|));
    }

    /** `reloadRemoteData()`: with unsaved changes it needs confirmation; then the ledger is cleared and the data loaded. */
    method ReloadRemoteData(confirmed: bool, fetched: Option<OMap<string, Item>>)
      requires Valid() && (fetched.Some? ==> fetched.value.Valid())
      modifies this
      ensures Valid()
      ensures old(changedItems).keys != [] && !confirmed ==>
                data == old(data) && changedItems == old(changedItems) && filteredData == old(filteredData)
      ensures old(changedItems).keys == [] || confirmed ==>
                changedItems == Empty() && data == (if fetched.Some? then Rows(fetched.value) else [])
      ensures selectedItems == old(selectedItems) && filters == old(filters) && sortColumn == old(sortColumn)
    {
      if |changedItems.keys| > 0 && !confirmed {
        return;
      }
      changedItems := Empty();
      LoadData(fetched);
    }

    /**
     * `loadData()`: the fetched document becomes the table, one row per entry
     * with its key as `id`, then the columns and the view are recomputed. A
     * failed load leaves an empty table. The ledger is not touched.
     */
    method LoadData(fetched: Option<OMap<string, Item>>)
      requires Valid() && (fetched.Some? ==> fetched.value.Valid())
      modifies this
      ensures Valid()
      ensures data == if fetched.Some? then Rows(fetched.value) else []
      ensures ColumnsOf(data, columns, visibleColumns, hiddenColumns)
      ensures fetched.Some? ==> filteredData == View(data, filters, sortColumn, sortDirection == "asc") && currentPage == 1
      ensures fetched.None? ==> filteredData == []
      ensures changedItems == old(changedItems) && selectedItems == old(selectedItems) && filters == old(filters)
      ensures sortColumn == old(sortColumn) && sortDirection == old(sortDirection) && itemsPerPage == old(itemsPerPage)
    {
      match fetched
      case Some(doc) =>
        data := Rows(doc);
        filteredData := [];
        ExtractColumns();
        ApplyFiltersAndSort();
      case None =>
        data := [];
        filteredData := [];
        ExtractColumns();
    }

    /** `extractColumns()` */
    method ExtractColumns()
      requires Valid()
      modifies this
      ensures Valid()
      ensures ColumnsOf(data, columns, visibleColumns, hiddenColumns)
      ensures data == old(data) && changedItems == old(changedItems) && selectedItems == old(selectedItems)
      ensures ViewState() == old(ViewState())
    {
      var sorted := CollectColumns(data);
      var visible := ChooseVisible(sorted);
      columns, visibleColumns, hiddenColumns := sorted, visible, HiddenColumns(sorted, visible);
    }
  }
}
