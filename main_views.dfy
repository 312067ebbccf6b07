/**
 * What the main editor shows and sends, computed from its state: the genre
 * and status filters, the modified-first order and the page of the item
 * list, the statistics, the defaults of the pull-request dialog, and how the
 * answer to a submission is reported.
 */
module MainViews {
  import opened Values
  import opened Collections
  import opened StableSort
  import opened Paging
  import opened ChangeStore

  // ---------------------------------------------------------------------
  // applyFilters

  /** `item.real_genre === genreFilter.value` */
  predicate HasGenre(item: Item, genre: string) {
    Get(item, "real_genre") == Str(genre)
  }

  /**
   * The status filter: `'processed'` keeps `processed === true`, `'pending'`
   * keeps `processed !== true`, `'modified'` keeps the items with a pending
   * entry; the empty choice and any other value keep everything.
   */
  predicate HasStatus(item: Item, id: string, status: string, pending: Pending) {
    if status == "processed" then Get(item, "processed") == Bool(true)
    else if status == "pending" then Get(item, "processed") != Bool(true)
    else if status == "modified" then id in pending.vals
    else true
  }

  /** An item passes both filters; an empty genre choice keeps every genre. */
  predicate Passes(item: Item, id: string, genre: string, status: string, pending: Pending) {
    (genre == "" || HasGenre(item, genre)) && HasStatus(item, id, status, pending)
  }

  /** The genre test on the items of `base`. */
  function GenreTest(base: Catalog, genre: string): string -> bool {
    id => id in base.vals && (genre == "" || HasGenre(base.vals[id], genre))
  }

  /** The status test on the items of `base`. */
  function StatusTest(base: Catalog, status: string, pending: Pending): string -> bool {
    id => id in base.vals && HasStatus(base.vals[id], id, status, pending)
  }

  /** Both tests on the items of `base`. */
  function PassTest(base: Catalog, genre: string, status: string, pending: Pending): string -> bool {
    id => id in base.vals && Passes(base.vals[id], id, genre, status, pending)
  }

  /** The genre step of `applyFilters`. */
  function ByGenre(base: Catalog, genre: string): (r: Catalog)
    requires base.Valid()
    ensures r.Valid()
  {
    if genre == "" then base else Select(base, GenreTest(base, genre))
  }

  /** The status step of `applyFilters`: the `switch` has no case for other values. */
  function ByStatus(base: Catalog, status: string, pending: Pending): (r: Catalog)
    requires base.Valid()
    ensures r.Valid()
  {
    if status == "processed" || status == "pending" || status == "modified" then
      Select(base, StatusTest(base, status, pending))
    else base
  }

  /** Both filters applied to `base`, genre first. */
  function FilterCatalog(base: Catalog, genre: string, status: string, pending: Pending): (r: Catalog)
    requires base.Valid()
    ensures r.Valid()
  {
    ByStatus(ByGenre(base, genre), status, pending)
  }

  lemma ByGenreMembers(base: Catalog, genre: string)
    requires base.Valid()
    ensures var r := ByGenre(base, genre);
      (forall id :: id in r.vals <==> GenreTest(base, genre)(id)) &&
      (forall id :: id in r.vals ==> r.vals[id] == base.vals[id])
  {
  }

  lemma ByStatusMembers(base: Catalog, status: string, pending: Pending)
    requires base.Valid()
    ensures var r := ByStatus(base, status, pending);
      (forall id :: id in r.vals <==> StatusTest(base, status, pending)(id)) &&
      (forall id :: id in r.vals ==> r.vals[id] == base.vals[id])
  {
  }

  /** The filtered catalog holds exactly the items of `base` that pass both filters, unchanged. */
  lemma FilterCatalogMembers(base: Catalog, genre: string, status: string, pending: Pending)
    requires base.Valid()
    ensures var r := FilterCatalog(base, genre, status, pending);
      (forall id :: id in r.vals <==> PassTest(base, genre, status, pending)(id)) &&
      (forall id :: id in r.vals ==> r.vals[id] == base.vals[id])
  {
    var g := ByGenre(base, genre);
    ByGenreMembers(base, genre);
    ByStatusMembers(g, status, pending);
  }

  /** The filtered catalog keeps the order of `base`. */
  lemma FilterCatalogOrder(base: Catalog, genre: string, status: string, pending: Pending)
    requires base.Valid()
    ensures FilterCatalog(base, genre, status, pending).keys == Filter(base.keys, PassTest(base, genre, status, pending))
  {
    var g := ByGenre(base, genre);
    assert g.keys == Filter(base.keys, GenreTest(base, genre)) by {
      if genre == "" {
        FilterAll(base.keys, GenreTest(base, genre));
      }
    }
    assert FilterCatalog(base, genre, status, pending).keys == Filter(g.keys, StatusTest(g, status, pending)) by {
      if !(status == "processed" || status == "pending" || status == "modified") {
        FilterAll(g.keys, StatusTest(g, status, pending));
      }
    }
    FilterFilter(base.keys, GenreTest(base, genre), StatusTest(g, status, pending), PassTest(base, genre, status, pending));
  }

  /**
   * `applyFilters` as written: when the search box holds a query it filters
   * `filteredData`, which an earlier `applyFilters` has already narrowed.
   */
  function ApplyFiltersAsWritten(allData: Catalog, filteredData: Catalog, query: string,
                                 genre: string, status: string, pending: Pending): (r: Catalog)
    requires allData.Valid() && filteredData.Valid()
    ensures r.Valid()
  {
    FilterCatalog(if Trim(query) != "" then filteredData else allData, genre, status, pending)
  }

  /**
   * With a search active, choosing genre A and then a different genre B
   * leaves nothing to show, whatever the search found: the second choice
   * filters what the first one left.
   */
  lemma FiltersCompoundAsWritten(allData: Catalog, filteredData: Catalog, query: string,
                                 genreA: string, genreB: string, status: string, pending: Pending)
    requires allData.Valid() && filteredData.Valid()
    requires Trim(query) != "" && genreA != "" && genreB != "" && genreA != genreB
    ensures var first := ApplyFiltersAsWritten(allData, filteredData, query, genreA, status, pending);
      ApplyFiltersAsWritten(allData, first, query, genreB, status, pending).vals == map[]
  {
    var first := ApplyFiltersAsWritten(allData, filteredData, query, genreA, status, pending);
    var second := ApplyFiltersAsWritten(allData, first, query, genreB, status, pending);
    FilterCatalogMembers(filteredData, genreA, status, pending);
    FilterCatalogMembers(first, genreB, status, pending);
    forall id ensures id !in second.vals {
      if id in first.vals {
        assert HasGenre(first.vals[id], genreA);
      }
    }
    assert second.vals.Keys == {};
  }

  /**
   * `applyFilters` as intended: it filters the results of the last search,
   * or the whole catalog when no search is active, whatever an earlier
   * filter left behind.
   */
  function ApplyFilters(allData: Catalog, searchResults: Option<Catalog>,
                        genre: string, status: string, pending: Pending): (r: Catalog)
    requires allData.Valid()
    requires searchResults.Some? ==> searchResults.value.Valid()
    ensures r.Valid()
  {
    FilterCatalog(if searchResults.Some? then searchResults.value else allData, genre, status, pending)
  }

  /**
   * Every item of the search results (or of the catalog, with no search
   * active) that passes the filters is shown, and nothing else is; switching
   * from genre A to genre B shows the search results of genre B.
   */
  lemma FiltersSelectFromSearch(allData: Catalog, searchResults: Option<Catalog>,
                                genre: string, status: string, pending: Pending)
    requires allData.Valid()
    requires searchResults.Some? ==> searchResults.value.Valid()
    ensures var base := if searchResults.Some? then searchResults.value else allData;
      var r := ApplyFilters(allData, searchResults, genre, status, pending);
      (forall id :: id in r.vals <==> id in base.vals && Passes(base.vals[id], id, genre, status, pending)) &&
      (forall id :: id in r.vals ==> r.vals[id] == base.vals[id])
  {
    FilterCatalogMembers(if searchResults.Some? then searchResults.value else allData, genre, status, pending);
  }

  // ---------------------------------------------------------------------
  // renderItems

  /** `changedItems[id] !== undefined` */
  predicate IsModified(pending: Pending, id: string) {
    id in pending.vals
  }

  /** The comparator of `renderItems`: modified items before the others, ties keep their order. */
  function ModifiedFirst(pending: Pending): (cmp: (string, string) -> int) {
    (a, b) =>
      if IsModified(pending, a) && !IsModified(pending, b) then -1
      else if !IsModified(pending, a) && IsModified(pending, b) then 1
      else 0
  }

  /** The order of the item list: the ids of `view` sorted with `ModifiedFirst`. */
  function ListOrder(view: Catalog, pending: Pending): (ids: seq<string>)
    ensures multiset(ids) == multiset(view.keys)
  {
    SortByPermutes(view.keys, ModifiedFirst(pending));
    SortBy(view.keys, ModifiedFirst(pending))
  }

  /**
   * The list shows the modified items first and then the others, each group
   * in the order of the catalog.
   */
  lemma ListOrderModifiedFirst(view: Catalog, pending: Pending)
    ensures ListOrder(view, pending) ==
      Filter(view.keys, id => IsModified(pending, id)) + Filter(view.keys, id => !IsModified(pending, id))
  {
    SortPartition(view.keys, ModifiedFirst(pending), id => IsModified(pending, id), id => !IsModified(pending, id));
  }

  /** What `renderItems` shows: a "nothing found" line, or a page of ids with "Mostra from-to di total". */
  datatype Listing =
    | NothingFound
    | Page(total: nat, ids: seq<string>, from: int, to: int)

  function Min(a: int, b: int): int {
    if a <= b then a else b
  }

  /** `renderItems(view)` on page `page` of `perPage` items. */
  function RenderItems(view: Catalog, pending: Pending, page: nat, perPage: nat): (l: Listing)
    requires page >= 1 && perPage >= 1
  {
    if |view.keys| == 0 then NothingFound
    else
      var start := (page - 1) * perPage;
      Page(|view.keys|, PageOf(ListOrder(view, pending), page, perPage), start + 1, Min(start + perPage, |view.keys|))
  }

  /**
   * A non-empty view is listed page by page in the modified-first order,
   * every row an item of the view; on a page that exists the "from-to"
   * caption counts exactly the rows shown.
   */
  lemma RenderItemsPage(view: Catalog, pending: Pending, page: nat, perPage: nat)
    requires page >= 1 && perPage >= 1
    ensures var l := RenderItems(view, pending, page, perPage);
      (l.NothingFound? <==> view.keys == []) &&
      (l.Page? ==>
        l.total == |view.keys| && l.ids == PageOf(ListOrder(view, pending), page, perPage) &&
        (forall id :: id in l.ids ==> id in view.keys) &&
        (page <= TotalPages(|view.keys|, perPage) ==> l.ids != [] && l.to - l.from + 1 == |l.ids|))
  {
    if view.keys != [] {
      var order := ListOrder(view, pending);
      var ids := PageOf(order, page, perPage);
      PageOfIndex(order, page, perPage);
      forall id | id in ids ensures id in view.keys {
        var t :| 0 <= t < |ids| && ids[t] == id;
        assert id in multiset(order);
      }
      if page <= TotalPages(|view.keys|, perPage) {
        PageInRangeNonEmpty(order, page, perPage);
      }
    }
  }

  // ---------------------------------------------------------------------
  // updateStatistics

  datatype Stats = Stats(total: nat, processed: nat, pending: nat, modified: nat)

  /** `item.processed === true` */
  predicate IsProcessed(data: Catalog, id: string) {
    id in data.vals && Get(data.vals[id], "processed") == Bool(true)
  }

  /** The ids of the processed items. */
  function ProcessedIds(data: Catalog): seq<string> {
    Filter(data.keys, id => IsProcessed(data, id))
  }

  /** The ids of the items still to process. */
  function UnprocessedIds(data: Catalog): seq<string> {
    Filter(data.keys, id => !IsProcessed(data, id))
  }

  /**
   * The four counters: the items, the processed ones, `total - processed`,
   * and the items with pending changes.
   */
  function Statistics(data: Catalog, pending: Pending): (s: Stats)
    requires data.Valid() && pending.Valid()
    ensures s.total == |data.vals| && s.modified == |pending.vals|
    ensures s.processed == |ProcessedIds(data)|
    ensures s.pending == |UnprocessedIds(data)|
    ensures s.processed + s.pending == s.total
  {
    FilterSplit(data.keys, id => IsProcessed(data, id), id => !IsProcessed(data, id));
    KeysCount(data);
    KeysCount(pending);
    var processed := |ProcessedIds(data)|;
    Stats(|data.keys|, processed, |data.keys| - processed, |pending.keys|)
  }

  // ---------------------------------------------------------------------
  // openPrModal

  /** The defaults the pull-request dialog opens with. */
  datatype PrDefaults = PrDefaults(branchName: string, commitMessage: string, prTitle: string, prDescription: string)

  /** `changes.real_title || originalItem.real_title || originalItem.title || 'Senza titolo'` */
  function ChangeTitle(changes: OMap<string, Value>, original: Item): Value {
    Or(Or(Or(Get(changes.vals, "real_title"), Get(original, "real_title")), Get(original, "title")), Str("Senza titolo"))
  }

  /** The description line of one changed item: its title and the changed fields. */
  function ChangeLine(changes: OMap<string, Value>, original: Item): string {
    "- **" + ToStr(ChangeTitle(changes, original)) + "** (" + Join(changes.keys, ", ") + ")\n"
  }

  /** The ids the description lists among the first `n` pending ones: at most ten, each present in the catalog. */
  function ListedIds(data: Catalog, pending: Pending, n: nat): (ids: seq<string>)
    requires n <= |pending.keys|
    ensures |ids| <= 10 && forall id :: id in ids ==> id in data.vals && id in pending.keys
  {
    if n == 0 then []
    else
      var listed := ListedIds(data, pending, n - 1);
      var id := pending.keys[n - 1];
      if |listed| >= 10 || id !in data.vals then listed else listed + [id]
  }

  /**
   * When every changed item is in the catalog the description lists the
   * first ten of them (or all, if fewer), in the order they were changed.
   */
  lemma {:induction false} ListedIdsFirstTen(data: Catalog, pending: Pending, n: nat)
    requires n <= |pending.keys|
    requires forall j :: 0 <= j < n ==> pending.keys[j] in data.vals
    ensures ListedIds(data, pending, n) == pending.keys[..Min(n, 10)]
  {
    if n > 0 {
      ListedIdsFirstTen(data, pending, n - 1);
      if n <= 10 {
        assert pending.keys[..n] == pending.keys[..n - 1] + [pending.keys[n - 1]];
      }
    }
  }

  /** The lines of the listed items, in order. */
  function Lines(data: Catalog, pending: Pending, ids: seq<string>): string
    requires PendingValid(pending)
    requires forall id :: id in ids ==> id in data.vals && id in pending.keys
  {
    if ids == [] then ""
    else
      var id := ids[|ids| - 1];
      Lines(data, pending, ids[..|ids| - 1]) + ChangeLine(pending.vals[id], data.vals[id])
  }

  /** The count line after the list, when more than ten items changed. */
  function More(n: nat): string {
    if n > 10 then "\n... e altri " + NatToString(n - 10) + " elementi\n" else ""
  }

  /** The whole pull-request description for the pending changes. */
  function Description(data: Catalog, pending: Pending): string
    requires PendingValid(pending)
  {
    var n := |pending.keys|;
    "Questa PR aggiorna i dati degli audiolibri con le seguenti modifiche:\n\n" +
    Lines(data, pending, ListedIds(data, pending, n)) + More(n) +
    "\n**Totale:** " + NatToString(n) + " elementi modificati"
  }

  /** The `forEach` loop that lists the changed items. */
  method DescribeChanges(data: Catalog, pending: Pending) returns (text: string)
    requires PendingValid(pending)
    ensures text == Lines(data, pending, ListedIds(data, pending, |pending.keys|))
  {
    text := "";
    var itemCount := 0;
    var i := 0;
    ghost var listed: seq<string> := [];
    while i < |pending.keys|
      invariant 0 <= i <= |pending.keys|
      invariant listed == ListedIds(data, pending, i) && itemCount == |listed|
      invariant text == Lines(data, pending, listed)
    {
      var id := pending.keys[i];
      if itemCount < 10 && id in data.vals {
        assert (listed + [id])[..|listed|] == listed;
        text := text + ChangeLine(pending.vals[id], data.vals[id]);
        itemCount := itemCount + 1;
        listed := listed + [id];
      }
      i := i + 1;
    }
  }

  /**
   * `openPrModal`: nothing when there is nothing to save; otherwise the
   * branch `update-audiolibri-<now>`, the commit message and title naming
   * the number of changed items, and the description.
   */
  method OpenPrDefaults(data: Catalog, pending: Pending, now: int) returns (d: Option<PrDefaults>)
    requires PendingValid(pending)
    ensures pending.keys == [] <==> d.None?
    ensures d.Some? ==> d.value == PrDefaults(
      "update-audiolibri-" + IntToString(now),
      "Aggiorna " + NatToString(|pending.keys|) + " elementi audiolibri",
      "Aggiornamento dati audiolibri (" + NatToString(|pending.keys|) + " elementi)",
      Description(data, pending))
  {
    if |pending.keys| == 0 {
      return None;
    }
    var n := |pending.keys|;
    var lines := DescribeChanges(data, pending);
    var text := "Questa PR aggiorna i dati degli audiolibri con le seguenti modifiche:\n\n" + lines;
    if n > 10 {
      text := text + ("\n... e altri " + NatToString(n - 10) + " elementi\n");
    } else {
      assert text + More(n) == text;
    }
    text := text + "\n**Totale:** " + NatToString(n) + " elementi modificati";
    d := Some(PrDefaults("update-audiolibri-" + IntToString(now),
                         "Aggiorna " + NatToString(n) + " elementi audiolibri",
                         "Aggiornamento dati audiolibri (" + NatToString(n) + " elementi)",
                         text));
  }

  // ---------------------------------------------------------------------
  // submitChanges

  /** The JSON body `submitChanges` posts to `/api/submit`. */
  datatype SubmitRequest = SubmitRequest(
    changes: Pending,
    branchName: string,
    commitMessage: string,
    prTitle: string,
    prDescription: string)

  /**
   * How the `fetch` chain ends: an error thrown on the way (no connection, a
   * body that is not JSON) with its message, a status outside 200-299, or
   * the JSON body of the answer.
   */
  datatype Reply =
    | Thrown(message: string)
    | NotOk(status: int)
    | Answer(success: Value, prUrl: Value, error: Value)

  datatype Outcome<T> = Success(value: T) | Failure(message: string)

  /**
   * The checks made before anything is sent, in order: the three fields
   * must not be blank once trimmed, and there must be something to save.
   */
  function SubmitGuard(branchName: string, commitMessage: string, prTitle: string, pending: Pending): (m: Option<string>)
  {
    if Trim(branchName) == "" then Some("Nome branch richiesto")
    else if Trim(commitMessage) == "" then Some("Messaggio commit richiesto")
    else if Trim(prTitle) == "" then Some("Titolo PR richiesto")
    else if pending.keys == [] then Some("Nessuna modifica da salvare")
    else None
  }

  /** The text holds a character other than white space. */
  predicate HasVisible(s: string) {
    exists i :: 0 <= i < |s| && !IsSpace(s[i])
  }

  /** The request sent once the checks pass: every text field trimmed. */
  function RequestFor(pending: Pending, branchName: string, commitMessage: string, prTitle: string, prDescription: string): SubmitRequest {
    SubmitRequest(pending, Trim(branchName), Trim(commitMessage), Trim(prTitle), Trim(prDescription))
  }

  /**
   * A request is sent exactly when the three fields hold more than blanks and
   * something changed; it then carries every pending change and three
   * non-blank fields with nothing left to trim.
   */
  lemma SentRequestIsComplete(pending: Pending, branchName: string, commitMessage: string, prTitle: string, prDescription: string)
    ensures SubmitGuard(branchName, commitMessage, prTitle, pending).None? <==>
      HasVisible(branchName) && HasVisible(commitMessage) && HasVisible(prTitle) && pending.keys != []
    ensures var r := RequestFor(pending, branchName, commitMessage, prTitle, prDescription);
      SubmitGuard(branchName, commitMessage, prTitle, pending).None? ==>
        r.changes == pending && r.branchName != "" && r.commitMessage != "" && r.prTitle != "" &&
        Trim(r.branchName) == r.branchName && Trim(r.commitMessage) == r.commitMessage && Trim(r.prTitle) == r.prTitle
  {
    BlankIffAllSpace(branchName);
    BlankIffAllSpace(commitMessage);
    BlankIffAllSpace(prTitle);
    TrimIdempotent(branchName);
    TrimIdempotent(commitMessage);
    TrimIdempotent(prTitle);
  }

  /** The toast for a failed submission: a fixed hint for a connection, server, authentication or permission error, else the error's own message. */
  function SubmitErrorMessage(m: string): string {
    "Errore durante l'invio delle modifiche: " +
    (if Contains(m, "Failed to fetch") then "Problema di connessione. Verifica la tua connessione internet."
     else if Contains(m, "500") then "Errore del server. Riprova più tardi."
     else if Contains(m, "401") then "Errore di autenticazione. Verifica le credenziali GitHub."
     else if Contains(m, "403") then "Accesso negato. Verifica i permessi del repository."
     else m)
  }

  /** The message of the error a reply ends in, when it is not a success. */
  function ThrownBy(reply: Reply): string {
    match reply
    case Thrown(m) => m
    case NotOk(status) => "HTTP error! status: " + IntToString(status)
    case Answer(_, _, error) => ToStr(Or(error, Str("Errore sconosciuto durante il salvataggio")))
  }

  /** The end of a submission: the pull request's address, or the toast's text. */
  function SubmitOutcome(reply: Reply): (o: Outcome<Value>)
  {
    if reply.Answer? && Truthy(reply.success) then Success(reply.prUrl)
    else Failure(SubmitErrorMessage(ThrownBy(reply)))
  }

  /** Only an answer whose `success` is truthy counts as a success, and it hands over the pull request's address. */
  lemma SubmitOutcomeSpec(reply: Reply)
    ensures SubmitOutcome(reply).Success? <==> reply.Answer? && Truthy(reply.success)
    ensures SubmitOutcome(reply).Success? ==> SubmitOutcome(reply).value == reply.prUrl
    ensures SubmitOutcome(reply).Failure? ==>
      StartsWith(SubmitOutcome(reply).message, "Errore durante l'invio delle modifiche: ")
  {
  }

  /** A text in which the first character of `t` never occurs does not contain `t`. */
  lemma NotContained(s: string, t: string)
    requires t != [] && forall i :: 0 <= i < |s| ==> s[i] != t[0]
    ensures !Contains(s, t)
  {
    forall i | 0 <= i <= |s| - |t|
      ensures !OccursAt(s, t, i)
    {
      assert s[i] != t[0];
    }
  }

  /**
   * Behind a digit-free prefix, a run of digits as long as the rest of the
   * text occurs exactly when it is that rest.
   */
  lemma {:induction false} DigitsBehind(p: string, d: string, t: string)
    requires |d| == |t| && t != []
    requires forall i :: 0 <= i < |t| ==> IsDigit(t[i])
    requires forall i :: 0 <= i < |p| ==> !IsDigit(p[i])
    ensures Contains(p + d, t) <==> d == t
  {
    var s := p + d;
    if d == t {
      assert s[|p|..|p| + |t|] == t;
      assert OccursAt(s, t, |p|);
    }
    forall i | 0 <= i < |p|
      ensures !OccursAt(s, t, i)
    {
      assert s[i] == p[i];
    }
    if Contains(s, t) {
      var i :| 0 <= i <= |s| - |t| && OccursAt(s, t, i);
      assert s[i..i + |t|] == d;
    }
  }

  lemma {:induction false} ThreeDigits(status: nat)
    requires 100 <= status < 1000
    ensures IntToString(status) == [DigitChar(status / 100), DigitChar(status / 10 % 10), DigitChar(status % 10)]
    ensures |IntToString(status)| == 3
    ensures forall i :: 0 <= i < 3 ==> IsDigit(IntToString(status)[i])
  {
    assert status / 10 / 10 == status / 100;
    assert NatToString(status / 100) == [DigitChar(status / 100)];
    assert NatToString(status / 10) == [DigitChar(status / 100), DigitChar(status / 10 % 10)];
  }

  /** The toast's text for a refusal message made of the prefix and three digits. */
  lemma {:induction false} HintForDigits(d: string)
    requires |d| == 3 && forall i :: 0 <= i < 3 ==> IsDigit(d[i])
    ensures SubmitErrorMessage("HTTP error! status: " + d) == "Errore durante l'invio delle modifiche: " +
      (if d == "500" then "Errore del server. Riprova più tardi."
       else if d == "401" then "Errore di autenticazione. Verifica le credenziali GitHub."
       else if d == "403" then "Accesso negato. Verifica i permessi del repository."
       else "HTTP error! status: " + d)
  {
    var p := "HTTP error! status: ";
    assert forall i :: 0 <= i < |p| ==> !IsDigit(p[i]);
    NotContained(p + d, "Failed to fetch");
    DigitsBehind(p, d, "500");
    DigitsBehind(p, d, "401");
    DigitsBehind(p, d, "403");
  }

  /**
   * A refused request carries its three-digit status, and the toast names the
   * server, authentication and permission errors for 500, 401 and 403 and
   * otherwise repeats the message.
   */
  lemma {:induction false} StatusHints(status: nat)
    requires 100 <= status < 1000
    ensures SubmitOutcome(NotOk(status)) == Failure("Errore durante l'invio delle modifiche: " +
      (if status == 500 then "Errore del server. Riprova più tardi."
       else if status == 401 then "Errore di autenticazione. Verifica le credenziali GitHub."
       else if status == 403 then "Accesso negato. Verifica i permessi del repository."
       else "HTTP error! status: " + IntToString(status)))
  {
    var d := IntToString(status);
    ThreeDigits(status);
    HintForDigits(d);
    assert SubmitOutcome(NotOk(status)) == Failure(SubmitErrorMessage("HTTP error! status: " + d));
    StatusLiterals();
    DigitsDetermine(status, 500);
    DigitsDetermine(status, 401);
    DigitsDetermine(status, 403);
    assert d == "500" <==> status == 500;
    assert d == "401" <==> status == 401;
    assert d == "403" <==> status == 403;
  }

  lemma StatusLiterals()
    ensures IntToString(500) == "500" && IntToString(401) == "401" && IntToString(403) == "403"
  {
    ThreeDigits(500);
    ThreeDigits(401);
    ThreeDigits(403);
    assert DigitChar(5) == '5' && DigitChar(4) == '4' && DigitChar(0) == '0';
    assert DigitChar(1) == '1' && DigitChar(3) == '3';
  }

  lemma DigitsDetermine(a: nat, b: nat)
    requires 100 <= a < 1000 && 100 <= b < 1000
    ensures IntToString(a) == IntToString(b) <==> a == b
  {
    ThreeDigits(a);
    ThreeDigits(b);
    if IntToString(a) == IntToString(b) {
      assert a / 100 == b / 100 && a / 10 % 10 == b / 10 % 10 && a % 10 == b % 10;
    }
  }
}
