/**
 * The edit-log page (public/edit-log.js): the pending changes and the change
 * history loaded from the browser's storage, the statistics panel, the list
 * of changes grouped by item with its search, type filter and time sort, and
 * the three ways of undoing changes (one history record, one item, all).
 */
module EditLog {
  import opened Values
  import opened Collections
  import opened StableSort
  import opened ChangeStore

  // ---------------------------------------------------------------------
  // Statistics

  /** The number of changed fields in the first `n` items of `changedItems`. */
  function FieldCount(p: Pending, n: nat): (c: nat)
    requires PendingValid(p) && n <= |p.keys|
    decreases n
  {
    if n == 0 then 0 else FieldCount(p, n - 1) + |p.vals[p.keys[n - 1]].keys|
  }

  /** The statistics panel. `lastModified` is the timestamp of the last history record, if any. */
  datatype Stats = Stats(itemCount: nat, totalChanges: nat, lastModified: Option<int>, saveEnabled: bool)

  /** `updateStatistics()` */
  function Statistics(p: Pending, history: seq<HistoryRecord>): (s: Stats)
    requires PendingValid(p)
    ensures s.itemCount == |p.vals|
    ensures s.saveEnabled <==> s.totalChanges > 0
    ensures s.lastModified.None? <==> history == []
    ensures history != [] ==> s.lastModified == Some(history[|history| - 1].timestamp)
  {
    DistinctCard(p.keys);
    assert p.vals.Keys == set k | k in p.keys;
    Stats(|p.keys|, FieldCount(p, |p.keys|),
          if history == [] then None else Some(history[|history| - 1].timestamp),
          FieldCount(p, |p.keys|) > 0)
  }

  /** Every changed item has at least one changed field. */
  ghost predicate NoEmptyEntries(p: Pending) {
    forall id :: id in p.vals ==> p.vals[id].keys != []
  }

  lemma {:induction false} FieldCountZero(p: Pending, n: nat)
    requires PendingValid(p) && n <= |p.keys|
    ensures FieldCount(p, n) == 0 <==> forall i :: 0 <= i < n ==> p.vals[p.keys[i]].keys == []
    decreases n
  {
    if n > 0 {
      FieldCountZero(p, n - 1);
    }
  }

  lemma {:induction false} FieldCountAtLeast(p: Pending, n: nat)
    requires PendingValid(p) && n <= |p.keys| && NoEmptyEntries(p)
    ensures FieldCount(p, n) >= n
    decreases n
  {
    if n > 0 {
      FieldCountAtLeast(p, n - 1);
      assert p.keys[n - 1] in p.vals;
    }
  }

  /**
   * Saving is offered exactly when some item has a changed field; when no
   * item is left without fields, the changes are at least as many as the
   * items and saving is offered exactly when some item is changed.
   */
  lemma StatisticsCounts(p: Pending, history: seq<HistoryRecord>)
    requires PendingValid(p)
    ensures Statistics(p, history).saveEnabled <==> exists id :: id in p.vals && p.vals[id].keys != []
    ensures NoEmptyEntries(p) ==>
      Statistics(p, history).totalChanges >= Statistics(p, history).itemCount &&
      (Statistics(p, history).saveEnabled <==> p.vals != map[])
  {
    FieldCountZero(p, |p.keys|);
    if exists id :: id in p.vals && p.vals[id].keys != [] {
      var id :| id in p.vals && p.vals[id].keys != [];
      var i :| 0 <= i < |p.keys| && p.keys[i] == id;
    }
    if NoEmptyEntries(p) {
      FieldCountAtLeast(p, |p.keys|);
      if p.vals != map[] {
        var id :| id in p.vals;
        assert p.vals[id].keys != [];
      }
    }
  }

  // ---------------------------------------------------------------------
  // Grouping

  /** `groupedChanges[itemId]`: the title shown for the item and its history records. */
  datatype Group = Group(itemTitle: Value, changes: seq<HistoryRecord>)

  /** One element of `Object.entries(groupedChanges)`. */
  datatype Entry = Entry(itemId: string, data: Group)

  function ForItem(itemId: string): HistoryRecord -> bool {
    (c: HistoryRecord) => c.itemId == itemId
  }

  function NotForItem(itemId: string): HistoryRecord -> bool {
    (c: HistoryRecord) => c.itemId != itemId
  }

  /**
   * `groupedChanges` after the first `n` history records: a record opens a
   * group for its item the first time the item is seen, with the record's
   * title or `Elemento <id>`, and is appended to that group.
   */
  function GroupedUpTo(history: seq<HistoryRecord>, n: nat): (g: OMap<string, Group>)
    requires n <= |history|
    ensures g.Valid()
    decreases n
  {
    if n == 0 then Empty() else WithRecord(GroupedUpTo(history, n - 1), history[n - 1])
  }

  /** `groupedChanges` after one more record. */
  function WithRecord(g: OMap<string, Group>, c: HistoryRecord): (r: OMap<string, Group>)
    requires g.Valid()
    ensures r.Valid()
  {
    if c.itemId in g.vals then
      Put(g, c.itemId, g.vals[c.itemId].(changes := g.vals[c.itemId].changes + [c]))
    else
      Put(g, c.itemId, Group(Or(c.itemTitle, Str("Elemento " + c.itemId)), [c]))
  }

  /** What grouping promises about one item, after the first `n` records. */
  ghost predicate GroupOf(history: seq<HistoryRecord>, n: nat, itemId: string)
    requires n <= |history|
  {
    var g := GroupedUpTo(history, n);
    var mine := Filter(history[..n], ForItem(itemId));
    (itemId in g.vals <==> mine != []) &&
    (itemId in g.vals ==>
      g.vals[itemId].changes == mine &&
      g.vals[itemId].itemTitle == Or(mine[0].itemTitle, Str("Elemento " + itemId)))
  }

  lemma {:induction false} GroupOfHolds(history: seq<HistoryRecord>, n: nat, itemId: string)
    requires n <= |history|
    ensures GroupOf(history, n, itemId)
    decreases n
  {
    if n > 0 {
      GroupOfHolds(history, n - 1, itemId);
      assert history[..n][..n - 1] == history[..n - 1];
    }
  }

  /**
   * Grouping puts every history record in exactly one group: the group of
   * its item holds that item's records and no other, in history order, and
   * is titled after the item's first record.
   */
  lemma GroupingPartitions(history: seq<HistoryRecord>, itemId: string)
    ensures var g := GroupedUpTo(history, |history|);
      var mine := Filter(history, ForItem(itemId));
      (itemId in g.vals <==> exists i :: 0 <= i < |history| && history[i].itemId == itemId) &&
      (itemId in g.vals ==>
        g.vals[itemId].changes == mine && mine != [] &&
        g.vals[itemId].itemTitle == Or(mine[0].itemTitle, Str("Elemento " + itemId)))
  {
    GroupOfHolds(history, |history|, itemId);
    assert history[..|history|] == history;
    var mine := Filter(history, ForItem(itemId));
    if exists i :: 0 <= i < |history| && history[i].itemId == itemId {
      var i :| 0 <= i < |history| && history[i].itemId == itemId;
      assert history[i] in mine;
    }
    if mine != [] {
      assert mine[0] in mine;
    }
  }

  /** The `forEach` over `changeHistory` that builds `groupedChanges`. */
  method GroupChanges(history: seq<HistoryRecord>) returns (groups: OMap<string, Group>)
    ensures groups == GroupedUpTo(history, |history|)
  {
    groups := Empty();
    var i := 0;
    while i < |history|
      invariant 0 <= i <= |history|
      invariant groups == GroupedUpTo(history, i)
    {
      GroupedStep(history, i);
      groups := AddChange(groups, history[i]);
      i := i + 1;
    }
  }

  lemma GroupedStep(history: seq<HistoryRecord>, i: nat)
    requires i < |history|
    ensures GroupedUpTo(history, i + 1) == WithRecord(GroupedUpTo(history, i), history[i])
  {
  }

  /** The body of the grouping loop: open the item's group if needed, then push the record. */
  method AddChange(groups: OMap<string, Group>, change: HistoryRecord) returns (r: OMap<string, Group>)
    requires groups.Valid()
    ensures r == WithRecord(groups, change)
  {
    if change.itemId !in groups.vals {
      r := Put(groups, change.itemId, Group(Or(change.itemTitle, Str("Elemento " + change.itemId)), [change]));
    } else {
      var group := groups.vals[change.itemId];
      r := Put(groups, change.itemId, group.(changes := group.changes + [change]));
    }
  }

  /** `Object.entries(groupedChanges)` */
  function Entries(g: OMap<string, Group>): (es: seq<Entry>)
    requires g.Valid()
    ensures |es| == |g.keys|
    ensures forall i :: 0 <= i < |es| ==> es[i].itemId == g.keys[i] && es[i].data == g.vals[g.keys[i]]
  {
    seq(|g.keys|, i requires 0 <= i < |g.keys| => Entry(g.keys[i], g.vals[g.keys[i]]))
  }

  // ---------------------------------------------------------------------
  // Search and type filter

  /** `getFieldDisplayName(field)`: the Italian label of the eight known fields, the field name otherwise. */
  function DisplayName(field: string): (name: string)
    ensures field == "real_title" ==> name == "Titolo"
    ensures field == "" ==> name == ""
  {
    if field == "real_title" then "Titolo"
    else if field == "real_author" then "Autore"
    else if field == "real_genre" then "Genere"
    else if field == "real_language" then "Lingua"
    else if field == "real_synopsis" then "Sinossi"
    else if field == "real_narrator" then "Narratore"
    else if field == "real_published_year" then "Anno Pubblicazione"
    else if field == "content_type" then "Tipo Contenuto"
    else field
  }

  /** The text searched for a value: `String(v).toLowerCase()`. */
  function SearchText(v: Value): string {
    Lower(ToStr(v))
  }

  /** One history record matches the (lower-cased) search term by its field label, old value or new value. */
  predicate ChangeMatches(c: HistoryRecord, term: string) {
    Contains(Lower(DisplayName(c.field)), term) ||
    (Truthy(c.oldValue) && Contains(SearchText(c.oldValue), term)) ||
    (Truthy(c.newValue) && Contains(SearchText(c.newValue), term))
  }

  /** `matchesSearch`, with every title and value searched through its text. */
  predicate MatchesSearch(g: Group, term: string) {
    term == "" ||
    Contains(SearchText(g.itemTitle), term) ||
    exists i :: 0 <= i < |g.changes| && ChangeMatches(g.changes[i], term)
  }

  /** The type filter's test on one changed field; an unknown filter value accepts everything. */
  predicate TypeMatches(field: string, typeFilter: string) {
    if typeFilter == "title" then field == "real_title"
    else if typeFilter == "author" then field == "real_author"
    else if typeFilter == "genre" then field == "real_genre"
    else if typeFilter == "language" then field == "real_language"
    else if typeFilter == "synopsis" then field == "real_synopsis"
    else if typeFilter == "other" then
      field != "real_title" && field != "real_author" && field != "real_genre" &&
      field != "real_language" && field != "real_synopsis"
    else true
  }

  /** `matchesType`: some record of the group changed a field of the chosen type. */
  predicate MatchesType(g: Group, typeFilter: string) {
    typeFilter == "" || exists i :: 0 <= i < |g.changes| && TypeMatches(g.changes[i].field, typeFilter)
  }

  function Keeps(term: string, typeFilter: string): Entry -> bool {
    (e: Entry) => MatchesSearch(e.data, term) && MatchesType(e.data, typeFilter)
  }

  /**
   * `applyFilters()` over the entries, with `term` already lower-cased: the
   * groups that match both the search and the type filter, in their order.
   */
  function FilterEntries(es: seq<Entry>, term: string, typeFilter: string): (r: seq<Entry>)
    ensures forall e :: e in r <==> e in es && MatchesSearch(e.data, term) && MatchesType(e.data, typeFilter)
    ensures |r| <= |es|
  {
    if term == "" && typeFilter == "" then es else Filter(es, Keeps(term, typeFilter))
  }

  /** The type filter "other" and the five named types split the changed fields between them. */
  lemma TypeFilterPartition(field: string)
    ensures TypeMatches(field, "other") <==>
      !(TypeMatches(field, "title") || TypeMatches(field, "author") || TypeMatches(field, "genre") ||
        TypeMatches(field, "language") || TypeMatches(field, "synopsis"))
  {
  }

  // ---------------------------------------------------------------------
  // The search as written

  /**
   * `matchesSearch` as written: `toLowerCase()` is called on the title and on
   * every truthy old and new value it reaches, which throws a `TypeError`
   * (`None`) on a number, a boolean or an array. The scan stops at the first
   * match, as `||` and `some` do.
   */
  function SearchAsWritten(g: Group, term: string): (r: Option<bool>)
  {
    if term == "" then Some(true)
    else if !g.itemTitle.Str? then None
    else if Contains(Lower(g.itemTitle.s), term) then Some(true)
    else ChangesAsWritten(g.changes, 0, term)
  }

  function ChangesAsWritten(cs: seq<HistoryRecord>, i: nat, term: string): (r: Option<bool>)
    requires i <= |cs|
    decreases |cs| - i
  {
    if i == |cs| then Some(false)
    else
      var c := cs[i];
      if Contains(Lower(DisplayName(c.field)), term) then Some(true)
      else if Truthy(c.oldValue) && !c.oldValue.Str? then None
      else if Truthy(c.oldValue) && Contains(Lower(c.oldValue.s), term) then Some(true)
      else if Truthy(c.newValue) && !c.newValue.Str? then None
      else if Truthy(c.newValue) && Contains(Lower(c.newValue.s), term) then Some(true)
      else ChangesAsWritten(cs, i + 1, term)
  }

  /** Titles and values are strings or falsy: the only records the search as written can read. */
  predicate Textual(v: Value) {
    v.Str? || !Truthy(v)
  }

  ghost predicate AnyMatchFrom(cs: seq<HistoryRecord>, i: nat, term: string) {
    exists k :: i <= k < |cs| && ChangeMatches(cs[k], term)
  }

  lemma AnyMatchStep(cs: seq<HistoryRecord>, i: nat, term: string)
    requires i < |cs|
    ensures AnyMatchFrom(cs, i, term) <==> ChangeMatches(cs[i], term) || AnyMatchFrom(cs, i + 1, term)
  {
    if AnyMatchFrom(cs, i, term) && !ChangeMatches(cs[i], term) {
      var k :| i <= k < |cs| && ChangeMatches(cs[k], term);
      assert k != i;
    }
  }

  lemma {:induction false} ChangesAsWrittenAgree(cs: seq<HistoryRecord>, i: nat, term: string)
    requires i <= |cs|
    requires forall k :: 0 <= k < |cs| ==> Textual(cs[k].oldValue) && Textual(cs[k].newValue)
    ensures ChangesAsWritten(cs, i, term) == Some(AnyMatchFrom(cs, i, term))
    decreases |cs| - i
  {
    if i < |cs| {
      ChangesAsWrittenAgree(cs, i + 1, term);
      AnyMatchStep(cs, i, term);
      assert Textual(cs[i].oldValue) && Textual(cs[i].newValue);
    }
  }

  /** A match the record scan as written reports is a record that matches the term. */
  lemma {:induction false} ChangesAsWrittenSound(cs: seq<HistoryRecord>, i: nat, term: string)
    requires i <= |cs|
    ensures ChangesAsWritten(cs, i, term) == Some(true) ==> AnyMatchFrom(cs, i, term)
    decreases |cs| - i
  {
    if i < |cs| {
      ChangesAsWrittenSound(cs, i + 1, term);
      AnyMatchStep(cs, i, term);
    }
  }

  /** Whatever the values, a match the search as written reports is a match of the corrected search. */
  lemma SearchAsWrittenSound(g: Group, term: string)
    ensures SearchAsWritten(g, term) == Some(true) ==> MatchesSearch(g, term)
  {
    ChangesAsWrittenSound(g.changes, 0, term);
  }

  /** Where every title and value is text, the search as written and the corrected one agree. */
  lemma SearchAsWrittenAgrees(g: Group, term: string)
    requires g.itemTitle.Str?
    requires forall k :: 0 <= k < |g.changes| ==> Textual(g.changes[k].oldValue) && Textual(g.changes[k].newValue)
    ensures SearchAsWritten(g, term) == Some(MatchesSearch(g, term))
  {
    ChangesAsWrittenAgree(g.changes, 0, term);
  }

  /**
   * A bulk edit that marks an item processed logs the boolean `true` as the
   * new value; searching the log for a word that neither the title nor the
   * field label contains then throws.
   */
  lemma BulkProcessedSearchThrows()
    ensures SearchAsWritten(
      Group(Str("Libro"), [HistoryRecord("a_processed_1_bulk", "a", Str("Libro"), "processed", Str(""), Bool(true), 1)]),
      "zz") == None
  {
    TitleMisses();
    LabelMisses();
  }

  lemma TitleMisses()
    ensures !Contains(Lower("Libro"), "zz")
  {
    assert 'z' !in "Libro" && 'Z' !in "Libro";
    NotInLower("Libro", 'z');
    NotContainedIn(Lower("Libro"), "zz", 'z');
  }

  lemma LabelMisses()
    ensures !Contains(Lower(DisplayName("processed")), "zz")
  {
    assert DisplayName("processed") == "processed";
    assert 'z' !in "processed" && 'Z' !in "processed";
    NotInLower("processed", 'z');
    NotContainedIn(Lower("processed"), "zz", 'z');
  }

  lemma NotContainedIn(s: string, t: string, x: char)
    requires x in t && x !in s
    ensures !Contains(s, t)
  {
  }

  lemma NotInLower(s: string, lo: char)
    requires 'a' <= lo <= 'z' && lo !in s && (lo as int - 32) as char !in s
    ensures lo !in Lower(s)
  {
    forall i | 0 <= i < |s| ensures Lower(s)[i] != lo {
      assert s[i] != lo && s[i] != (lo as int - 32) as char;
    }
  }

  // ---------------------------------------------------------------------
  // Sorting

  /** The latest timestamp of a group's records, `Math.max(...timestamps)`; a group is never empty. */
  function Latest(cs: seq<HistoryRecord>): (t: int)
    ensures cs != [] ==> exists i :: 0 <= i < |cs| && cs[i].timestamp == t
    ensures forall i :: 0 <= i < |cs| ==> cs[i].timestamp <= t
    decreases |cs|
  {
    if cs == [] then 0
    else if |cs| == 1 then cs[0].timestamp
    else
      var m := Latest(cs[..|cs| - 1]);
      assert forall i :: 0 <= i < |cs| - 1 ==> cs[..|cs| - 1][i] == cs[i];
      if cs[|cs| - 1].timestamp > m then cs[|cs| - 1].timestamp else m
  }

  function LatestOf(e: Entry): int {
    Latest(e.data.changes)
  }

  function NegLatestOf(e: Entry): int {
    -Latest(e.data.changes)
  }

  /**
   * The comparator of `applySorting()`: newest first by default and for
   * "newest", oldest first for "oldest", by title for "item" (`collate`
   * stands for the locale comparison of the two titles).
   */
  function Comparator(sortType: string, collate: (string, string) -> int): (Entry, Entry) -> int {
    (a: Entry, b: Entry) =>
      if sortType == "oldest" then LatestOf(a) - LatestOf(b)
      else if sortType == "item" then collate(ToStr(a.data.itemTitle), ToStr(b.data.itemTitle))
      else LatestOf(b) - LatestOf(a)
  }

  function SortEntries(es: seq<Entry>, sortType: string, collate: (string, string) -> int): (r: seq<Entry>)
    ensures |r| == |es|
  {
    SortBy(es, Comparator(sortType, collate))
  }

  /**
   * Sorting keeps every group once, and orders them by their latest record:
   * descending unless the order is "oldest" (ascending) or "item".
   */
  lemma SortEntriesOrder(es: seq<Entry>, sortType: string, collate: (string, string) -> int)
    ensures multiset(SortEntries(es, sortType, collate)) == multiset(es)
    ensures sortType == "oldest" ==> SortedByKey(SortEntries(es, sortType, collate), LatestOf)
    ensures sortType != "oldest" && sortType != "item" ==>
      SortedByKey(SortEntries(es, sortType, collate), NegLatestOf)
  {
    var cmp := Comparator(sortType, collate);
    SortByPermutes(es, cmp);
    if sortType == "oldest" {
      forall a, b ensures cmp(a, b) > 0 <==> LatestOf(a) > LatestOf(b) {
        assert cmp(a, b) == LatestOf(a) - LatestOf(b);
      }
      SortSortedByKey(es, cmp, LatestOf);
    } else if sortType != "item" {
      forall a, b ensures cmp(a, b) > 0 <==> NegLatestOf(a) > NegLatestOf(b) {
        assert cmp(a, b) == LatestOf(b) - LatestOf(a);
      }
      SortSortedByKey(es, cmp, NegLatestOf);
    }
  }

  // ---------------------------------------------------------------------
  // The list

  /** The search box, the change-type select and the time-sort select. */
  datatype Controls = Controls(searchInput: string, typeFilter: string, sortType: string)

  /** `filteredChanges` after grouping, `applyFilters()` and `applySorting()`. */
  function Listed(history: seq<HistoryRecord>, c: Controls, collate: (string, string) -> int): (r: seq<Entry>)
  {
    SortEntries(FilterEntries(Entries(GroupedUpTo(history, |history|)), Lower(c.searchInput), c.typeFilter),
                c.sortType, collate)
  }

  /**
   * Every listed group is the group of a logged item, holding exactly that
   * item's records, and matches the search and the type filter.
   */
  lemma ListedGroups(history: seq<HistoryRecord>, c: Controls, collate: (string, string) -> int, e: Entry)
    requires e in Listed(history, c, collate)
    ensures e.data.changes == Filter(history, ForItem(e.itemId)) && e.data.changes != []
    ensures MatchesSearch(e.data, Lower(c.searchInput)) && MatchesType(e.data, c.typeFilter)
  {
    var g := GroupedUpTo(history, |history|);
    var es := Entries(g);
    var kept := FilterEntries(es, Lower(c.searchInput), c.typeFilter);
    SortEntriesOrder(kept, c.sortType, collate);
    assert e in multiset(kept);
    var k :| 0 <= k < |es| && es[k] == e;
    GroupingPartitions(history, e.itemId);
  }

  /** With no search and no type filter, every item that has a history record is listed. */
  lemma ListedWhenUnfiltered(history: seq<HistoryRecord>, c: Controls, collate: (string, string) -> int, i: nat)
    requires Lower(c.searchInput) == "" && c.typeFilter == "" && i < |history|
    ensures exists e :: e in Listed(history, c, collate) && e.itemId == history[i].itemId
  {
    var id := history[i].itemId;
    var g := GroupedUpTo(history, |history|);
    GroupingPartitions(history, id);
    var k :| 0 <= k < |g.keys| && g.keys[k] == id;
    var es := Entries(g);
    assert es[k] in es;
    SortEntriesOrder(es, c.sortType, collate);
    assert es[k] in multiset(Listed(history, c, collate));
  }

  // ---------------------------------------------------------------------
  // Undoing changes

  /** `changeHistory.findIndex(c => c.id === changeId)`, from position `from` on. */
  function FindChange(history: seq<HistoryRecord>, changeId: string, from: nat): (r: Option<nat>)
    requires from <= |history|
    ensures r.Some? ==> (from <= r.value < |history| && history[r.value].id == changeId &&
                         forall j :: from <= j < r.value ==> history[j].id != changeId)
    ensures r.None? ==> forall j :: from <= j < |history| ==> history[j].id != changeId
    decreases |history| - from
  {
    if from == |history| then None
    else if history[from].id == changeId then Some(from)
    else FindChange(history, changeId, from + 1)
  }

  /**
   * The pending changes after undoing a change of `field` in item `itemId`:
   * the field is dropped only when its stored value is truthy, and the item
   * is dropped when it has no field left.
   */
  function Reverted(p: Pending, itemId: string, field: string): (r: Pending)
    requires PendingValid(p)
    ensures PendingValid(r)
  {
    if itemId in p.vals && Truthy(Get(p.vals[itemId].vals, field)) then
      var rest := Remove(p.vals[itemId], field);
      if rest.keys == [] then Remove(p, itemId) else Put(p, itemId, rest)
    else p
  }

  /**
   * Undoing drops exactly the one field: every other item and every other
   * field of the item keep their pending value, the item stays listed as
   * long as it has a field left, and a stored value that is falsy (`false`,
   * `0`, `''`) is not dropped at all.
   */
  lemma RevertedFields(p: Pending, itemId: string, field: string)
    requires PendingValid(p)
    ensures var r := Reverted(p, itemId, field);
      (forall id :: id != itemId ==> (id in r.vals <==> id in p.vals)) &&
      (forall id :: id != itemId && id in r.vals ==> r.vals[id] == p.vals[id]) &&
      (itemId in r.vals ==> (itemId in p.vals &&
                             forall f :: f != field ==> Get(r.vals[itemId].vals, f) == Get(p.vals[itemId].vals, f))) &&
      (itemId in p.vals && Truthy(Get(p.vals[itemId].vals, field)) ==>
        (itemId in r.vals ==> field !in r.vals[itemId].vals) &&
        (itemId in r.vals <==> p.vals[itemId].vals.Keys != {field})) &&
      (!(itemId in p.vals && Truthy(Get(p.vals[itemId].vals, field))) ==> r == p)
  {
    if itemId in p.vals && Truthy(Get(p.vals[itemId].vals, field)) {
      var e := p.vals[itemId];
      var rest := Remove(e, field);
      assert rest.keys == [] <==> rest.vals == map[] by {
        if rest.keys != [] {
          assert rest.keys[0] in rest.vals;
        }
      }
      assert rest.vals == map[] <==> e.vals.Keys == {field};
    }
  }

  /** No item is left without fields once every undo has run, if none was to begin with. */
  lemma RevertedNoEmptyEntries(p: Pending, itemId: string, field: string)
    requires PendingValid(p) && NoEmptyEntries(p)
    ensures NoEmptyEntries(Reverted(p, itemId, field))
  {
  }

  /** `changeHistory.splice(i, 1)` keeps every other record, in order. */
  lemma SpliceKeepsOthers(history: seq<HistoryRecord>, i: nat)
    requires i < |history|
    ensures var h := history[..i] + history[i + 1..];
      |h| == |history| - 1 &&
      multiset(h) + multiset{history[i]} == multiset(history) &&
      forall j :: 0 <= j < |history| && j != i ==> history[j] in h
  {
    var h := history[..i] + history[i + 1..];
    assert history == history[..i] + [history[i]] + history[i + 1..];
    forall j | 0 <= j < |history| && j != i ensures history[j] in h {
      if j < i {
        assert h[j] == history[j];
      } else {
        assert h[j - 1] == history[j];
      }
    }
  }

  /**
   * Dropping an item's records leaves no record of that item and keeps
   * every other item's records, in order: every other group is unchanged.
   */
  lemma DropItemKeepsOtherGroups(history: seq<HistoryRecord>, itemId: string, other: string)
    requires other != itemId
    ensures Filter(Filter(history, NotForItem(itemId)), ForItem(itemId)) == []
    ensures Filter(Filter(history, NotForItem(itemId)), ForItem(other)) == Filter(history, ForItem(other))
  {
    var none: HistoryRecord -> bool := c => false;
    FilterFilter(history, NotForItem(itemId), ForItem(itemId), none);
    NothingPasses(history, none);
    FilterFilter(history, NotForItem(itemId), ForItem(other), ForItem(other));
  }

  lemma {:induction false} NothingPasses(s: seq<HistoryRecord>, none: HistoryRecord -> bool)
    requires forall x :: !none(x)
    ensures Filter(s, none) == []
    decreases |s|
  {
    if s != [] {
      NothingPasses(s[..|s| - 1], none);
    }
  }

  // ---------------------------------------------------------------------
  // The page

  /** The list after `renderChanges()`: left as it was when there are no pending changes. */
  function Rerendered(p: Pending, history: seq<HistoryRecord>, before: seq<Entry>,
                      c: Controls, collate: (string, string) -> int): (r: seq<Entry>)
  {
    if p.keys == [] then before else Listed(history, c, collate)
  }

  /**
   * The edit-log page: `changedItems` and `changeHistory` as loaded from the
   * browser's storage, and `filteredChanges`, the groups last rendered.
   */
  class EditLogPage {
    var changedItems: Pending
    var changeHistory: seq<HistoryRecord>
    var filteredChanges: seq<Entry>

    ghost predicate Valid()
      reads this
    {
      PendingValid(changedItems)
    }

    /** The groups on screen: none when there are no pending changes. */
    function Shown(): (r: seq<Entry>)
      reads this
      ensures changedItems.keys == [] ==> r == []
    {
      if changedItems.keys == [] then [] else filteredChanges
    }

    /** The statistics panel as `updateStatistics()` fills it. */
    function Counters(): (s: Stats)
      reads this
      requires Valid()
      ensures s.itemCount == |changedItems.vals|
      ensures s.saveEnabled <==> s.totalChanges > 0
    {
      Statistics(changedItems, changeHistory)
    }

    /** Page load: the stored changes and history, then the first render. */
    constructor(storedItems: Pending, storedHistory: seq<HistoryRecord>,
                c: Controls, collate: (string, string) -> int)
      requires PendingValid(storedItems)
      ensures Valid()
      ensures changedItems == storedItems && changeHistory == storedHistory
      ensures filteredChanges == Rerendered(storedItems, storedHistory, [], c, collate)
    {
      changedItems := storedItems;
      changeHistory := storedHistory;
      filteredChanges := [];
      new;
      RenderChanges(c, collate);
    }

    /** `renderChanges()`: group the history by item, filter the groups, sort them. */
    method RenderChanges(c: Controls, collate: (string, string) -> int)
      modifies this
      ensures changedItems == old(changedItems) && changeHistory == old(changeHistory)
      ensures filteredChanges == Rerendered(changedItems, changeHistory, old(filteredChanges), c, collate)
    {
      if |changedItems.keys| == 0 {
        return;
      }
      var groups := GroupChanges(changeHistory);
      filteredChanges := Entries(groups);
      filteredChanges := FilterEntries(filteredChanges, Lower(c.searchInput), c.typeFilter);
      filteredChanges := SortEntries(filteredChanges, c.sortType, collate);
    }

    /**
     * `revertSingleChangeById(changeId)`: an unknown id changes nothing;
     * otherwise the record's field is undone in `changedItems` and the record
     * is removed from the history.
     */
    method RevertSingleChangeById(changeId: string, c: Controls, collate: (string, string) -> int)
      requires Valid()
      modifies this
      ensures Valid()
      ensures FindChange(old(changeHistory), changeId, 0).None? ==>
        changedItems == old(changedItems) && changeHistory == old(changeHistory) &&
        filteredChanges == old(filteredChanges)
      ensures FindChange(old(changeHistory), changeId, 0).Some? ==>
        var i := FindChange(old(changeHistory), changeId, 0).value;
        var change := old(changeHistory)[i];
        changedItems == Reverted(old(changedItems), change.itemId, change.field) &&
        changeHistory == old(changeHistory)[..i] + old(changeHistory)[i + 1..] &&
        filteredChanges == Rerendered(changedItems, changeHistory, old(filteredChanges), c, collate)
    {
      var found := FindChange(changeHistory, changeId, 0);
      if found.None? {
        return;
      }
      var i := found.value;
      var change := changeHistory[i];
      UndoField(change.itemId, change.field);
      changeHistory := changeHistory[..i] + changeHistory[i + 1..];
      RenderChanges(c, collate);
    }

    /** Drop `field` from `changedItems[itemId]` when its value is truthy, and the item when it empties. */
    method UndoField(itemId: string, field: string)
      requires Valid()
      modifies this
      ensures changedItems == Reverted(old(changedItems), itemId, field)
      ensures changeHistory == old(changeHistory) && filteredChanges == old(filteredChanges)
    {
      if itemId in changedItems.vals && Truthy(Get(changedItems.vals[itemId].vals, field)) {
        var rest := Remove(changedItems.vals[itemId], field);
        if |rest.keys| == 0 {
          changedItems := Remove(changedItems, itemId);
        } else {
          changedItems := Put(changedItems, itemId, rest);
        }
      }
    }

    /** `revertItemChanges(itemId)`: the item's pending changes and all its history records go. */
    method RevertItemChanges(itemId: string, c: Controls, collate: (string, string) -> int)
      requires Valid()
      modifies this
      ensures Valid()
      ensures changedItems == Remove(old(changedItems), itemId)
      ensures changeHistory == Filter(old(changeHistory), NotForItem(itemId))
      ensures filteredChanges == Rerendered(changedItems, changeHistory, old(filteredChanges), c, collate)
    {
      changedItems := Remove(changedItems, itemId);
      changeHistory := Filter(changeHistory, NotForItem(itemId));
      RenderChanges(c, collate);
    }

    /** `clearAllChanges()`: no pending change and no history are left, and nothing is shown. */
    method ClearAllChanges(c: Controls, collate: (string, string) -> int)
      modifies this
      ensures Valid()
      ensures changedItems == Empty() && changeHistory == []
      ensures filteredChanges == old(filteredChanges)
      ensures Shown() == [] && Counters() == Stats(0, 0, None, false)
    {
      changedItems := Empty();
      changeHistory := [];
      RenderChanges(c, collate);
    }
  }
}
