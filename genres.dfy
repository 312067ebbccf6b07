/**
 * The genre manager (public/genre-management.js): the table of genres built
 * from the catalog, its statistics, the filtered and sorted list, the
 * selection, and the bulk operations that merge, clear or rename the genre of
 * catalog items and record each edit as a pending change.
 */
module Genres {
  import opened Values
  import opened Collections
  import opened StableSort
  import opened ChangeStore
  import opened GenreSimilarity

  /**
   * One entry of `allGenres`. `lastModified` is the moment of the load (in
   * milliseconds) when an item of the genre has pending changes; the source
   * stores it as an ISO date string.
   */
  datatype GenreInfo = GenreInfo(name: string, count: nat, items: seq<Item>, lastModified: Option<int>)

  /** `allGenres`: genre name to its entry, in the order the names were first met. */
  type GenreTable = OMap<string, GenreInfo>

  // ---------------------------------------------------------------------
  // Loading the table

  /**
   * What `loadGenresData` makes of an item's `real_genre`: a falsy or blank
   * value is skipped, a string is counted under its trimmed text, and any
   * other truthy value (a number, `true`, an array) has no `trim` method, so
   * the call throws and the load stops there.
   */
  datatype Reading = Skipped | Genre(name: string) | Throws

  function ReadGenre(v: Value): (r: Reading)
    ensures r.Genre? ==> r.name != "" && v.Str?
    ensures r.Throws? <==> Truthy(v) && !v.Str?
  {
    if !Truthy(v) then Skipped
    else match v
      case Str(s) => if Trim(s) == "" then Skipped else Genre(Trim(s))
      case _ => Throws
  }

  /** A genre is read as the trimmed text of the string, so trimming it again changes nothing. */
  lemma ReadGenreTrimmed(v: Value)
    requires ReadGenre(v).Genre?
    ensures ReadGenre(v).name == Trim(v.s) && Trim(ReadGenre(v).name) == ReadGenre(v).name
  {
    TrimIdempotent(v.s);
  }

  /** The reading of the item at key position `k` of the catalog. */
  function GenreAt(data: Catalog, k: nat): Reading
    requires data.Valid() && k < |data.keys|
  {
    ReadGenre(Get(data.vals[data.keys[k]], "real_genre"))
  }

  /** One step of the `forEach`: the item at key position `k` counted under its genre. */
  function Counted(t: GenreTable, data: Catalog, changed: Pending, now: int, k: nat): (r: GenreTable)
    requires t.Valid() && data.Valid() && k < |data.keys|
    ensures r.Valid()
    ensures forall g :: g in t.vals ==> g in r.vals
    ensures GenreAt(data, k).Genre? ==> GenreAt(data, k).name in r.vals
  {
    match GenreAt(data, k)
    case Genre(g) =>
      var id := data.keys[k];
      Put(t, g, Bumped(EntryFor(t, g), data.vals[id], id in changed.vals, now))
    case _ => t
  }

  /** `allGenres[g]`, created empty when missing. */
  function EntryFor(t: GenreTable, g: string): GenreInfo {
    if g in t.vals then t.vals[g] else GenreInfo(g, 0, [], None)
  }

  /** The entry once `item` is counted in it; `touched` when the item has pending changes. */
  function Bumped(info: GenreInfo, item: Item, touched: bool, now: int): (r: GenreInfo)
    ensures r.count == info.count + 1 && r.items == info.items + [item]
  {
    info.(count := info.count + 1, items := info.items + [item],
          lastModified := if touched then Some(now) else info.lastModified)
  }

  /** `allGenres` once the first `n` items of the catalog have been counted. */
  function TallyUpTo(data: Catalog, changed: Pending, now: int, n: nat): (t: GenreTable)
    requires data.Valid() && n <= |data.keys|
    ensures t.Valid()
  {
    if n == 0 then Empty()
    else
      var prev := TallyUpTo(data, changed, now, n - 1);
      Counted(prev, data, changed, now, n - 1)
  }

  /** One more item counted. */
  lemma TallyStep(data: Catalog, changed: Pending, now: int, n: nat)
    requires data.Valid() && 0 < n <= |data.keys|
    ensures TallyUpTo(data, changed, now, n) == Counted(TallyUpTo(data, changed, now, n - 1), data, changed, now, n - 1)
  {
  }

  /** The position of the first item whose genre throws, searching from `from`; the item count when none does. */
  function StopAt(data: Catalog, from: nat): (k: nat)
    requires data.Valid() && from <= |data.keys|
    ensures from <= k <= |data.keys|
    ensures k < |data.keys| ==> GenreAt(data, k).Throws?
    ensures forall j :: from <= j < k ==> !GenreAt(data, j).Throws?
    decreases |data.keys| - from
  {
    if from == |data.keys| then from
    else if GenreAt(data, from).Throws? then from
    else StopAt(data, from + 1)
  }

  /**
   * What `loadGenresData` as written makes of an item's genre. `allGenres` is
   * a plain object, so a trimmed name that names a member of
   * `Object.prototype` finds that member at `if (!allGenres[normalizedGenre])`:
   * no entry is created, and `.items.push` on the member throws.
   */
  function ReadGenreAsWritten(v: Value): (r: Reading)
    ensures ReadGenre(v).Throws? ==> r.Throws?
    ensures !r.Throws? ==> r == ReadGenre(v)
  {
    match ReadGenre(v)
    case Genre(g) => if IsPrototypeMember(g) then Throws else Genre(g)
    case r => r
  }

  /** The position at which the load as written stops, searching from `from`. */
  function StopAtAsWritten(data: Catalog, from: nat): (k: nat)
    requires data.Valid() && from <= |data.keys|
    ensures from <= k <= |data.keys|
    ensures k < |data.keys| ==> ThrowsAsWritten(data, k)
    ensures forall j :: from <= j < k ==> !ThrowsAsWritten(data, j)
    decreases |data.keys| - from
  {
    if from == |data.keys| then from
    else if ThrowsAsWritten(data, from) then from
    else StopAtAsWritten(data, from + 1)
  }

  /** The genre of the item at key position `k` throws in the load as written. */
  predicate ThrowsAsWritten(data: Catalog, k: nat)
    requires data.Valid() && k < |data.keys|
  {
    ReadGenreAsWritten(Get(data.vals[data.keys[k]], "real_genre")).Throws?
  }

  /** A genre that throws in the model also throws as written. */
  lemma {:induction false} StopAtAsWrittenNoLater(data: Catalog, from: nat)
    requires data.Valid() && from <= |data.keys|
    ensures StopAtAsWritten(data, from) <= StopAt(data, from)
    decreases |data.keys| - from
  {
    if from < |data.keys| && !ThrowsAsWritten(data, from) {
      StopAtAsWrittenNoLater(data, from + 1);
    }
  }

  /**
   * An item whose genre is named like a member of `Object.prototype`
   * (`constructor`, `toString`, `__proto__`, ...) stops the load as written
   * at or before it, and it never lets the load as written go further than
   * the model's load, which counts such a genre like any other.
   */
  lemma PrototypeGenreStopsLoad(data: Catalog, from: nat, k: nat)
    requires data.Valid() && from <= k < |data.keys|
    requires GenreAt(data, k).Genre? && GenreAt(data, k).name in PrototypeMembers
    ensures StopAtAsWritten(data, from) <= k
    ensures StopAtAsWritten(data, from) <= StopAt(data, from)
  {
    ListedInIff(PrototypeMembers, GenreAt(data, k).name);
    assert ThrowsAsWritten(data, k);
    StopAtAsWrittenNoLater(data, from);
  }

  /** `allGenres` after `loadGenresData()`: every item up to the first one whose genre throws. */
  function Loaded(data: Catalog, changed: Pending, now: int): (t: GenreTable)
    requires data.Valid()
    ensures t.Valid()
  {
    TallyUpTo(data, changed, now, StopAt(data, 0))
  }

  /** The items among the first `n` whose genre reads as `g`, in catalog order. */
  function ItemsOf(data: Catalog, g: string, n: nat): seq<Item>
    requires data.Valid() && n <= |data.keys|
  {
    if n == 0 then []
    else if GenreAt(data, n - 1) == Genre(g) then ItemsOf(data, g, n - 1) + [data.vals[data.keys[n - 1]]]
    else ItemsOf(data, g, n - 1)
  }

  /** Some item among the first `n` with genre `g` has pending changes. */
  predicate TouchedUpTo(data: Catalog, changed: Pending, g: string, n: nat)
    requires data.Valid() && n <= |data.keys|
  {
    if n == 0 then false
    else if GenreAt(data, n - 1) == Genre(g) && data.keys[n - 1] in changed.vals then true
    else TouchedUpTo(data, changed, g, n - 1)
  }

  /**
   * The table lists a genre exactly when some item reads as it; its entry
   * carries the name itself, and the items of that genre in catalog order
   * and their number.
   */
  lemma {:induction false} TallyEntries(data: Catalog, changed: Pending, now: int, n: nat, g: string)
    requires data.Valid() && n <= |data.keys|
    ensures var t := TallyUpTo(data, changed, now, n);
      (g in t.vals <==> ItemsOf(data, g, n) != []) &&
      (g in t.vals ==>
        t.vals[g].name == g && t.vals[g].items == ItemsOf(data, g, n) && t.vals[g].count == |ItemsOf(data, g, n)|)
  {
    if n > 0 {
      TallyEntries(data, changed, now, n - 1, g);
      TallyStep(data, changed, now, n);
      EntryStep(TallyUpTo(data, changed, now, n - 1), data, changed, now, n, g);
    }
  }

  /** The step of `TallyEntries`: counting the `n`-th item. */
  lemma EntryStep(t: GenreTable, data: Catalog, changed: Pending, now: int, n: nat, g: string)
    requires t.Valid() && data.Valid() && 0 < n <= |data.keys|
    requires g in t.vals <==> ItemsOf(data, g, n - 1) != []
    requires g in t.vals ==>
      t.vals[g].name == g && t.vals[g].items == ItemsOf(data, g, n - 1) && t.vals[g].count == |ItemsOf(data, g, n - 1)|
    ensures var r := Counted(t, data, changed, now, n - 1);
      (g in r.vals <==> ItemsOf(data, g, n) != []) &&
      (g in r.vals ==>
        r.vals[g].name == g && r.vals[g].items == ItemsOf(data, g, n) && r.vals[g].count == |ItemsOf(data, g, n)|)
  {
    if GenreAt(data, n - 1) == Genre(g) {
      EntryHit(t, data, changed, now, n, g);
    } else {
      EntryMiss(t, data, changed, now, n, g);
    }
  }

  /** `EntryStep` when the `n`-th item has genre `g`. */
  lemma EntryHit(t: GenreTable, data: Catalog, changed: Pending, now: int, n: nat, g: string)
    requires t.Valid() && data.Valid() && 0 < n <= |data.keys| && GenreAt(data, n - 1) == Genre(g)
    requires g in t.vals <==> ItemsOf(data, g, n - 1) != []
    requires g in t.vals ==>
      t.vals[g].name == g && t.vals[g].items == ItemsOf(data, g, n - 1) && t.vals[g].count == |ItemsOf(data, g, n - 1)|
    ensures var r := Counted(t, data, changed, now, n - 1);
      g in r.vals && r.vals[g].name == g && r.vals[g].items == ItemsOf(data, g, n) && r.vals[g].count == |ItemsOf(data, g, n)|
  {
    CountedEntry(t, data, changed, now, n - 1, g);
    ItemsOfLast(data, g, n);
  }

  /** `EntryStep` when the `n`-th item has another genre or none. */
  lemma EntryMiss(t: GenreTable, data: Catalog, changed: Pending, now: int, n: nat, g: string)
    requires t.Valid() && data.Valid() && 0 < n <= |data.keys| && GenreAt(data, n - 1) != Genre(g)
    ensures var r := Counted(t, data, changed, now, n - 1);
      (g in r.vals <==> g in t.vals) && (g in t.vals ==> r.vals[g] == t.vals[g]) &&
      ItemsOf(data, g, n) == ItemsOf(data, g, n - 1)
  {
    CountedEntry(t, data, changed, now, n - 1, g);
  }

  /**
   * A genre's `lastModified` is the moment of the load when one of its items
   * has pending changes, and unset otherwise.
   */
  lemma {:induction false} TallyStamps(data: Catalog, changed: Pending, now: int, n: nat, g: string)
    requires data.Valid() && n <= |data.keys|
    ensures var t := TallyUpTo(data, changed, now, n);
      (g in t.vals ==> t.vals[g].lastModified == if TouchedUpTo(data, changed, g, n) then Some(now) else None) &&
      (g !in t.vals ==> !TouchedUpTo(data, changed, g, n))
  {
    if n > 0 {
      TallyStamps(data, changed, now, n - 1, g);
      TallyStep(data, changed, now, n);
      StampStep(TallyUpTo(data, changed, now, n - 1), data, changed, now, n - 1, g);
    }
  }

  /** The step of `TallyStamps`: `touched` says whether an item among the first `k` of genre `g` has pending changes. */
  lemma StampStep(t: GenreTable, data: Catalog, changed: Pending, now: int, k: nat, g: string)
    requires t.Valid() && data.Valid() && k < |data.keys|
    requires g in t.vals ==> t.vals[g].lastModified == if TouchedUpTo(data, changed, g, k) then Some(now) else None
    requires g !in t.vals ==> !TouchedUpTo(data, changed, g, k)
    ensures var r := Counted(t, data, changed, now, k);
      (g in r.vals ==> r.vals[g].lastModified == if TouchedUpTo(data, changed, g, k + 1) then Some(now) else None) &&
      (g !in r.vals ==> !TouchedUpTo(data, changed, g, k + 1))
  {
    CountedEntry(t, data, changed, now, k, g);
  }

  /** What counting the item at key position `k` does to the entry of genre `g`. */
  lemma CountedEntry(t: GenreTable, data: Catalog, changed: Pending, now: int, k: nat, g: string)
    requires t.Valid() && data.Valid() && k < |data.keys|
    ensures var r := Counted(t, data, changed, now, k);
      (GenreAt(data, k) == Genre(g) ==>
        g in r.vals && r.vals[g] == Bumped(EntryFor(t, g), data.vals[data.keys[k]], data.keys[k] in changed.vals, now)) &&
      (GenreAt(data, k) != Genre(g) ==> (g in r.vals <==> g in t.vals) && (g in t.vals ==> r.vals[g] == t.vals[g]))
  {
  }

  /** Every genre of the table is a trimmed, non-empty name. */
  lemma {:induction false} TallyNames(data: Catalog, changed: Pending, now: int, n: nat, g: string)
    requires data.Valid() && n <= |data.keys|
    requires g in TallyUpTo(data, changed, now, n).vals
    ensures g != "" && Trim(g) == g
  {
    TallyEntries(data, changed, now, n, g);
    var k := FirstOf(data, g, n);
    ReadGenreTrimmed(Get(data.vals[data.keys[k]], "real_genre"));
  }

  /** A position below `n` whose item reads as genre `g`, when there is one. */
  function FirstOf(data: Catalog, g: string, n: nat): (k: nat)
    requires data.Valid() && n <= |data.keys| && ItemsOf(data, g, n) != []
    ensures k < n && GenreAt(data, k) == Genre(g)
  {
    if GenreAt(data, n - 1) == Genre(g) then n - 1 else FirstOf(data, g, n - 1)
  }

  // ---------------------------------------------------------------------
  // Counting

  /** The sum of the counts of the genres listed in `ks`. */
  function SumOver(ks: seq<string>, vals: map<string, GenreInfo>): nat
    requires forall k :: k in ks ==> k in vals
  {
    if ks == [] then 0 else SumOver(ks[..|ks| - 1], vals) + vals[ks[|ks| - 1]].count
  }

  function TotalCount(t: GenreTable): nat
    requires t.Valid()
  {
    SumOver(t.keys, t.vals)
  }

  /** The number of items among the first `n` that have a genre. */
  function NamedUpTo(data: Catalog, n: nat): nat
    requires data.Valid() && n <= |data.keys|
  {
    if n == 0 then 0 else NamedUpTo(data, n - 1) + if GenreAt(data, n - 1).Genre? then 1 else 0
  }

  lemma {:induction false} SumOverFrame(ks: seq<string>, vals: map<string, GenreInfo>, g: string, v: GenreInfo)
    requires forall k :: k in ks ==> k in vals
    requires g !in ks
    ensures SumOver(ks, vals[g := v]) == SumOver(ks, vals)
  {
    if ks != [] {
      SumOverFrame(ks[..|ks| - 1], vals, g, v);
    }
  }

  lemma {:induction false} SumOverUpdate(ks: seq<string>, vals: map<string, GenreInfo>, g: string, v: GenreInfo)
    requires forall k :: k in ks ==> k in vals
    requires Distinct(ks) && g in ks
    ensures SumOver(ks, vals[g := v]) + vals[g].count == SumOver(ks, vals) + v.count
  {
    var init := ks[..|ks| - 1];
    if ks[|ks| - 1] == g {
      assert g !in init;
      SumOverFrame(init, vals, g, v);
    } else {
      assert g in init;
      SumOverUpdate(init, vals, g, v);
    }
  }

  /** The counts of the table add up to the number of items that have a genre. */
  lemma {:induction false} TallySum(data: Catalog, changed: Pending, now: int, n: nat)
    requires data.Valid() && n <= |data.keys|
    ensures TotalCount(TallyUpTo(data, changed, now, n)) == NamedUpTo(data, n)
  {
    if n > 0 {
      TallySum(data, changed, now, n - 1);
      var t := TallyUpTo(data, changed, now, n - 1);
      match GenreAt(data, n - 1)
      case Genre(g) =>
        var r := TallyUpTo(data, changed, now, n);
        var v := r.vals[g];
        if g in t.vals {
          assert r.keys == t.keys;
          SumOverUpdate(t.keys, t.vals, g, v);
        } else {
          assert r.keys == t.keys + [g];
          assert r.keys[..|r.keys| - 1] == t.keys;
          SumOverFrame(t.keys, t.vals, g, v);
        }
      case _ =>
    }
  }

  // ---------------------------------------------------------------------
  // Statistics

  /** The four counters of `updateGenreStatistics()`. */
  datatype GenreStats = GenreStats(total: nat, used: nat, suspicious: nat, empty: nat)

  /** `Object.values(allGenres)` */
  function GenreValues(t: GenreTable): (r: seq<GenreInfo>)
    requires t.Valid()
    ensures |r| == |t.keys| && forall i :: 0 <= i < |r| ==> r[i] == t.vals[t.keys[i]]
  {
    seq(|t.keys|, i requires 0 <= i < |t.keys| => t.vals[t.keys[i]])
  }

  /** `[...new Set(suspicious)]` of `findSuspiciousGenres()` over the names in `names`. */
  function Suspicious(names: seq<string>): seq<string> {
    Dedupe(AllPairs(names, Similarity(names), |names|))
  }

  function Used(g: GenreInfo): bool {
    g.count > 0
  }

  function Unused(g: GenreInfo): bool {
    g.count == 0
  }

  /** `updateGenreStatistics()`: every genre, the used ones, the suspicious names and the empty ones. */
  function Statistics(t: GenreTable): (s: GenreStats)
    requires t.Valid()
    ensures s.total == |t.keys| && s.used <= s.total && s.empty <= s.total
  {
    var values := GenreValues(t);
    GenreStats(|values|, |Filter(values, Used)|, |Suspicious(t.keys)|, |Filter(values, Unused)|)
  }

  /** Every genre is counted as used or as empty, never both. */
  lemma StatisticsSplit(t: GenreTable)
    requires t.Valid()
    ensures Statistics(t).used + Statistics(t).empty == Statistics(t).total
  {
    FilterSplit(GenreValues(t), Used, Unused);
  }

  /** Straight after a load there is no empty genre: every listed genre has at least one item. */
  lemma LoadedHasNoEmptyGenre(data: Catalog, changed: Pending, now: int)
    requires data.Valid()
    ensures Statistics(Loaded(data, changed, now)).empty == 0
    ensures Statistics(Loaded(data, changed, now)).used == Statistics(Loaded(data, changed, now)).total
  {
    var t := Loaded(data, changed, now);
    var values := GenreValues(t);
    forall i | 0 <= i < |values| ensures Used(values[i]) {
      TallyEntries(data, changed, now, StopAt(data, 0), t.keys[i]);
    }
    FilterAll(values, Used);
    StatisticsSplit(t);
  }

  // ---------------------------------------------------------------------
  // The list (`renderGenres`)

  /**
   * Whether genre `g` stays in the list: its lower-cased name contains the
   * lower-cased search text, and it passes the chosen filter (a name flagged
   * as a possible duplicate, no items, one item, or at least five items; any
   * other choice filters nothing).
   */
  predicate Shows(g: GenreInfo, term: string, filterType: string, suspicious: seq<string>) {
    (term == "" || Contains(Lower(g.name), term)) &&
    (if filterType == "duplicates" then g.name in suspicious
     else if filterType == "empty" then g.count == 0
     else if filterType == "single" then g.count == 1
     else if filterType == "popular" then g.count >= 5
     else true)
  }

  /** The "recent" comparator: genres with changes first, the latest change first, unchanged genres last. */
  function RecentOrder(a: GenreInfo, b: GenreInfo): int {
    if a.lastModified.None? && b.lastModified.None? then 0
    else if a.lastModified.None? then 1
    else if b.lastModified.None? then -1
    else b.lastModified.value - a.lastModified.value
  }

  /** The comparator for the sort choice; `collate` stands for `localeCompare`. */
  function GenreOrder(sortType: string, collate: (string, string) -> int): (GenreInfo, GenreInfo) -> int {
    (a: GenreInfo, b: GenreInfo) =>
      if sortType == "name" then collate(a.name, b.name)
      else if sortType == "count" then b.count - a.count
      else RecentOrder(a, b)
  }

  predicate IsSortChoice(sortType: string) {
    sortType == "name" || sortType == "count" || sortType == "recent"
  }

  /** The genres `renderGenres()` draws, in order. */
  function Listed(t: GenreTable, search: string, filterType: string, sortType: string,
                  collate: (string, string) -> int): seq<GenreInfo>
    requires t.Valid()
  {
    var term := Lower(search);
    var suspicious := Suspicious(t.keys);
    var shown := Filter(GenreValues(t), (g: GenreInfo) => Shows(g, term, filterType, suspicious));
    if IsSortChoice(sortType) then SortBy(shown, GenreOrder(sortType, collate)) else shown
  }

  function NegCount(g: GenreInfo): int {
    -(g.count as int)
  }

  function Unmodified(g: GenreInfo): bool {
    g.lastModified.None?
  }

  /**
   * The list holds exactly the genres of the table that pass the search and
   * the filter, each as often as in the table; sorted by count it runs from
   * the largest genre down, and sorted by recency the unchanged genres come
   * last.
   */
  lemma ListedContents(t: GenreTable, search: string, filterType: string, sortType: string,
                       collate: (string, string) -> int)
    requires t.Valid()
    ensures var r := Listed(t, search, filterType, sortType, collate);
      (forall g :: g in r <==> g in GenreValues(t) && Shows(g, Lower(search), filterType, Suspicious(t.keys))) &&
      (sortType == "count" ==> SortedByKey(r, NegCount)) &&
      (sortType == "recent" ==> LateLast(r, Unmodified))
  {
    var term := Lower(search);
    var suspicious := Suspicious(t.keys);
    var p := (g: GenreInfo) => Shows(g, term, filterType, suspicious);
    var shown := Filter(GenreValues(t), p);
    if IsSortChoice(sortType) {
      var cmp := GenreOrder(sortType, collate);
      SortByMembers(shown, cmp);
      if sortType == "count" {
        SortSortedByKey(shown, cmp, NegCount);
      } else if sortType == "recent" {
        assert PutsLast(cmp, Unmodified) by {
          forall a, b | Unmodified(a) && !Unmodified(b) ensures cmp(a, b) > 0 && cmp(b, a) <= 0 {
            assert cmp(a, b) == RecentOrder(a, b) && cmp(b, a) == RecentOrder(b, a);
          }
        }
        SortLateLast(shown, cmp, Unmodified);
      }
    }
  }

  /** The list is a rearrangement of the genres that pass: sorting loses and repeats none. */
  lemma ListedPermutes(t: GenreTable, search: string, filterType: string, sortType: string,
                       collate: (string, string) -> int)
    requires t.Valid()
    ensures multiset(Listed(t, search, filterType, sortType, collate)) ==
      multiset(Filter(GenreValues(t), (g: GenreInfo) => Shows(g, Lower(search), filterType, Suspicious(t.keys))))
  {
    var term := Lower(search);
    var suspicious := Suspicious(t.keys);
    var shown := Filter(GenreValues(t), (g: GenreInfo) => Shows(g, term, filterType, suspicious));
    if IsSortChoice(sortType) {
      SortByPermutes(shown, GenreOrder(sortType, collate));
    }
  }

  // ---------------------------------------------------------------------
  // The selection

  /** `selectedGenres.add(name)` on the set kept in insertion order. */
  function Added(sel: seq<string>, name: string): (r: seq<string>)
    ensures Distinct(sel) ==> Distinct(r)
    ensures forall x :: x in r <==> x in sel || x == name
  {
    if name in sel then sel else sel + [name]
  }

  /** The names of `drawn` added in turn, as `selectAllGenres` does with the drawn check boxes. */
  function SelectedAll(sel: seq<string>, drawn: seq<GenreInfo>): (r: seq<string>)
    ensures Distinct(sel) ==> Distinct(r)
    ensures forall x :: x in r <==> x in sel || exists i :: 0 <= i < |drawn| && drawn[i].name == x
  {
    if drawn == [] then sel
    else
      var r := Added(SelectedAll(sel, drawn[..|drawn| - 1]), drawn[|drawn| - 1].name);
      assert forall i :: 0 <= i < |drawn| - 1 ==> drawn[..|drawn| - 1][i] == drawn[i];
      r
  }

  /**
   * What `openMergeModal()` does: fewer than two selected genres is refused;
   * a selected genre missing from the table makes the listing of counts
   * throw (`UnknownGenre`); otherwise the proposed target is the selected genre with the
   * most items (the first such in selection order).
   */
  datatype MergeProposal = TooFew | UnknownGenre | Target(name: string)

  function CountOf(t: GenreTable, name: string): int {
    if name in t.vals then t.vals[name].count else 0
  }

  function ByCountDown(t: GenreTable): (string, string) -> int {
    (a: string, b: string) => CountOf(t, b) - CountOf(t, a)
  }

  function ProposeMerge(t: GenreTable, sel: seq<string>): MergeProposal {
    if |sel| < 2 then TooFew
    else if exists name :: name in sel && name !in t.vals then UnknownGenre
    else Target(SortBy(sel, ByCountDown(t))[0])
  }

  /** The proposed target is one of the selected genres and none of them has more items. */
  lemma ProposedTargetIsLargest(t: GenreTable, sel: seq<string>)
    requires ProposeMerge(t, sel).Target?
    ensures var target := ProposeMerge(t, sel).name;
      target in sel && target in t.vals &&
      forall name :: name in sel ==> t.vals[name].count <= t.vals[target].count
  {
    var cmp := ByCountDown(t);
    var key := (name: string) => -CountOf(t, name);
    var sorted := SortBy(sel, cmp);
    SortByMembers(sel, cmp);
    SortSortedByKey(sel, cmp, key);
    forall name | name in sel ensures t.vals[name].count <= t.vals[sorted[0]].count {
      var k :| 0 <= k < |sorted| && sorted[k] == name;
      if k > 0 {
        assert key(sorted[0]) <= key(sorted[k]);
      }
    }
  }

  // ---------------------------------------------------------------------
  // Retagging items (merge, delete, rename)

  /**
   * What a bulk genre edit writes: the catalog (`window.allData`), the
   * pending changes (`window.changedItems`) and the manager's own record of
   * edited items (`genreChanges`).
   */
  datatype Books = Books(data: Catalog, pending: Pending, changes: OMap<string, Item>)

  ghost predicate BooksValid(b: Books) {
    b.data.Valid() && PendingValid(b.pending) && b.changes.Valid()
  }

  /** `window.changedItems[id]`, or the empty object the spread of `undefined` gives. */
  function EntryOf(p: Pending, id: string): (e: OMap<string, Value>)
    requires PendingValid(p)
    ensures e.Valid()
  {
    if id in p.vals then p.vals[id] else Empty()
  }

  /** `changedItems[id] = { ...changedItems[id], [field]: v }` */
  function PutChange(p: Pending, id: string, field: string, v: Value): (r: Pending)
    requires PendingValid(p)
    ensures PendingValid(r)
    ensures r.vals == p.vals[id := Put(EntryOf(p, id), field, v)]
    ensures id in p.vals ==> r.keys == p.keys
    ensures id !in p.vals ==> r.keys == p.keys + [id]
  {
    Put(p, id, Put(EntryOf(p, id), field, v))
  }

  /** `{ ...item, real_genre: target }` */
  function WithGenre(item: Item, target: string): (r: Item)
    ensures Get(r, "real_genre") == Str(target)
    ensures forall f :: f != "real_genre" ==> Get(r, f) == Get(item, f)
  {
    item["real_genre" := Str(target)]
  }

  /** `window.allData[id]`, or the empty object the spread of `undefined` gives. */
  function CurrentOf(data: Catalog, id: string): Item {
    if id in data.vals then data.vals[id] else map[]
  }

  /** The item `genreChanges[id]` is based on: the copy already there, or else `item`. */
  function CopyOf(changes: OMap<string, Item>, id: string, item: Item): Item {
    if id in changes.vals then changes.vals[id] else item
  }

  /** Items whose `real_genre` is one of the selected names (`selectedGenres.has(item.real_genre)`). */
  function InSelection(sel: seq<string>): Value -> bool {
    (v: Value) => v.Str? && v.s in sel
  }

  /** Items whose `real_genre` is exactly `name` (`item.real_genre === name`). */
  function IsGenre(name: string): Value -> bool {
    (v: Value) => StrictEq(v, Str(name))
  }

  /**
   * One step of the `forEach` over the entries of the catalog as they were
   * when the edit began (`snapshot`): an item whose genre `matches` gets the
   * genre `target` in all three places.
   */
  function Retagged(b: Books, snapshot: Catalog, matches: Value -> bool, target: string, k: nat): (r: Books)
    requires BooksValid(b) && snapshot.Valid() && k < |snapshot.keys|
    ensures BooksValid(r)
  {
    var id := snapshot.keys[k];
    var item := snapshot.vals[id];
    if !matches(Get(item, "real_genre")) then b
    else
      Books(Put(b.data, id, WithGenre(CurrentOf(b.data, id), target)),
            PutChange(b.pending, id, "real_genre", Str(target)),
            Put(b.changes, id, WithGenre(CopyOf(b.changes, id, item), target)))
  }

  /** The state after the first `n` entries of the catalog have been visited. */
  function RetagUpTo(b: Books, matches: Value -> bool, target: string, n: nat): (r: Books)
    requires BooksValid(b) && n <= |b.data.keys|
    ensures BooksValid(r)
    ensures r.data.keys == b.data.keys
  {
    if n == 0 then b
    else
      var prev := RetagUpTo(b, matches, target, n - 1);
      Retagged(prev, b.data, matches, target, n - 1)
  }

  /** One more entry visited. */
  lemma RetagStep(b: Books, matches: Value -> bool, target: string, n: nat)
    requires BooksValid(b) && n < |b.data.keys|
    ensures RetagUpTo(b, matches, target, n + 1) == Retagged(RetagUpTo(b, matches, target, n), b.data, matches, target, n)
  {
  }

  /** The whole edit: every entry of the catalog visited. */
  function Retag(b: Books, matches: Value -> bool, target: string): (r: Books)
    requires BooksValid(b)
    ensures BooksValid(r)
  {
    RetagUpTo(b, matches, target, |b.data.keys|)
  }

  /**
   * The `forEach` of a bulk genre edit, over the catalog as it was when the
   * edit began: each entry whose genre `matches` is written in the three places.
   */
  method RetagAll(b: Books, matches: Value -> bool, target: string) returns (r: Books)
    requires BooksValid(b)
    ensures r == Retag(b, matches, target)
  {
    var snapshot := b.data;
    r := b;
    var i := 0;
    while i < |snapshot.keys|
      invariant i <= |snapshot.keys|
      invariant r == RetagUpTo(b, matches, target, i)
    {
      RetagStep(b, matches, target, i);
      r := Retagged(r, snapshot, matches, target, i);
      i := i + 1;
    }
  }

  /**
   * The state at item `id`, against the state `b` the edit began from: when
   * the item has been visited and its genre matched, all three places hold
   * the item with the new genre; otherwise all three are as they were.
   */
  ghost predicate RetaggedAt(b: Books, r: Books, matches: Value -> bool, target: string, id: string, visited: bool)
    requires BooksValid(b)
  {
    if visited && id in b.data.vals && matches(Get(b.data.vals[id], "real_genre")) then
      id in r.data.vals && r.data.vals[id] == WithGenre(b.data.vals[id], target) &&
      id in r.pending.vals && r.pending.vals[id] == Put(EntryOf(b.pending, id), "real_genre", Str(target)) &&
      id in r.changes.vals && r.changes.vals[id] == WithGenre(CopyOf(b.changes, id, b.data.vals[id]), target)
    else
      (id in r.data.vals <==> id in b.data.vals) && (id in r.data.vals ==> r.data.vals[id] == b.data.vals[id]) &&
      (id in r.pending.vals <==> id in b.pending.vals) && (id in r.pending.vals ==> r.pending.vals[id] == b.pending.vals[id]) &&
      (id in r.changes.vals <==> id in b.changes.vals) && (id in r.changes.vals ==> r.changes.vals[id] == b.changes.vals[id])
  }

  lemma {:induction false} RetagUpToAt(b: Books, matches: Value -> bool, target: string, n: nat, id: string)
    requires BooksValid(b) && n <= |b.data.keys|
    ensures RetaggedAt(b, RetagUpTo(b, matches, target, n), matches, target, id, Seen(b.data.keys, n, id))
  {
    if n > 0 {
      RetagUpToAt(b, matches, target, n - 1, id);
      var prev := RetagUpTo(b, matches, target, n - 1);
      if b.data.keys[n - 1] == id {
        SeenIsIn(b.data.keys, n - 1, id);
        assert !Seen(b.data.keys, n - 1, id);
        VisitStep(b, prev, matches, target, n - 1);
      } else {
        PassStep(b, prev, matches, target, n - 1, id, Seen(b.data.keys, n - 1, id));
      }
    }
  }

  /** Visiting item `id` for the first time sets its state as `RetaggedAt` says. */
  lemma VisitStep(b: Books, prev: Books, matches: Value -> bool, target: string, k: nat)
    requires BooksValid(b) && BooksValid(prev) && k < |b.data.keys|
    requires RetaggedAt(b, prev, matches, target, b.data.keys[k], false)
    ensures RetaggedAt(b, Retagged(prev, b.data, matches, target, k), matches, target, b.data.keys[k], true)
  {
  }

  /** Visiting another item leaves the state at `id` alone. */
  lemma PassStep(b: Books, prev: Books, matches: Value -> bool, target: string, k: nat, id: string, visited: bool)
    requires BooksValid(b) && BooksValid(prev) && k < |b.data.keys| && b.data.keys[k] != id
    requires RetaggedAt(b, prev, matches, target, id, visited)
    ensures RetaggedAt(b, Retagged(prev, b.data, matches, target, k), matches, target, id, visited)
  {
  }

  /**
   * A bulk genre edit changes, in the catalog, exactly the `real_genre` of
   * the items whose genre matched, to `target`: it adds and removes no item,
   * and leaves every other field and every other item as it was.
   */
  lemma RetagCatalog(b: Books, matches: Value -> bool, target: string)
    requires BooksValid(b)
    ensures var r := Retag(b, matches, target);
      r.data.keys == b.data.keys && r.data.vals.Keys == b.data.vals.Keys &&
      forall id :: id in b.data.vals ==>
        r.data.vals[id] == if matches(Get(b.data.vals[id], "real_genre"))
                           then b.data.vals[id]["real_genre" := Str(target)]
                           else b.data.vals[id]
  {
    var r := Retag(b, matches, target);
    forall id | id in b.data.vals
      ensures id in r.data.vals
      ensures r.data.vals[id] == if matches(Get(b.data.vals[id], "real_genre"))
                                 then b.data.vals[id]["real_genre" := Str(target)]
                                 else b.data.vals[id]
    {
      RetagUpToAt(b, matches, target, |b.data.keys|, id);
      SeenIsIn(b.data.keys, |b.data.keys|, id);
      assert b.data.keys[..|b.data.keys|] == b.data.keys;
    }
  }

  /** Outside `real_genre`, no field of any item changes. */
  lemma RetagOnlyTouchesGenre(b: Books, matches: Value -> bool, target: string, id: string, field: string)
    requires BooksValid(b) && id in b.data.vals && field != "real_genre"
    ensures id in Retag(b, matches, target).data.vals
    ensures Get(Retag(b, matches, target).data.vals[id], field) == Get(b.data.vals[id], field)
  {
    RetagCatalog(b, matches, target);
  }

  /**
   * Each matched item gets a pending `real_genre` change to `target`, added
   * to whatever changes it already had; the pending changes of every other
   * item are as they were, and only matched items are recorded in
   * `genreChanges`.
   */
  lemma RetagPending(b: Books, matches: Value -> bool, target: string, id: string)
    requires BooksValid(b)
    ensures var r := Retag(b, matches, target);
      if id in b.data.vals && matches(Get(b.data.vals[id], "real_genre")) then
        id in r.pending.vals && r.pending.vals[id] == Put(EntryOf(b.pending, id), "real_genre", Str(target)) &&
        id in r.changes.vals && Get(r.changes.vals[id], "real_genre") == Str(target)
      else
        (id in r.pending.vals <==> id in b.pending.vals) && (id in r.pending.vals ==> r.pending.vals[id] == b.pending.vals[id]) &&
        (id in r.changes.vals <==> id in b.changes.vals)
  {
    RetagUpToAt(b, matches, target, |b.data.keys|, id);
    SeenIsIn(b.data.keys, |b.data.keys|, id);
    assert b.data.keys[..|b.data.keys|] == b.data.keys;
  }

  /** When every pending change shows in the catalog before the edit, so it does after. */
  lemma RetagKeepsLedger(b: Books, matches: Value -> bool, target: string)
    requires BooksValid(b) && LedgerAgrees(b.data, b.pending)
    ensures LedgerAgrees(Retag(b, matches, target).data, Retag(b, matches, target).pending)
  {
    var r := Retag(b, matches, target);
    forall id | id in r.pending.vals
      ensures id in r.data.vals
      ensures forall f :: f in r.pending.vals[id].vals ==> Get(r.data.vals[id], f) == r.pending.vals[id].vals[f]
    {
      RetagUpToAt(b, matches, target, |b.data.keys|, id);
      SeenIsIn(b.data.keys, |b.data.keys|, id);
      assert b.data.keys[..|b.data.keys|] == b.data.keys;
    }
  }

  /** The number of items among the first `n` whose genre matches. */
  function MatchingUpTo(data: Catalog, matches: Value -> bool, n: nat): nat
    requires data.Valid() && n <= |data.keys|
  {
    if n == 0 then 0
    else MatchingUpTo(data, matches, n - 1) + if matches(Get(data.vals[data.keys[n - 1]], "real_genre")) then 1 else 0
  }

  /** With no matching item, the edit changes nothing at all. */
  lemma {:induction false} NoMatchNoChange(b: Books, matches: Value -> bool, target: string, n: nat)
    requires BooksValid(b) && n <= |b.data.keys| && MatchingUpTo(b.data, matches, n) == 0
    ensures RetagUpTo(b, matches, target, n) == b
  {
    if n > 0 {
      NoMatchNoChange(b, matches, target, n - 1);
    }
  }

  // ---------------------------------------------------------------------
  // Adding a genre

  /** A name the add and rename prompts refuse: no answer, or only blanks. */
  predicate BlankAnswer(input: Option<string>) {
    input.None? || Trim(input.value) == ""
  }

  /**
   * `addNewGenre()` as intended: a blank answer or a name already in the
   * table changes nothing; otherwise the trimmed name enters the table with
   * no items, marked as modified now.
   */
  function WithNewGenre(t: GenreTable, input: Option<string>, now: int): (r: GenreTable)
    requires t.Valid()
    ensures r.Valid()
  {
    if BlankAnswer(input) || Trim(input.value) in t.vals then t
    else Put(t, Trim(input.value), GenreInfo(Trim(input.value), 0, [], Some(now)))
  }

  /** The new genre is listed, empty, after every genre already there, which are untouched. */
  lemma NewGenreListed(t: GenreTable, input: Option<string>, now: int)
    requires t.Valid() && !BlankAnswer(input) && Trim(input.value) !in t.vals
    ensures var r := WithNewGenre(t, input, now);
      r.keys == t.keys + [Trim(input.value)] &&
      r.vals[Trim(input.value)] == GenreInfo(Trim(input.value), 0, [], Some(now)) &&
      forall g :: g in t.vals ==> r.vals[g] == t.vals[g]
  {
  }

  /**
   * `addNewGenre()` as written: after putting the new entry in the table it
   * calls `loadGenresData()`, which rebuilds the table from the catalog
   * alone.
   */
  function WithNewGenreAsWritten(t: GenreTable, data: Catalog, changed: Pending, input: Option<string>, now: int): (r: GenreTable)
    requires t.Valid() && data.Valid()
    ensures r.Valid()
  {
    if BlankAnswer(input) || Trim(input.value) in t.vals then t
    else Loaded(data, changed, now)
  }

  /** As written, a genre no item carries yet is gone again as soon as it is added. */
  lemma NewGenreVanishes(t: GenreTable, data: Catalog, changed: Pending, input: Option<string>, now: int)
    requires t.Valid() && data.Valid() && !BlankAnswer(input) && Trim(input.value) !in t.vals
    requires ItemsOf(data, Trim(input.value), StopAt(data, 0)) == []
    ensures Trim(input.value) !in WithNewGenreAsWritten(t, data, changed, input, now).vals
    ensures Trim(input.value) in WithNewGenre(t, input, now).vals
  {
    TallyEntries(data, changed, now, StopAt(data, 0), Trim(input.value));
  }

  // ---------------------------------------------------------------------
  // The catalog the manager reads

  /**
   * The catalog the genre manager reads as written: the page publishes its
   * `allData` object on `window` once, at start-up (public/script.js, line
   * 94), and `fetchData` later binds the page's variable to the fetched
   * catalog (line 253) without publishing it again, so `window.allData`
   * stays the empty object of start-up.
   */
  function ManagerCatalogAsWritten(atStartUp: Catalog, fetched: Catalog): (c: Catalog)
    ensures c == atStartUp
  {
    atStartUp
  }

  /** As written, the genre table stays empty even when the fetched catalog has genres. */
  lemma StaleCatalogHidesGenres(fetched: Catalog, changed: Pending, now: int, k: nat)
    requires fetched.Valid() && k < StopAt(fetched, 0) && GenreAt(fetched, k).Genre?
    ensures Loaded(ManagerCatalogAsWritten(Empty(), fetched), changed, now).keys == []
    ensures GenreAt(fetched, k).name in Loaded(fetched, changed, now).vals
  {
    LoadedListsEveryGenre(fetched, changed, now, k);
  }

  /** Read from the page's current catalog, every genre an item has (before a throwing one) is listed. */
  lemma LoadedListsEveryGenre(data: Catalog, changed: Pending, now: int, k: nat)
    requires data.Valid() && k < StopAt(data, 0) && GenreAt(data, k).Genre?
    ensures GenreAt(data, k).name in Loaded(data, changed, now).vals
  {
    TallyLists(data, changed, now, k, StopAt(data, 0));
  }

  /** Once the item at position `k` is counted, its genre has an item in the table. */
  lemma {:induction false} TallyLists(data: Catalog, changed: Pending, now: int, k: nat, n: nat)
    requires data.Valid() && k < n <= |data.keys| && GenreAt(data, k).Genre?
    ensures GenreAt(data, k).name in TallyUpTo(data, changed, now, n).vals
  {
    ItemsOfHas(data, GenreAt(data, k).name, k, n);
    TallyEntries(data, changed, now, n, GenreAt(data, k).name);
  }

  /** An item read as genre `g` keeps `g` among the genres of every longer prefix. */
  lemma ItemsOfHas(data: Catalog, g: string, k: nat, n: nat)
    requires data.Valid() && k < n <= |data.keys| && GenreAt(data, k) == Genre(g)
    ensures |ItemsOf(data, g, n)| > 0
  {
    ItemsOfHit(data, g, k);
    ItemsOfGrow(data, g, k + 1, n);
    assert ItemCount(data, g, n) > 0;
  }

  /** The item at position `k`, read as genre `g`, is counted under `g` once taken. */
  lemma ItemsOfHit(data: Catalog, g: string, k: nat)
    requires data.Valid() && k < |data.keys| && GenreAt(data, k) == Genre(g)
    ensures ItemCount(data, g, k + 1) > 0
  {
  }

  /** A longer prefix never lists fewer items under a genre. */
  lemma {:induction false} ItemsOfGrow(data: Catalog, g: string, m: nat, n: nat)
    requires data.Valid() && m <= n <= |data.keys|
    ensures ItemCount(data, g, m) <= ItemCount(data, g, n)
    decreases n
  {
    if m < n {
      ItemsOfGrow(data, g, m, n - 1);
      ItemsOfLonger(data, g, n);
    }
  }

  /** Taking one more item never shortens the list of a genre. */
  lemma ItemsOfLonger(data: Catalog, g: string, n: nat)
    requires data.Valid() && 0 < n <= |data.keys|
    ensures ItemCount(data, g, n) >= ItemCount(data, g, n - 1)
  {
  }

  /** The number of items among the first `n` whose genre reads as `g`. */
  function ItemCount(data: Catalog, g: string, n: nat): nat
    requires data.Valid() && n <= |data.keys|
  {
    |ItemsOf(data, g, n)|
  }

  /** An item read as genre `g` is listed under `g` once it is taken. */
  lemma ItemsOfLast(data: Catalog, g: string, n: nat)
    requires data.Valid() && 0 < n <= |data.keys| && GenreAt(data, n - 1) == Genre(g)
    ensures ItemsOf(data, g, n) == ItemsOf(data, g, n - 1) + [data.vals[data.keys[n - 1]]]
  {
  }

  // ---------------------------------------------------------------------
  // The pending changes the manager writes

  /**
   * The main page's `changedItems` variable and the object published as
   * `window.changedItems`, which the genre manager writes. `shared` says
   * whether both name the same object, so that a write through one name is
   * seen through the other.
   */
  datatype PendingBinding = PendingBinding(page: Pending, published: Pending, shared: bool)

  ghost predicate BindingValid(pb: PendingBinding) {
    PendingValid(pb.page) && PendingValid(pb.published) && (pb.shared ==> pb.page == pb.published)
  }

  /**
   * A bulk genre edit over `data`: it writes `window.changedItems`, and the
   * page sees the write only while its variable names the same object.
   */
  function EditThroughWindow(pb: PendingBinding, data: Catalog, matches: Value -> bool, target: string): (r: PendingBinding)
    requires BindingValid(pb) && data.Valid()
    ensures BindingValid(r) && r.shared == pb.shared
    ensures !pb.shared ==> r.page == pb.page
  {
    var written := Retag(Books(data, pb.published, Empty()), matches, target).pending;
    PendingBinding(if pb.shared then written else pb.page, written, pb.shared)
  }

  /**
   * A successful submission as written (public/script.js, line 930):
   * `changedItems = {}` binds the page's variable to a new empty object and
   * does not publish it, so `window.changedItems` keeps the submitted changes.
   */
  function SubmitAsWritten(pb: PendingBinding): (r: PendingBinding)
    requires BindingValid(pb)
    ensures BindingValid(r) && r.page.keys == [] && !r.shared
  {
    PendingBinding(Empty(), pb.published, false)
  }

  /** A successful submission that publishes the new empty object, as lines 743 and 1122 do after an edit. */
  function SubmitPublished(pb: PendingBinding): (r: PendingBinding)
    requires BindingValid(pb)
    ensures BindingValid(r) && r.page.keys == [] && r.shared
  {
    PendingBinding(Empty(), Empty(), true)
  }

  /**
   * As written, after a successful submission a genre merge, delete or
   * rename of an item goes into the old object: the page's pending changes
   * stay empty, so the next submission leaves the genre edit out.
   */
  lemma StalePendingLosesGenreEdits(pending: Pending, data: Catalog, id: string, g: Value, target: string)
    requires PendingValid(pending) && data.Valid()
    requires id in data.vals && Get(data.vals[id], "real_genre") == g
    ensures var after := EditThroughWindow(SubmitAsWritten(PendingBinding(pending, pending, true)), data, v => v == g, target);
      after.page.keys == [] &&
      id in after.published.vals && after.published.vals[id] == Put(EntryOf(pending, id), "real_genre", Str(target))
  {
    var pb := SubmitAsWritten(PendingBinding(pending, pending, true));
    RetagPending(Books(data, pb.published, Empty()), v => v == g, target, id);
  }

  /**
   * When the new empty object is published, a genre edit after the
   * submission reaches the page's pending changes: the edited item's entry
   * holds exactly the new genre.
   */
  lemma GenreEditsReachPage(pending: Pending, data: Catalog, id: string, g: Value, target: string)
    requires PendingValid(pending) && data.Valid()
    requires id in data.vals && Get(data.vals[id], "real_genre") == g
    ensures var after := EditThroughWindow(SubmitPublished(PendingBinding(pending, pending, true)), data, v => v == g, target);
      after.page == after.published &&
      id in after.page.vals && after.page.vals[id] == Put(Empty(), "real_genre", Str(target))
  {
    var pb := SubmitPublished(PendingBinding(pending, pending, true));
    RetagPending(Books(data, pb.published, Empty()), v => v == g, target, id);
  }

  // ---------------------------------------------------------------------
  // The manager

  /** The state of the genre manager and the page state it shares. */
  class GenreManager {
    /** `window.allData` */
    var allData: Catalog
    /** `window.changedItems` */
    var changedItems: Pending
    var allGenres: GenreTable
    /** `selectedGenres`, a set kept in insertion order. */
    var selectedGenres: seq<string>
    var genreChanges: OMap<string, Item>

    ghost predicate Valid()
      reads this
    {
      BooksValid(Bookkeeping()) && allGenres.Valid() && Distinct(selectedGenres)
    }

    /** The three places a bulk genre edit writes. */
    function Bookkeeping(): Books
      reads this
    {
      Books(allData, changedItems, genreChanges)
    }

    /** The manager over the page's catalog and pending changes, with no genres, no selection and no edits yet. */
    constructor(data: Catalog, changed: Pending)
      requires data.Valid() && PendingValid(changed)
      ensures Valid()
      ensures Bookkeeping() == Books(data, changed, Empty())
      ensures allGenres == Empty() && selectedGenres == []
    {
      allData, changedItems := data, changed;
      allGenres, selectedGenres, genreChanges := Empty(), [], Empty();
    }

    /**
     * `loadGenresData()`: the table is rebuilt from the catalog; `complete`
     * is false when an item's genre made the load throw part-way.
     */
    method LoadGenresData(now: int) returns (complete: bool)
      requires Valid()
      modifies this`allGenres
      ensures Valid()
      ensures allGenres == Loaded(allData, changedItems, now)
      ensures complete <==> StopAt(allData, 0) == |allData.keys|
    {
      allGenres := Empty();
      var data, changed := allData, changedItems;
      var i := 0;
      while i < |data.keys|
        invariant i <= StopAt(data, 0)
        invariant allGenres == TallyUpTo(data, changed, now, i)
      {
        TallyStep(data, changed, now, i + 1);
        var thrown := CountItem(data, changed, now, i);
        if thrown {
          return false;
        }
        i := i + 1;
      }
      return true;
    }

    /**
     * One step of the `forEach` of `loadGenresData()`: the item at key
     * position `k` is counted under its genre; `thrown` when reading its
     * genre throws, and then the table is left as it was.
     */
    method CountItem(data: Catalog, changed: Pending, now: int, k: nat) returns (thrown: bool)
      requires allGenres.Valid() && data.Valid() && k < |data.keys|
      modifies this`allGenres
      ensures allGenres.Valid()
      ensures thrown <==> GenreAt(data, k).Throws?
      ensures allGenres == if thrown then old(allGenres) else Counted(old(allGenres), data, changed, now, k)
    {
      var id := data.keys[k];
      var reading := ReadGenre(Get(data.vals[id], "real_genre"));
      thrown := reading.Throws?;
      if reading.Genre? {
        var g := reading.name;
        allGenres := Put(allGenres, g, Bumped(EntryFor(allGenres, g), data.vals[id], id in changed.vals, now));
      }
    }

    /** A bulk genre edit: every item whose genre `matches` gets the genre `target`. */
    method RetagItems(matches: Value -> bool, target: string)
      requires Valid()
      modifies this`allData, this`changedItems, this`genreChanges
      ensures Valid()
      ensures Bookkeeping() == Retag(old(Bookkeeping()), matches, target)
    {
      var books := RetagAll(Bookkeeping(), matches, target);
      allData, changedItems, genreChanges := books.data, books.pending, books.changes;
    }

    /** The number of items whose genre `matches` (`affectedItems.length`). */
    method CountMatching(matches: Value -> bool) returns (count: nat)
      requires Valid()
      ensures count == MatchingUpTo(allData, matches, |allData.keys|)
    {
      count := 0;
      var i := 0;
      while i < |allData.keys|
        invariant 0 <= i <= |allData.keys|
        invariant count == MatchingUpTo(allData, matches, i)
      {
        if matches(Get(allData.vals[allData.keys[i]], "real_genre")) {
          count := count + 1;
        }
        i := i + 1;
      }
    }

    /**
     * `confirmMergeGenres()`: a blank target changes nothing; otherwise every
     * item in one of the selected genres moves to the trimmed target and the
     * table is rebuilt. The selection stays.
     */
    method ConfirmMergeGenres(targetInput: string, now: int)
      requires Valid()
      modifies this
      ensures Valid()
      ensures Trim(targetInput) == "" ==>
        Bookkeeping() == old(Bookkeeping()) && allGenres == old(allGenres) && selectedGenres == old(selectedGenres)
      ensures Trim(targetInput) != "" ==>
        Bookkeeping() == Retag(old(Bookkeeping()), InSelection(old(selectedGenres)), Trim(targetInput)) &&
        allGenres == Loaded(allData, changedItems, now) && selectedGenres == old(selectedGenres)
    {
      var target := Trim(targetInput);
      if target == "" {
        return;
      }
      RetagItems(InSelection(selectedGenres), target);
      var _ := LoadGenresData(now);
    }

    /**
     * `deleteSelectedGenres()`: with nothing selected, or when items carry
     * the selected genres and the user does not confirm, nothing changes;
     * otherwise those items get the empty genre, the selection is cleared and
     * the table is rebuilt.
     */
    method DeleteSelectedGenres(confirmed: bool, now: int)
      requires Valid()
      modifies this
      ensures Valid()
      ensures !DeleteGoesAhead(old(allData), old(selectedGenres), confirmed) ==>
        Bookkeeping() == old(Bookkeeping()) && allGenres == old(allGenres) && selectedGenres == old(selectedGenres)
      ensures DeleteGoesAhead(old(allData), old(selectedGenres), confirmed) ==>
        Bookkeeping() == Retag(old(Bookkeeping()), InSelection(old(selectedGenres)), "") &&
        allGenres == Loaded(allData, changedItems, now) && selectedGenres == []
    {
      if |selectedGenres| == 0 {
        return;
      }
      var affected := CountMatching(InSelection(selectedGenres));
      if affected > 0 && !confirmed {
        return;
      }
      RetagItems(InSelection(selectedGenres), "");
      selectedGenres := [];
      var _ := LoadGenresData(now);
    }

    /**
     * `addNewGenre()` as intended (see `WithNewGenreAsWritten` for the code as
     * written): the new genre enters the table and stays there.
     */
    method AddNewGenre(input: Option<string>, now: int)
      requires Valid()
      modifies this
      ensures Valid()
      ensures allGenres == WithNewGenre(old(allGenres), input, now)
      ensures Bookkeeping() == old(Bookkeeping()) && selectedGenres == old(selectedGenres)
    {
      if input.None? {
        return;
      }
      var name := Trim(input.value);
      if name == "" || name in allGenres.vals {
        return;
      }
      allGenres := Put(allGenres, name, GenreInfo(name, 0, [], Some(now)));
    }

    /**
     * `editGenre(genreName)`: a blank or unchanged answer, or the name of
     * another genre in the table, changes nothing; otherwise every item whose
     * genre is exactly `genreName` gets the trimmed new name and the table is
     * rebuilt.
     */
    method EditGenre(genreName: string, input: Option<string>, now: int)
      requires Valid()
      modifies this
      ensures Valid()
      ensures RenameRefused(old(allGenres), genreName, input) ==>
        Bookkeeping() == old(Bookkeeping()) && allGenres == old(allGenres) && selectedGenres == old(selectedGenres)
      ensures !RenameRefused(old(allGenres), genreName, input) ==>
        Bookkeeping() == Retag(old(Bookkeeping()), IsGenre(genreName), Trim(input.value)) &&
        allGenres == Loaded(allData, changedItems, now) && selectedGenres == old(selectedGenres)
    {
      if input.None? {
        return;
      }
      var newName := Trim(input.value);
      if newName == "" || newName == genreName {
        return;
      }
      if newName in allGenres.vals {
        return;
      }
      RetagItems(IsGenre(genreName), newName);
      var _ := LoadGenresData(now);
    }

    /**
     * `applyGenreChanges()`: with no recorded edit nothing happens
     * (`None`); otherwise the number of edited items is reported and the
     * record is cleared.
     */
    method ApplyGenreChanges() returns (applied: Option<nat>)
      requires Valid()
      modifies this
      ensures Valid()
      ensures old(genreChanges).keys == [] ==> applied.None? && genreChanges == old(genreChanges)
      ensures old(genreChanges).keys != [] ==> applied == Some(|old(genreChanges).keys|) && genreChanges == Empty()
      ensures allData == old(allData) && changedItems == old(changedItems)
      ensures allGenres == old(allGenres) && selectedGenres == old(selectedGenres)
    {
      if genreChanges.keys == [] {
        return None;
      }
      applied := Some(|genreChanges.keys|);
      genreChanges := Empty();
    }

    /** The check box of a genre: `selectedGenres.add(name)` or `selectedGenres.delete(name)`. */
    method SelectGenre(name: string, checked: bool)
      requires Valid()
      modifies this
      ensures Valid()
      ensures selectedGenres == if checked then Added(old(selectedGenres), name) else RemoveValue(old(selectedGenres), name)
      ensures Bookkeeping() == old(Bookkeeping()) && allGenres == old(allGenres)
    {
      if checked {
        selectedGenres := Added(selectedGenres, name);
      } else {
        selectedGenres := RemoveValue(selectedGenres, name);
      }
    }

    /** `selectAllGenres()`: every genre the list draws is added to the selection. */
    method SelectAllGenres(drawn: seq<GenreInfo>)
      requires Valid()
      modifies this
      ensures Valid()
      ensures selectedGenres == SelectedAll(old(selectedGenres), drawn)
      ensures Bookkeeping() == old(Bookkeeping()) && allGenres == old(allGenres)
    {
      var i := 0;
      while i < |drawn|
        invariant 0 <= i <= |drawn|
        invariant Valid() && Bookkeeping() == old(Bookkeeping()) && allGenres == old(allGenres)
        invariant selectedGenres == SelectedAll(old(selectedGenres), drawn[..i])
      {
        assert drawn[..i + 1][..i] == drawn[..i];
        selectedGenres := Added(selectedGenres, drawn[i].name);
        i := i + 1;
      }
      assert drawn[..i] == drawn;
    }

    /** `clearGenreSelection()` */
    method ClearGenreSelection()
      requires Valid()
      modifies this
      ensures Valid()
      ensures selectedGenres == []
      ensures Bookkeeping() == old(Bookkeeping()) && allGenres == old(allGenres)
    {
      selectedGenres := [];
    }
  }

  /** Whether `deleteSelectedGenres()` goes on to clear the genres. */
  predicate DeleteGoesAhead(data: Catalog, sel: seq<string>, confirmed: bool)
    requires data.Valid()
  {
    |sel| > 0 && (confirmed || MatchingUpTo(data, InSelection(sel), |data.keys|) == 0)
  }

  /** Whether `editGenre` refuses the answer `input`. */
  predicate RenameRefused(t: GenreTable, genreName: string, input: Option<string>) {
    BlankAnswer(input) || Trim(input.value) == genreName || Trim(input.value) in t.vals
  }

  /** Deleting when no item carries a selected genre changes no item, no pending change and no record. */
  lemma UnusedDeleteTouchesNothing(b: Books, sel: seq<string>)
    requires BooksValid(b) && MatchingUpTo(b.data, InSelection(sel), |b.data.keys|) == 0
    ensures Retag(b, InSelection(sel), "") == b
  {
    NoMatchNoChange(b, InSelection(sel), "", |b.data.keys|);
  }
}
