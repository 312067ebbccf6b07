/**
 * The JSON editor's cell-level logic: how a row is identified, how the text
 * typed into a cell becomes a value, how a value is checked for its column,
 * how column headers are labelled, which columns are shown at first, and how
 * Tab moves the cell editor.
 */
module JsonCells {
  import opened Values
  import opened Collections

  // ---------------------------------------------------------------------
  // Rows and their identity

  /** `Object.entries(raw).map(([id, item]) => ({id, ...item}))`: the item's own `id` field, if any, wins. */
  function Rows(doc: OMap<string, Item>): (rows: seq<Item>)
    requires doc.Valid()
  {
    seq(|doc.keys|, i requires 0 <= i < |doc.keys| => map["id" := Str(doc.keys[i])] + doc.vals[doc.keys[i]])
  }

  /** `item.id || this.data.indexOf(item)`: the key a row is looked up and selected by. */
  function RowKey(data: seq<Item>, i: nat): Value
    requires i < |data|
  {
    Or(Get(data[i], "id"), Num(i))
  }

  /** `this.data.find(item => (item.id || this.data.indexOf(item)) == itemId)`, as a position. */
  function FindRow(data: seq<Item>, itemId: Value): (r: Option<nat>)
    ensures r.Some? ==> r.value < |data| && LooseEq(RowKey(data, r.value), itemId)
    ensures r.Some? ==> forall j :: 0 <= j < r.value ==> !LooseEq(RowKey(data, j), itemId)
    ensures r.None? ==> forall j :: 0 <= j < |data| ==> !LooseEq(RowKey(data, j), itemId)
  {
    FindFrom(data, itemId, 0)
  }

  function FindFrom(data: seq<Item>, itemId: Value, k: nat): (r: Option<nat>)
    requires k <= |data|
    ensures r.Some? ==> k <= r.value < |data| && LooseEq(RowKey(data, r.value), itemId)
    ensures r.Some? ==> forall j :: k <= j < r.value ==> !LooseEq(RowKey(data, j), itemId)
    ensures r.None? ==> forall j :: k <= j < |data| ==> !LooseEq(RowKey(data, j), itemId)
    decreases |data| - k
  {
    if k == |data| then None
    else if LooseEq(RowKey(data, k), itemId) then Some(k)
    else FindFrom(data, itemId, k + 1)
  }

  /** Two tables whose rows carry the same keys resolve every id to the same row. */
  lemma {:induction false} FindRowSameKeys(d1: seq<Item>, d2: seq<Item>, itemId: Value, k: nat)
    requires |d1| == |d2| && k <= |d1|
    requires forall j :: 0 <= j < |d1| ==> Get(d1[j], "id") == Get(d2[j], "id")
    ensures FindFrom(d1, itemId, k) == FindFrom(d2, itemId, k)
    decreases |d1| - k
  {
    if k < |d1| {
      var same := RowKey(d1, k) == RowKey(d2, k);
      assert same;
      FindRowSameKeys(d1, d2, itemId, k + 1);
    }
  }

  /** The search stops at the first row whose key matches. */
  lemma {:induction false} FindFromFirstMatch(data: seq<Item>, itemId: Value, k: nat, i: nat)
    requires k <= i < |data| && LooseEq(RowKey(data, i), itemId)
    requires forall j :: k <= j < i ==> !LooseEq(RowKey(data, j), itemId)
    ensures FindFrom(data, itemId, k) == Some(i)
    decreases i - k
  {
    if k < i {
      FindFromFirstMatch(data, itemId, k + 1, i);
    }
  }

  /** Changing a field other than `id` leaves every row's key as it was. */
  lemma EditKeepsKeys(data: seq<Item>, i: nat, column: string, v: Value)
    requires i < |data| && column != "id"
    ensures forall j :: 0 <= j < |data| ==> Get(data[i := data[i][column := v]][j], "id") == Get(data[j], "id")
  {
  }

  /**
   * In a freshly loaded table whose items carry no `id` field of their own and
   * whose keys are non-empty, looking a key up finds that key's own row.
   */
  lemma LoadedRowFound(doc: OMap<string, Item>, i: nat)
    requires doc.Valid() && i < |doc.keys|
    requires forall k :: k in doc.vals ==> "id" !in doc.vals[k]
    requires forall j :: 0 <= j < |doc.keys| ==> doc.keys[j] != ""
    ensures FindRow(Rows(doc), Str(doc.keys[i])) == Some(i)
  {
    var rows := Rows(doc);
    forall j | 0 <= j < |rows|
      ensures RowKey(rows, j) == Str(doc.keys[j])
    {
      assert doc.keys[j] in doc.vals;
      assert Get(rows[j], "id") == Str(doc.keys[j]);
    }
    forall j | 0 <= j < i
      ensures !LooseEq(RowKey(rows, j), Str(doc.keys[i]))
    {
      assert doc.keys[j] != doc.keys[i];
    }
    FindFromFirstMatch(rows, Str(doc.keys[i]), 0, i);
  }

  // ---------------------------------------------------------------------
  // Column names and groups

  const NumericColumns: seq<string> := ["real_published_year", "view_count", "like_count", "duration"]
  const ListColumns: seq<string> := ["categories", "tags"]
  const Languages: seq<string> := ["it", "en", "fr", "de", "es", "pt", "ru", "ja", "zh", "ar"]

  /** A `\w` character. */
  predicate IsWordChar(c: char) {
    ('a' <= c <= 'z') || ('A' <= c <= 'Z') || ('0' <= c <= '9') || c == '_'
  }

  function UpperChar(c: char): (r: char)
    ensures 'a' <= c <= 'z' ==> 'A' <= r <= 'Z'
    ensures !('a' <= c <= 'z') ==> r == c
  {
    if 'a' <= c <= 'z' then (c as int - 32) as char else c
  }

  /** `.replace(/\b\w/g, l => l.toUpperCase())`, told whether a word boundary precedes `s`. */
  function CapitalizeWords(s: string, atBoundary: bool): (r: string)
    ensures |r| == |s|
    ensures forall i :: 0 <= i < |s| ==> r[i] == s[i] || r[i] == UpperChar(s[i])
    ensures s != [] && atBoundary ==> r[0] == UpperChar(s[0])
  {
    if s == [] then []
    else [if atBoundary then UpperChar(s[0]) else s[0]] + CapitalizeWords(s[1..], !IsWordChar(s[0]))
  }

  /**
   * `column.replace(/_/g, ' ').replace(/\b\w/g, l => l.toUpperCase())`: underscores
   * become spaces and the first letter of each word is upper-cased; nothing else moves.
   */
  function FormatColumnName(column: string): (r: string)
    ensures |r| == |column|
    ensures forall i :: 0 <= i < |r| ==> r[i] != '_'
    ensures forall i :: 0 <= i < |r| && column[i] != '_' ==> r[i] == column[i] || r[i] == UpperChar(column[i])
    ensures forall i :: 0 <= i < |r| && column[i] == '_' ==> r[i] == ' '
  {
    var spaced := seq(|column|, i requires 0 <= i < |column| => if column[i] == '_' then ' ' else column[i]);
    CapitalizeWords(spaced, true)
  }

  // ---------------------------------------------------------------------
  // Cell validation

  /**
   * `validateCellValue(value, column)`: the error messages for a value about to be
   * written into `column`. `currentYear` is the clock's year; `isUrl` stands for
   * whether `new URL(s)` accepts `s`.
   */
  function ValidateCellValue(value: Value, column: string, currentYear: int, isUrl: string -> bool): (errors: seq<string>)
    ensures |errors| <= 1
    ensures IsNullish(value) ==> errors == []
    ensures (column !in NumericColumns && column !in ListColumns && column != "real_language" &&
             column != "url" && column != "thumbnail") ==> errors == []
  {
    if column == "real_published_year" then
      if IsNullish(value) then []
      else
        var year := ParseIntValue(value);
        if year.None? || year.value < 0 || year.value > currentYear + 10 then
          ["Anno di pubblicazione non valido: " + ToStr(value)]
        else []
    else if column == "view_count" || column == "like_count" || column == "duration" then
      if !IsNullish(value) && ParseFloatVerdict(ToStr(value)) != NonNegative then
        [FormatColumnName(column) + " deve essere un numero positivo"]
      else []
    else if column == "real_language" then
      if value.Str? && value.s != "" && Lower(value.s) !in Languages then
        ["Codice lingua non riconosciuto: " + value.s]
      else []
    else if column == "url" || column == "thumbnail" then
      if value.Str? && value.s != "" && !isUrl(value.s) then ["URL non valido: " + value.s]
      else []
    else if column == "categories" || column == "tags" then
      if value.List? && exists i :: 0 <= i < |value.elems| && !IsNonBlankText(value.elems[i]) then
        [FormatColumnName(column) + " devono essere stringhe non vuote"]
      else []
    else []
  }

  /** A string element with something other than whitespace in it. */
  predicate IsNonBlankText(v: Value) {
    v.Str? && !IsBlank(v.s)
  }

  /** A numeric year is accepted exactly when it lies between 0 and ten years from now. */
  lemma YearCellAccepted(y: int, currentYear: int, isUrl: string -> bool)
    ensures ValidateCellValue(Num(y), "real_published_year", currentYear, isUrl) == [] <==> 0 <= y <= currentYear + 10
  {
    ParseIntOfNum(y);
  }

  /** A numeric count or duration is accepted exactly when it is not negative. */
  lemma CountCellAccepted(n: int, column: string, currentYear: int, isUrl: string -> bool)
    requires column == "view_count" || column == "like_count" || column == "duration"
    ensures ValidateCellValue(Num(n), column, currentYear, isUrl) == [] <==> n >= 0
  {
    ParseFloatOfNum(n);
  }

  /** A language code is accepted exactly when it is empty or one of the ten known codes, in any case. */
  lemma LanguageCellAccepted(s: string, currentYear: int, isUrl: string -> bool)
    ensures ValidateCellValue(Str(s), "real_language", currentYear, isUrl) == [] <==> s == "" || Lower(s) in Languages
  {
  }

  /** A list of categories or tags is accepted exactly when every element is a non-blank string. */
  lemma ListCellAccepted(elems: seq<Value>, column: string, currentYear: int, isUrl: string -> bool)
    requires column in ListColumns
    ensures ValidateCellValue(List(elems), column, currentYear, isUrl) == [] <==>
            forall i :: 0 <= i < |elems| ==> IsNonBlankText(elems[i])
  {
  }

  // ---------------------------------------------------------------------
  // Parsing what was typed

  /** `Number(text)` when it is a finite number, the text itself otherwise. */
  function NumberOrText(text: string): (v: Value)
    ensures v.Num? || v == Str(text)
  {
    match NumberOf(text)
    case Some(n) => Num(n)
    case None => Str(text)
  }

  /** `text.split(',').map(item => item.trim()).filter(item => item)` */
  function ListEntries(text: string): (r: seq<Value>)
    ensures forall i :: 0 <= i < |r| ==> StartsVisible(r[i])
  {
    TrimmedNonEmpty(Split(text, ','))
  }

  function TrimmedNonEmpty(parts: seq<string>): (r: seq<Value>)
    ensures |r| <= |parts|
    ensures forall i :: 0 <= i < |r| ==> StartsVisible(r[i])
  {
    if parts == [] then []
    else
      var t := Trim(parts[0]);
      var rest := TrimmedNonEmpty(parts[1..]);
      if t == [] then rest
      else
        [Str(t)] + rest
  }

  /** A string whose first character is not whitespace. */
  predicate StartsVisible(v: Value) {
    v.Str? && v.s != [] && !IsSpace(v.s[0])
  }

  lemma StartsVisibleNonBlank(v: Value)
    requires StartsVisible(v)
    ensures IsNonBlankText(v)
  {
    BlankIffAllSpace(v.s);
  }

  /**
   * `parseValue(text, column)`: what the text typed into a cell becomes. `JSON.parse`
   * of object and array literals in the generic branch is not modelled; such text
   * stays a string.
   */
  function ParseValue(text: string, column: string): (v: Value)
    ensures text == "" || text == "null" ==> v == Null
    ensures v != Undefined
  {
    if text == "" || text == "null" then Null
    else if column == "processed" then Bool(text == "true")
    else if column in NumericColumns then NumberOrText(text)
    else if column in ListColumns then List(ListEntries(text))
    else if text == "true" then Bool(true)
    else if text == "false" then Bool(false)
    else NumberOrText(text)
  }

  /** Whatever is typed into a categories or tags cell passes that column's validation. */
  lemma ParsedListAccepted(text: string, column: string, currentYear: int, isUrl: string -> bool)
    requires column in ListColumns
    ensures ValidateCellValue(ParseValue(text, column), column, currentYear, isUrl) == []
  {
    if text != "" && text != "null" {
      assert column != "processed" && column !in NumericColumns;
      var elems := ListEntries(text);
      assert ParseValue(text, column) == List(elems);
      forall i | 0 <= i < |elems| ensures IsNonBlankText(elems[i]) {
        StartsVisibleNonBlank(elems[i]);
      }
      ListCellAccepted(elems, column, currentYear, isUrl);
    }
  }

  /** A year written in digits reads back as that year, and is accepted when it is not in the far future. */
  lemma ParsedYearRoundTrip(y: nat, currentYear: int, isUrl: string -> bool)
    ensures ParseValue(NatToString(y), "real_published_year") == Num(y)
    ensures y <= currentYear + 10 ==>
            ValidateCellValue(ParseValue(NatToString(y), "real_published_year"), "real_published_year", currentYear, isUrl) == []
  {
    NumberOfNatToString(y);
    assert NatToString(y) != "null" by {
      assert IsDigit(NatToString(y)[0]);
    }
    YearCellAccepted(y, currentYear, isUrl);
  }

  /** A count written in digits is stored as a number, and that number passes validation. */
  lemma ParsedCountAccepted(n: nat, column: string, currentYear: int, isUrl: string -> bool)
    requires column == "view_count" || column == "like_count" || column == "duration"
    ensures ParseValue(NatToString(n), column) == Num(n)
    ensures ValidateCellValue(ParseValue(NatToString(n), column), column, currentYear, isUrl) == []
  {
    var text := NatToString(n);
    NumberOfNatToString(n);
    assert text != "" && text != "null" by {
      assert IsDigit(text[0]);
    }
    assert column != "processed" && column in NumericColumns;
    assert NumberOrText(text) == Num(n);
    CountCellAccepted(n, column, currentYear, isUrl);
  }

  // ---------------------------------------------------------------------
  // Columns shown at first

  const HiddenByDefault: seq<string> :=
    ["processed", "view_count", "like_count", "duration", "upload_date", "thumbnail",
     "url", "audio_file", "summary", "categories", "tags", "description"]
  const PriorityColumns: seq<string> :=
    ["id", "real_title", "real_author", "real_genre", "content_type", "real_language",
     "real_published_year", "real_narrator"]
  const ImportantColumns: seq<string> := ["title", "channel_name", "real_synopsis"]
  const MaxInitialColumns := 15

  /** The priority columns present, then the important ones present and not yet shown. */
  function PreferredColumns(columns: seq<string>): (r: seq<string>)
    ensures forall c :: c in r ==> c in columns && c !in HiddenByDefault && c != "transcript"
    ensures forall c :: c in columns && (c in PriorityColumns || c in ImportantColumns) ==> c in r
    ensures Distinct(r) && |r| <= 11
  {
    PreferredMembers(columns);
    PreferredDistinct(columns);
    Filter(PriorityColumns, c => c in columns) + Filter(ImportantColumns, c => c in columns)
  }

  lemma PreferredMembers(columns: seq<string>)
    ensures var r := Filter(PriorityColumns, c => c in columns) + Filter(ImportantColumns, c => c in columns);
      (forall c :: c in r ==> c in columns && c !in HiddenByDefault && c != "transcript") &&
      (forall c :: c in columns && (c in PriorityColumns || c in ImportantColumns) ==> c in r) &&
      |r| <= 11
  {
    PreferredNeverHidden();
  }

  lemma PreferredDistinct(columns: seq<string>)
    ensures Distinct(Filter(PriorityColumns, c => c in columns) + Filter(ImportantColumns, c => c in columns))
  {
    var p := Filter(PriorityColumns, c => c in columns);
    var q := Filter(ImportantColumns, c => c in columns);
    DistinctFilter(PriorityColumns, c => c in columns);
    DistinctFilter(ImportantColumns, c => c in columns);
    PreferredNeverHidden();
    DistinctConcat(p, q);
  }

  /** No preferred column is among those hidden by default, and the two lists do not overlap. */
  lemma PreferredNeverHidden()
    ensures forall c :: c in PriorityColumns ==> c !in HiddenByDefault && c != "transcript" && c !in ImportantColumns
    ensures forall c :: c in ImportantColumns ==> c !in HiddenByDefault && c != "transcript"
    ensures Distinct(PriorityColumns) && Distinct(ImportantColumns)
  {
    forall c | c in PriorityColumns
      ensures c !in HiddenByDefault && c != "transcript" && c !in ImportantColumns
    {
      assert c[0] == 'i' || c[0] == 'r' || c[0] == 'c';
    }
  }

  /** The columns still eligible after the preferred ones: neither shown, hidden by default, nor `transcript`. */
  function Eligible(columns: seq<string>, shown: seq<string>): (r: seq<string>)
    ensures forall c :: c in r <==> c in columns && c !in shown && c !in HiddenByDefault && c != "transcript"
  {
    Filter(columns, c => c !in shown && c !in HiddenByDefault && c != "transcript")
  }

  /**
   * The columns shown when a table is loaded: the preferred ones, then eligible
   * ones in alphabetical order until fifteen are shown or none is left.
   */
  function InitialColumns(columns: seq<string>): (r: seq<string>)
    requires Distinct(columns)
    ensures Distinct(r) && |r| <= MaxInitialColumns
    ensures forall c :: c in r ==> c in columns && c !in HiddenByDefault && c != "transcript"
    ensures forall c :: c in columns && (c in PriorityColumns || c in ImportantColumns) ==> c in r
    ensures |r| < MaxInitialColumns ==>
            forall c :: c in columns && c !in HiddenByDefault && c != "transcript" ==> c in r
  {
    var p := PreferredColumns(columns);
    var e := Eligible(columns, p);
    DistinctFilter(columns, c => c !in p && c !in HiddenByDefault && c != "transcript");
    var n := if MaxInitialColumns - |p| < |e| then MaxInitialColumns - |p| else |e|;
    var r := p + e[..n];
    assert forall c :: c in e[..n] ==> c in e;
    assert Distinct(r) by {
      forall i, j | 0 <= i < j < |r| ensures r[i] != r[j] {
        if i < |p| && j >= |p| {
          assert r[j] in e;
        }
      }
    }
    assert |r| < MaxInitialColumns ==> e[..n] == e;
    r
  }

  /** The shown columns are the preferred ones followed by as many eligible ones as fit. */
  lemma InitialColumnsSplit(columns: seq<string>)
    requires Distinct(columns)
    ensures var p := PreferredColumns(columns);
            var e := Eligible(columns, p);
            InitialColumns(columns) == p + e[..if MaxInitialColumns - |p| < |e| then MaxInitialColumns - |p| else |e|]
  {
  }

  /** `columns.filter(col => !visible.includes(col))` */
  function HiddenColumns(columns: seq<string>, visible: seq<string>): (r: seq<string>)
    ensures forall c :: c in r <==> c in columns && c !in visible
  {
    Filter(columns, c => c !in visible)
  }

  /** Step through a cell editor with Tab (`reverse` for Shift+Tab), wrapping between rows. */
  function NextCell(row: int, col: int, width: nat, reverse: bool): (next: (int, int))
    requires width > 0 && -1 <= col < width
    ensures 0 <= next.1 < width
  {
    if reverse then
      if col - 1 < 0 then (row - 1, width - 1) else (row, col - 1)
    else
      if col + 1 >= width then (row + 1, 0) else (row, col + 1)
  }

  /**
   * Within a row of `width` visible columns, Tab moves to the next cell in reading
   * order and Shift+Tab to the previous one; each undoes the other.
   */
  lemma NextCellReadingOrder(row: int, col: int, width: nat)
    requires width > 0 && 0 <= col < width
    ensures var n := NextCell(row, col, width, false);
            n.0 * width + n.1 == row * width + col + 1
    ensures var p := NextCell(row, col, width, true);
            p.0 * width + p.1 == row * width + col - 1
    ensures var n := NextCell(row, col, width, false);
            NextCell(n.0, n.1, width, true) == (row, col)
    ensures var p := NextCell(row, col, width, true);
            NextCell(p.0, p.1, width, false) == (row, col)
  {
    assert (row + 1) * width == row * width + width;
    assert (row - 1) * width == row * width - width;
  }
}
