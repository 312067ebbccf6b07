/**
 * The export and display helpers of the main page (public/script.js):
 * XML text escaping, the CSV rendering of the exported items, and the
 * duration and upload-date formatting of the item cards.
 */
module Export {
  import opened Values
  import opened Collections

  // ---------------------------------------------------------------------
  // Global replacement

  /** `s.replace(/c/g, rep)` for a single character `c`. */
  function ReplaceAll(s: string, c: char, rep: string): (r: string)
    ensures c !in s ==> r == s
    ensures c !in rep ==> c !in r
    ensures |rep| >= 1 ==> |r| >= |s|
    decreases |s|
  {
    if s == [] then []
    else (if s[0] == c then rep else [s[0]]) + ReplaceAll(s[1..], c, rep)
  }

  lemma {:induction false} ReplaceAllAppend(a: string, b: string, c: char, rep: string)
    ensures ReplaceAll(a + b, c, rep) == ReplaceAll(a, c, rep) + ReplaceAll(b, c, rep)
    decreases |a|
  {
    if a != [] {
      assert (a + b)[1..] == a[1..] + b;
      ReplaceAllAppend(a[1..], b, c, rep);
    } else {
      assert a + b == b;
    }
  }

  // ---------------------------------------------------------------------
  // XML escaping

  /** `escapeXml`: five global replacements, the ampersand first. */
  function EscapeXml(text: string): (r: string)
    ensures |r| >= |text|
  {
    ReplaceAll(ReplaceAll(ReplaceAll(ReplaceAll(ReplaceAll(
      text, '&', "&amp;"), '<', "&lt;"), '>', "&gt;"), '"', "&quot;"), '\'', "&#39;")
  }

  /** The entity a single character becomes. */
  function EscapeChar(c: char): (r: string)
    ensures |r| >= 1
    ensures NoMarkup(r)
  {
    if c == '&' then "&amp;"
    else if c == '<' then "&lt;"
    else if c == '>' then "&gt;"
    else if c == '"' then "&quot;"
    else if c == '\'' then "&#39;"
    else [c]
  }

  /** A reference definition: every character escaped on its own, in one pass. */
  function EscapeEach(text: string): (r: string)
    ensures |r| >= |text|
    ensures NoMarkup(r)
    decreases |text|
  {
    if text == [] then [] else EscapeChar(text[0]) + EscapeEach(text[1..])
  }

  /** No character that XML reserves for markup, other than the ampersand. */
  predicate NoMarkup(s: string) {
    '<' !in s && '>' !in s && '"' !in s && '\'' !in s
  }

  lemma ReplaceAllOne(x: char, c: char, rep: string)
    ensures ReplaceAll([x], c, rep) == if x == c then rep else [x]
  {
    assert [x][1..] == [];
  }

  lemma EscapeXmlChar(c: char)
    ensures EscapeXml([c]) == EscapeChar(c)
  {
    ReplaceAllOne(c, '&', "&amp;");
    var s1 := ReplaceAll([c], '&', "&amp;");
    if c == '&' {
      assert s1 == "&amp;";
      assert '<' !in s1 && '>' !in s1 && '"' !in s1 && '\'' !in s1;
    } else {
      assert s1 == [c];
      ReplaceAllOne(c, '<', "&lt;");
      var s2 := ReplaceAll(s1, '<', "&lt;");
      if c == '<' {
        assert s2 == "&lt;";
        assert '>' !in s2 && '"' !in s2 && '\'' !in s2;
      } else {
        assert s2 == [c];
        ReplaceAllOne(c, '>', "&gt;");
        var s3 := ReplaceAll(s2, '>', "&gt;");
        if c == '>' {
          assert s3 == "&gt;";
          assert '"' !in s3 && '\'' !in s3;
        } else {
          assert s3 == [c];
          ReplaceAllOne(c, '"', "&quot;");
          var s4 := ReplaceAll(s3, '"', "&quot;");
          if c == '"' {
            assert s4 == "&quot;";
            assert '\'' !in s4;
          } else {
            assert s4 == [c];
            ReplaceAllOne(c, '\'', "&#39;");
          }
        }
      }
    }
  }

  /** The escaped text holds no `<`, `>`, `"` or `'`: it can sit inside an element or an attribute value. */
  lemma EscapeXmlNoMarkup(text: string)
    ensures NoMarkup(EscapeXml(text))
  {
    EscapeXmlIsPerCharacter(text);
  }

  /**
   * Replacing `&` first means no entity written by a later pass is escaped
   * again: the five passes escape every character exactly once.
   */
  lemma {:induction false} EscapeXmlIsPerCharacter(text: string)
    ensures EscapeXml(text) == EscapeEach(text)
    decreases |text|
  {
    if text != [] {
      var a, b := [text[0]], text[1..];
      assert text == a + b;
      ReplaceAllAppend(a, b, '&', "&amp;");
      var a1, b1 := ReplaceAll(a, '&', "&amp;"), ReplaceAll(b, '&', "&amp;");
      ReplaceAllAppend(a1, b1, '<', "&lt;");
      var a2, b2 := ReplaceAll(a1, '<', "&lt;"), ReplaceAll(b1, '<', "&lt;");
      ReplaceAllAppend(a2, b2, '>', "&gt;");
      var a3, b3 := ReplaceAll(a2, '>', "&gt;"), ReplaceAll(b2, '>', "&gt;");
      ReplaceAllAppend(a3, b3, '"', "&quot;");
      var a4, b4 := ReplaceAll(a3, '"', "&quot;"), ReplaceAll(b3, '"', "&quot;");
      ReplaceAllAppend(a4, b4, '\'', "&#39;");
      assert EscapeXml(text) == EscapeXml(a) + EscapeXml(b);
      EscapeXmlChar(text[0]);
      EscapeXmlIsPerCharacter(b);
    }
  }

  /** What an XML reader makes of the escaped text: the five entities decoded. */
  function UnescapeXml(s: string): (r: string)
    ensures |r| <= |s|
    decreases |s|
  {
    if s == [] then []
    else if StartsWith(s, "&amp;") then "&" + UnescapeXml(s[5..])
    else if StartsWith(s, "&lt;") then "<" + UnescapeXml(s[4..])
    else if StartsWith(s, "&gt;") then ">" + UnescapeXml(s[4..])
    else if StartsWith(s, "&quot;") then "\"" + UnescapeXml(s[6..])
    else if StartsWith(s, "&#39;") then "'" + UnescapeXml(s[5..])
    else [s[0]] + UnescapeXml(s[1..])
  }

  /** A prefix test fails as soon as one position differs. */
  lemma DiffersAt(s: string, p: string, i: nat)
    requires i < |p| && i < |s| && s[i] != p[i]
    ensures !StartsWith(s, p)
  {
    if |p| <= |s| {
      assert s[..|p|][i] == s[i];
    }
  }

  lemma UnescapeEntity(s: string, entity: string, c: char, rest: string)
    requires s == entity + rest && entity == EscapeChar(c) && |entity| > 1
    ensures UnescapeXml(s) == [c] + UnescapeXml(rest)
  {
    assert s[..|entity|] == entity && s[|entity|..] == rest;
    assert s[0] == '&' && s[1] == entity[1];
    if c != '&' {
      DiffersAt(s, "&amp;", 1);
    }
    if c != '<' && c != '&' {
      DiffersAt(s, "&lt;", 1);
    }
    if c == '"' || c == '\'' {
      DiffersAt(s, "&gt;", 1);
    }
    if c == '\'' {
      DiffersAt(s, "&quot;", 1);
    }
  }

  lemma UnescapeAfterChar(c: char, rest: string)
    ensures UnescapeXml(EscapeChar(c) + rest) == [c] + UnescapeXml(rest)
  {
    var s := EscapeChar(c) + rest;
    if c == '&' || c == '<' || c == '>' || c == '"' || c == '\'' {
      UnescapeEntity(s, EscapeChar(c), c, rest);
    } else {
      assert s[0] == c && s[1..] == rest;
      DiffersAt(s, "&amp;", 0);
      DiffersAt(s, "&lt;", 0);
      DiffersAt(s, "&gt;", 0);
      DiffersAt(s, "&quot;", 0);
      DiffersAt(s, "&#39;", 0);
    }
  }

  /** Escaping loses nothing: decoding the entities gives the original text back. */
  lemma {:induction false} UnescapeEscapeXml(text: string)
    ensures UnescapeXml(EscapeXml(text)) == text
    decreases |text|
  {
    EscapeXmlIsPerCharacter(text);
    UnescapeEach(text);
  }

  lemma {:induction false} UnescapeEach(text: string)
    ensures UnescapeXml(EscapeEach(text)) == text
    decreases |text|
  {
    if text != [] {
      UnescapeAfterChar(text[0], EscapeEach(text[1..]));
      UnescapeEach(text[1..]);
    }
  }

  // ---------------------------------------------------------------------
  // CSV

  /**
   * An exported item with its fields in their own order (`Object.keys(item)`):
   * the column order of the CSV depends on it.
   */
  type Row = OMap<string, Value>

  /** The fields of all rows, row after row, each row's fields in order. */
  function AllKeys(rows: seq<Row>): (r: seq<string>)
    decreases |rows|
  {
    if rows == [] then [] else AllKeys(rows[..|rows| - 1]) + rows[|rows| - 1].keys
  }

  lemma {:induction false} AllKeysMembership(rows: seq<Row>, k: string)
    ensures k in AllKeys(rows) <==> exists i :: 0 <= i < |rows| && k in rows[i].keys
    decreases |rows|
  {
    if rows != [] {
      var init := rows[..|rows| - 1];
      AllKeysMembership(init, k);
      if k in AllKeys(init) {
        var i :| 0 <= i < |init| && k in init[i].keys;
        assert rows[i] == init[i];
      }
      if exists i :: 0 <= i < |rows| && k in rows[i].keys {
        var i :| 0 <= i < |rows| && k in rows[i].keys;
        if i < |init| {
          assert init[i] == rows[i];
        }
      }
    }
  }

  /** The CSV header: every field of every row, each once, in first-seen order (`Array.from(new Set(...))`). */
  function Headers(rows: seq<Row>): (r: seq<string>)
  {
    Dedupe(AllKeys(rows))
  }

  lemma DedupeSnoc(s: seq<string>, k: string)
    ensures Dedupe(s + [k]) == if k in Dedupe(s) then Dedupe(s) else Dedupe(s) + [k]
  {
    assert (s + [k])[..|s + [k]| - 1] == s;
  }

  /** The header loop of `convertToCSV`: each field of each row is added to an insertion-ordered set. */
  method CollectHeaders(rows: seq<Row>) returns (headers: seq<string>)
    ensures headers == Headers(rows)
    ensures Distinct(headers)
    ensures forall k :: k in headers <==> exists i :: 0 <= i < |rows| && k in rows[i].keys
  {
    headers := [];
    var i := 0;
    while i < |rows|
      invariant 0 <= i <= |rows|
      invariant headers == Dedupe(AllKeys(rows[..i]))
    {
      headers := AddKeys(headers, AllKeys(rows[..i]), rows[i].keys);
      assert rows[..i + 1][..i] == rows[..i];
      i := i + 1;
    }
    assert rows[..i] == rows;
    forall k ensures k in headers <==> exists i :: 0 <= i < |rows| && k in rows[i].keys {
      AllKeysMembership(rows, k);
    }
  }

  /** `Object.keys(item).forEach(key => keys.add(key))` */
  method AddKeys(headers: seq<string>, seen: seq<string>, keys: seq<string>) returns (r: seq<string>)
    requires headers == Dedupe(seen)
    ensures r == Dedupe(seen + keys)
  {
    r := headers;
    var j := 0;
    assert seen + keys[..0] == seen;
    while j < |keys|
      invariant 0 <= j <= |keys|
      invariant r == Dedupe(seen + keys[..j])
    {
      DedupeSnoc(seen + keys[..j], keys[j]);
      assert seen + keys[..j + 1] == seen + keys[..j] + [keys[j]];
      if keys[j] !in r {
        r := r + [keys[j]];
      }
      j := j + 1;
    }
    assert keys[..j] == keys;
  }

  /** `value.join('; ')` of an array: nullish elements print as the empty string. */
  function ListText(es: seq<Value>): (r: string)
    ensures |es| == 1 && !IsNullish(es[0]) ==> r == ToStr(es[0])
  {
    Join(seq(|es|, k requires 0 <= k < |es| => if IsNullish(es[k]) then "" else ToStr(es[k])), "; ")
  }

  /** `s.replace(/"/g, '""')` */
  function DoubleQuotes(s: string): (r: string)
    ensures |r| >= |s|
  {
    ReplaceAll(s, '"', "\"\"")
  }

  /**
   * One cell: an array is quoted as its `"; "`-joined elements, a string is
   * quoted with its quotes doubled, anything else prints as itself when
   * truthy and as the empty string otherwise.
   */
  function CsvCell(v: Value): (r: string)
    ensures v.Str? || v.List? ==> |r| >= 2 && r[0] == '"' && r[|r| - 1] == '"'
    ensures !Truthy(v) && !v.Str? ==> r == ""
    ensures v.Num? && v.n != 0 ==> r == IntToString(v.n)
  {
    match v
    case List(es) => "\"" + ListText(es) + "\""
    case Str(s) => "\"" + DoubleQuotes(s) + "\""
    case _ => if Truthy(v) then ToStr(v) else ""
  }

  /** A data line: the row's value under each header, a missing field as an empty cell. */
  function CsvLine(row: Row, headers: seq<string>): (r: string)
    ensures headers == [] ==> r == ""
  {
    Join(seq(|headers|, k requires 0 <= k < |headers| => CsvCell(Get(row.vals, headers[k]))), ",")
  }

  /** `convertToCSV(data)` applied to `Object.values(data)`. */
  function CsvText(rows: seq<Row>): (r: string)
    ensures rows == [] <==> r == ""
  {
    if rows == [] then ""
    else
      var headers := Headers(rows);
      var text := Join([Join(headers, ",")] + seq(|rows|, i requires 0 <= i < |rows| => CsvLine(rows[i], headers)), "\n");
      assert |rows| >= 1;
      JoinNonEmptyTail([Join(headers, ",")], seq(|rows|, i requires 0 <= i < |rows| => CsvLine(rows[i], headers)), "\n");
      text
  }

  /** Joining with a non-empty separator two or more parts gives a non-empty text. */
  lemma JoinNonEmptyTail(head: seq<string>, tail: seq<string>, sep: string)
    requires |head| == 1 && |tail| >= 1 && |sep| >= 1
    ensures Join(head + tail, sep) != ""
  {
    var parts := head + tail;
    assert |parts| >= 2;
    assert |Join(parts, sep)| >= |sep|;
  }

  /** `convertToCSV`: the header loop, then one line per item. */
  method ConvertToCsv(rows: seq<Row>) returns (csv: string)
    ensures csv == CsvText(rows)
  {
    if |rows| == 0 {
      return "";
    }
    var headers := CollectHeaders(rows);
    csv := Join([Join(headers, ",")] + seq(|rows|, i requires 0 <= i < |rows| => CsvLine(rows[i], headers)), "\n");
  }

  /** A CSV reader's view of the inside of a quoted field: a doubled quote stands for one quote. */
  function UndoubleQuotes(s: string): (r: string)
    ensures |r| <= |s|
    decreases |s|
  {
    if s == [] then []
    else if StartsWith(s, "\"\"") then "\"" + UndoubleQuotes(s[2..])
    else [s[0]] + UndoubleQuotes(s[1..])
  }

  /** Inside a quoted string cell every quote is doubled, so no quote ends the field early. */
  predicate QuotesPaired(s: string)
    decreases |s|
  {
    if s == [] then true
    else if s[0] != '"' then QuotesPaired(s[1..])
    else |s| >= 2 && s[1] == '"' && QuotesPaired(s[2..])
  }

  /**
   * A string cell reads back as the string: it is enclosed in quotes, every
   * quote inside it is paired, and undoubling the pairs restores the text.
   */
  lemma {:induction false} CsvStringCellRoundTrip(s: string)
    ensures var cell := CsvCell(Str(s));
      cell == "\"" + DoubleQuotes(s) + "\"" &&
      QuotesPaired(DoubleQuotes(s)) && UndoubleQuotes(DoubleQuotes(s)) == s
  {
    DoubledQuotesRead(s);
  }

  lemma {:induction false} DoubledQuotesRead(s: string)
    ensures QuotesPaired(DoubleQuotes(s)) && UndoubleQuotes(DoubleQuotes(s)) == s
    decreases |s|
  {
    if s != [] {
      var rest := DoubleQuotes(s[1..]);
      assert DoubleQuotes(s) == (if s[0] == '"' then "\"\"" else [s[0]]) + rest;
      DoubledQuotesRead(s[1..]);
      var d := DoubleQuotes(s);
      if s[0] == '"' {
        assert d[..2] == "\"\"" && d[2..] == rest;
      } else {
        assert d[0] == s[0] && d[1..] == rest;
        assert !StartsWith(d, "\"\"");
      }
    }
  }

  // ---------------------------------------------------------------------
  // Durations and dates

  /** `a % b` in JavaScript: the remainder takes the sign of the dividend. */
  function JsRem(a: int, b: int): (r: int)
    requires b > 0
    ensures a >= 0 ==> r == a % b
    ensures a < 0 ==> -b < r <= 0
  {
    if a >= 0 then a % b else -((-a) % b)
  }

  /** The text of a duration split into hours, minutes and seconds; the hours appear only when positive. */
  function DurationText(hours: int, minutes: int, secs: int): (r: string)
    ensures r != ""
    ensures 'h' in r <==> hours > 0
  {
    var tail := IntToString(minutes) + "m " + IntToString(secs) + "s";
    DigitsHaveNoH(minutes);
    DigitsHaveNoH(secs);
    assert 'h' !in tail;
    if hours > 0 then
      assert (IntToString(hours) + "h " + tail)[|IntToString(hours)|] == 'h';
      IntToString(hours) + "h " + tail
    else tail
  }

  /**
   * `formatDuration(seconds)` for a whole number of seconds: empty for 0,
   * otherwise minutes and seconds, preceded by hours when there are any.
   * `Math.floor` of a quotient by a positive divisor is Dafny's `/`.
   */
  function FormatDuration(seconds: int): (r: string)
    ensures r == "" <==> seconds == 0
    ensures 'h' in r <==> seconds >= 3600
  {
    if seconds == 0 then ""
    else DurationText(seconds / 3600, JsRem(seconds, 3600) / 60, JsRem(seconds, 60))
  }

  lemma DigitsHaveNoH(n: int)
    ensures 'h' !in IntToString(n)
  {
    var r := NatToString(if n < 0 then -n else n);
    assert forall i :: 0 <= i < |r| ==> r[i] != 'h';
  }

  /**
   * The fields add up to the duration: a positive duration of `h` hours, `m`
   * minutes and `s` seconds (with `m` and `s` below 60) is shown as exactly
   * those three numbers, the hours only when there are any.
   */
  lemma FormatDurationFields(h: nat, m: nat, s: nat)
    requires m < 60 && s < 60 && h * 3600 + m * 60 + s > 0
    ensures FormatDuration(h * 3600 + m * 60 + s) == DurationText(h, m, s)
  {
    var t := h * 3600 + m * 60 + s;
    var q, r := t / 3600, t % 3600;
    assert t == q * 3600 + r && 0 <= r < 3600;
    assert (q - h) * 3600 == m * 60 + s - r;
    assert q == h && r == m * 60 + s;
    var q2, r2 := r / 60, r % 60;
    assert r == q2 * 60 + r2 && 0 <= r2 < 60;
    assert (q2 - m) * 60 == s - r2;
    assert q2 == m && r2 == s;
    var q3, r3 := t / 60, t % 60;
    assert t == q3 * 60 + r3 && 0 <= r3 < 60;
    assert (q3 - h * 60 - m) * 60 == s - r3;
    assert r3 == s;
    assert JsRem(t, 3600) / 60 == m && JsRem(t, 60) == s;
  }

  /** `str.substr(start, length)`: both ends are clamped to the string. */
  function Substr(s: string, start: nat, length: nat): (r: string)
    ensures |r| <= length
    ensures start + length <= |s| ==> r == s[start..start + length]
    ensures start >= |s| ==> r == ""
  {
    var from := if start < |s| then start else |s|;
    var to := if start + length < |s| then start + length else |s|;
    s[from..to]
  }

  /** `formatDate(dateString)`: a `YYYYMMDD` upload date shown as `DD/MM/YYYY`. */
  function FormatDate(dateString: string): (r: string)
    ensures r == "" <==> dateString == ""
    ensures dateString != "" ==> |r| == 2 + (if |dateString| < 8 then |dateString| else 8)
  {
    if dateString == "" then ""
    else Substr(dateString, 6, 2) + "/" + Substr(dateString, 4, 2) + "/" + Substr(dateString, 0, 4)
  }

  /**
   * An eight-character date is rearranged without loss: the result has its
   * slashes at positions 2 and 5 and the year, month and day read back in
   * their original order.
   */
  lemma FormatDateRoundTrip(dateString: string)
    requires |dateString| == 8
    ensures var r := FormatDate(dateString);
      |r| == 10 && r[2] == '/' && r[5] == '/' && r[6..10] + r[3..5] + r[..2] == dateString
  {
    var r := FormatDate(dateString);
    assert r[6..10] == dateString[..4];
    assert r[3..5] == dateString[4..6];
    assert r[..2] == dateString[6..];
  }

  /** A date of at most four characters is taken as the year alone: day and month come out empty. */
  lemma FormatDateShort(dateString: string)
    requires 0 < |dateString| <= 4
    ensures FormatDate(dateString) == "//" + dateString
  {
  }
}
