/**
 * The static field validators of the main editor's `ValidationManager`.
 * Every regular expression is written out as a predicate over the string the
 * regular expression sees (`test` converts its argument with `String`).
 * The current year, which the source reads from the clock, is a parameter.
 */
module Validation {
  import opened Values

  /** `{ isValid: true }` or `{ isValid: false, message }` */
  datatype Check = Valid | Invalid(message: string)

  /** One entry of `validateItemData`'s `errors` array. */
  datatype FieldError = FieldError(field: string, message: string)

  datatype ItemReport = ItemReport(isValid: bool, errors: seq<FieldError>)

  // ---------------------------------------------------------------------
  // Year

  /** `validateYear`: `parseInt(year)` lies in `[1000, currentYear + 5]`; NaN fails both comparisons. */
  predicate ValidateYear(year: Value, currentYear: int) {
    var parsed := ParseIntValue(year);
    parsed.Some? && 1000 <= parsed.value <= currentYear + 5
  }

  /** A year given as a number is accepted exactly when it lies in the window. */
  lemma ValidateYearOfNumber(y: int, currentYear: int)
    ensures ValidateYear(Num(y), currentYear) <==> 1000 <= y <= currentYear + 5
  {
    ParseIntOfNum(y);
  }

  /** The same year typed as text (what the form yields) gets the same verdict. */
  lemma ValidateYearOfText(y: int, currentYear: int)
    ensures ValidateYear(Str(IntToString(y)), currentYear) <==> 1000 <= y <= currentYear + 5
  {
    ParseIntOfIntToString(y);
  }

  // ---------------------------------------------------------------------
  // Duration

  /** `[0-5]?\d`: one digit, or two digits whose first is at most 5. */
  predicate SexagesimalField(f: string) {
    (|f| == 1 && IsDigit(f[0])) || (|f| == 2 && '0' <= f[0] <= '5' && IsDigit(f[1]))
  }

  /** `[01]?\d|2[0-3]` */
  predicate HourField(f: string) {
    (|f| == 1 && IsDigit(f[0])) ||
    (|f| == 2 && (f[0] == '0' || f[0] == '1') && IsDigit(f[1])) ||
    (|f| == 2 && f[0] == '2' && '0' <= f[1] <= '3')
  }

  /**
   * The duration pattern `^(?:(?:H:)?M:)?S$`: since no field contains a colon,
   * the colons split the text into one, two or three fields.
   */
  predicate DurationPattern(s: string) {
    var parts := Split(s, ':');
    (|parts| == 1 && SexagesimalField(parts[0])) ||
    (|parts| == 2 && SexagesimalField(parts[0]) && SexagesimalField(parts[1])) ||
    (|parts| == 3 && HourField(parts[0]) && SexagesimalField(parts[1]) && SexagesimalField(parts[2]))
  }

  /** `validateDuration`: numbers strictly between 0 and 999999, strings by the pattern, anything else false. */
  predicate ValidateDuration(d: Value) {
    match d
    case Num(n) => 0 < n < 999999
    case Str(s) => DurationPattern(s)
    case _ => false
  }

  function FieldValue(f: string): nat
    requires forall i :: 0 <= i < |f| ==> IsDigit(f[i])
  {
    DecimalValue(f)
  }

  lemma SexagesimalBound(f: string)
    requires SexagesimalField(f)
    ensures forall i :: 0 <= i < |f| ==> IsDigit(f[i])
    ensures FieldValue(f) <= 59
  {
    DigitsValue(f);
  }

  lemma HourBound(f: string)
    requires HourField(f)
    ensures forall i :: 0 <= i < |f| ==> IsDigit(f[i])
    ensures FieldValue(f) <= 23
  {
    DigitsValue(f);
  }

  /** The value of a one- or two-digit field. */
  lemma DigitsValue(f: string)
    requires 1 <= |f| <= 2 && forall i :: 0 <= i < |f| ==> IsDigit(f[i])
    ensures |f| == 1 ==> FieldValue(f) == f[0] as int - '0' as int
    ensures |f| == 2 ==> FieldValue(f) == (f[0] as int - '0' as int) * 10 + (f[1] as int - '0' as int)
  {
    var e: string := [];
    assert DecimalValue(e) == 0;
    if |f| == 1 {
      assert f[..0] == e;
    } else {
      var g := f[..1];
      assert g[..0] == e;
      assert DecimalValue(g) == f[0] as int - '0' as int;
    }
  }

  /** Two-digit rendering `00`..`59` of a minute or second count. */
  function TwoDigits(n: nat): (r: string)
    requires n < 60
    ensures SexagesimalField(r)
  {
    [DigitChar(n / 10), DigitChar(n % 10)]
  }

  lemma TwoDigitsValue(n: nat)
    requires n < 60
    ensures forall i :: 0 <= i < 2 ==> IsDigit(TwoDigits(n)[i])
    ensures FieldValue(TwoDigits(n)) == n
  {
    DigitsValue(TwoDigits(n));
  }

  lemma SplitNoColon(f: string)
    requires forall i :: 0 <= i < |f| ==> f[i] != ':'
    ensures Split(f, ':') == [f]
  {
    if f != [] {
      SplitNoColon(f[1..]);
      assert [f[0]] + f[1..] == f;
    }
  }

  lemma {:induction false} SplitJoin(f: string, rest: string)
    requires forall i :: 0 <= i < |f| ==> f[i] != ':'
    ensures Split(f + ":" + rest, ':') == [f] + Split(rest, ':')
  {
    if f == [] {
      assert f + ":" + rest == [':'] + rest;
      assert (f + ":" + rest)[1..] == rest;
    } else {
      var s := f + ":" + rest;
      assert s[1..] == f[1..] + ":" + rest;
      SplitJoin(f[1..], rest);
      assert [f[0]] + f[1..] == f;
    }
  }

  /**
   * Accepted duration texts denote a clock reading: every field is made of digits,
   * seconds and minutes are at most 59 and hours at most 23.
   */
  lemma {:induction false} DurationPatternBounds(s: string)
    requires DurationPattern(s)
    ensures var parts := Split(s, ':');
      forall k :: 0 <= k < |parts| ==>
        (forall i :: 0 <= i < |parts[k]| ==> IsDigit(parts[k][i])) &&
        FieldValue(parts[k]) <= (if |parts| == 3 && k == 0 then 23 else 59)
  {
    var parts := Split(s, ':');
    if |parts| == 3 {
      HourBound(parts[0]);
      SexagesimalBound(parts[1]);
      SexagesimalBound(parts[2]);
    } else if |parts| == 2 {
      SexagesimalBound(parts[0]);
      SexagesimalBound(parts[1]);
    } else {
      SexagesimalBound(parts[0]);
    }
  }

  /** Every clock reading `m:ss` and `h:mm:ss` with h ≤ 9, m, s ≤ 59 is accepted. */
  lemma {:induction false} ClockReadingAccepted(h: nat, m: nat, sec: nat)
    requires h <= 9 && m < 60 && sec < 60
    ensures DurationPattern(TwoDigits(m) + ":" + TwoDigits(sec))
    ensures DurationPattern([DigitChar(h)] + ":" + TwoDigits(m) + ":" + TwoDigits(sec))
  {
    var mm := TwoDigits(m);
    var ss := TwoDigits(sec);
    SplitNoColon(ss);
    SplitJoin(mm, ss);
    var hh := [DigitChar(h)];
    assert hh + ":" + mm + ":" + ss == hh + ":" + (mm + ":" + ss);
    SplitJoin(hh, mm + ":" + ss);
  }

  // ---------------------------------------------------------------------
  // Required and length

  /** `validateRequired`: falsy values and whitespace-only strings are missing. */
  function ValidateRequired(v: Value, fieldName: string): (c: Check)
    ensures c.Invalid? <==> !Truthy(v) || (v.Str? && IsBlank(v.s))
    ensures c.Invalid? ==> c.message == fieldName + " è obbligatorio"
  {
    if !Truthy(v) || (v.Str? && IsBlank(v.s)) then Invalid(fieldName + " è obbligatorio")
    else Valid
  }

  /** A string passes `validateRequired` exactly when it holds a non-whitespace character. */
  lemma RequiredStringHasContent(s: string, fieldName: string)
    ensures ValidateRequired(Str(s), fieldName).Valid? <==> exists i :: 0 <= i < |s| && !IsSpace(s[i])
  {
    BlankIffAllSpace(s);
  }

  /** `value ? value.toString().length : 0` */
  function TextLength(v: Value): (n: nat)
    ensures !Truthy(v) ==> n == 0
    ensures v.Str? ==> n == |v.s|
  {
    if Truthy(v) then |ToStr(v)| else 0
  }

  /** `validateLength`: the minimum is checked first, then the maximum. */
  function ValidateLength(v: Value, min: int, max: int, fieldName: string): (c: Check)
    ensures c.Valid? <==> min <= TextLength(v) <= max
    ensures TextLength(v) < min ==> c == Invalid(fieldName + " deve essere di almeno " + IntToString(min) + " caratteri")
    ensures min <= TextLength(v) && TextLength(v) > max ==>
      c == Invalid(fieldName + " non può superare " + IntToString(max) + " caratteri")
  {
    var length := TextLength(v);
    if length < min then Invalid(fieldName + " deve essere di almeno " + IntToString(min) + " caratteri")
    else if length > max then Invalid(fieldName + " non può superare " + IntToString(max) + " caratteri")
    else Valid
  }

  // ---------------------------------------------------------------------
  // Genre

  /** `[a-zA-ZÀ-ÿ]` */
  predicate IsGenreLetter(c: char) {
    ('a' <= c <= 'z') || ('A' <= c <= 'Z') || ('\U{C0}' <= c <= '\U{FF}')
  }

  /** `/^\s*$/` */
  predicate WhitespaceOnly(s: string) {
    forall i :: 0 <= i < |s| ==> IsSpace(s[i])
  }

  /** `/^.{1,2}$/`: one or two characters, none a line terminator. */
  predicate TooShort(s: string) {
    1 <= |s| <= 2 && forall i :: 0 <= i < |s| ==> !IsLineTerminator(s[i])
  }

  /** `/[0-9]{3,}/` */
  predicate ThreeDigitsRun(s: string) {
    exists i :: 0 <= i && i + 3 <= |s| && IsDigit(s[i]) && IsDigit(s[i + 1]) && IsDigit(s[i + 2])
  }

  /** `/^[^a-zA-ZÀ-ÿ\s]/` */
  predicate BadFirstChar(s: string) {
    |s| >= 1 && !IsGenreLetter(s[0]) && !IsSpace(s[0])
  }

  predicate IsMarkupChar(c: char) {
    c == '<' || c == '>' || c == '{' || c == '}' || c == '[' || c == ']'
  }

  /** `/[<>{}[\]]/` */
  predicate HasMarkup(s: string) {
    exists i :: 0 <= i < |s| && IsMarkupChar(s[i])
  }

  /** The five suspicious patterns, tried in order. */
  predicate SuspiciousGenre(s: string) {
    WhitespaceOnly(s) || TooShort(s) || ThreeDigitsRun(s) || BadFirstChar(s) || HasMarkup(s)
  }

  /** `validateGenre` */
  function ValidateGenre(genre: Value): (c: Check)
    ensures SuspiciousGenre(ToStr(genre)) ==> c == Invalid("Genere sospetto o non valido")
  {
    if SuspiciousGenre(ToStr(genre)) then Invalid("Genere sospetto o non valido")
    else ValidateLength(genre, 2, 50, "Genere")
  }

  /**
   * What an accepted genre text looks like: 2 to 50 characters, starting with a
   * letter or whitespace, with no markup characters and no run of three digits.
   * A two-character genre is only accepted when it holds a line terminator, which
   * the `.` of the length pattern does not match.
   */
  lemma ValidGenreShape(s: string)
    ensures ValidateGenre(Str(s)).Valid? ==>
      2 <= |s| <= 50 &&
      (IsGenreLetter(s[0]) || IsSpace(s[0])) &&
      (forall i :: 0 <= i < |s| ==> !IsMarkupChar(s[i])) &&
      (forall i :: 0 <= i && i + 2 < |s| ==> !(IsDigit(s[i]) && IsDigit(s[i + 1]) && IsDigit(s[i + 2]))) &&
      (|s| == 2 ==> IsLineTerminator(s[0]) || IsLineTerminator(s[1]))
  {
  }

  /** Every blank genre, however long, is rejected as suspicious. */
  lemma BlankGenreRejected(s: string)
    requires IsBlank(s)
    ensures ValidateGenre(Str(s)).Invalid?
  {
    BlankIffAllSpace(s);
  }

  // ---------------------------------------------------------------------
  // YouTube URL

  predicate StartsWithAt(s: string, i: nat, p: string) {
    i + |p| <= |s| && s[i..i + |p|] == p
  }

  /**
   * `^https?:\/\/(www\.)?(youtube\.com\/(watch\?v=|playlist\?list=)|youtu\.be\/)`,
   * a prefix test.
   */
  predicate YouTubePrefix(s: string) {
    exists scheme, host, path ::
      scheme in {"http://", "https://"} && host in {"", "www."} &&
      path in {"youtube.com/watch?v=", "youtube.com/playlist?list=", "youtu.be/"} &&
      StartsWith(s, scheme + host + path)
  }

  /** `validateYouTubeUrl` */
  predicate ValidateYouTubeUrl(url: Value) {
    YouTubePrefix(ToStr(url))
  }

  /** Every address made of an accepted scheme, host and path, followed by anything, is accepted. */
  lemma PrefixAccepted(scheme: string, host: string, path: string, rest: string)
    requires scheme in {"http://", "https://"} && host in {"", "www."}
    requires path in {"youtube.com/watch?v=", "youtube.com/playlist?list=", "youtu.be/"}
    ensures ValidateYouTubeUrl(Str(scheme + host + path + rest))
  {
    var p := scheme + host + path;
    assert (p + rest)[..|p|] == p;
    assert StartsWith(p + rest, p);
  }

  /** Every accepted address uses the web scheme. */
  lemma YouTubeUrlIsHttp(s: string)
    requires YouTubePrefix(s)
    ensures StartsWith(s, "http")
  {
    var scheme, host, path :| scheme in {"http://", "https://"} && host in {"", "www."} &&
      path in {"youtube.com/watch?v=", "youtube.com/playlist?list=", "youtu.be/"} &&
      StartsWith(s, scheme + host + path);
    var p := scheme + host + path;
    assert s[..4] == p[..4];
  }

  // ---------------------------------------------------------------------
  // Whole item

  function RequiredErrors(item: Item): (es: seq<FieldError>)
    ensures |es| <= 2
  {
    var t := ValidateRequired(Get(item, "real_title"), "Titolo");
    var a := ValidateRequired(Get(item, "real_author"), "Autore");
    (if t.Invalid? then [FieldError("real_title", t.message)] else []) +
    (if a.Invalid? then [FieldError("real_author", a.message)] else [])
  }

  /** One length check: only for a truthy field, minimum 0. */
  function LengthError(item: Item, field: string, max: int, name: string): seq<FieldError> {
    var v := Get(item, field);
    if !Truthy(v) then []
    else
      var c := ValidateLength(v, 0, max, name);
      if c.Invalid? then [FieldError(field, c.message)] else []
  }

  function LengthErrors(item: Item): seq<FieldError> {
    LengthError(item, "real_title", 200, "Titolo") +
    LengthError(item, "real_author", 100, "Autore") +
    LengthError(item, "real_synopsis", 2000, "Sinossi") +
    LengthError(item, "real_narrator", 100, "Narratore")
  }

  function SpecificErrors(item: Item, currentYear: int): seq<FieldError> {
    var year := Get(item, "real_published_year");
    var duration := Get(item, "real_duration");
    var url := Get(item, "youtube_url");
    var genre := Get(item, "real_genre");
    (if Truthy(year) && !ValidateYear(year, currentYear) then [FieldError("real_published_year", "Anno non valido")] else []) +
    (if Truthy(duration) && !ValidateDuration(duration) then [FieldError("real_duration", "Durata non valida")] else []) +
    (if Truthy(url) && !ValidateYouTubeUrl(url) then [FieldError("youtube_url", "URL YouTube non valido")] else []) +
    (if Truthy(genre) && ValidateGenre(genre).Invalid? then [FieldError("real_genre", ValidateGenre(genre).message)] else [])
  }

  /** `validateItemData` */
  function ValidateItemData(item: Item, currentYear: int): (rep: ItemReport)
    ensures rep.isValid <==> rep.errors == []
  {
    var errors := RequiredErrors(item) + LengthErrors(item) + SpecificErrors(item, currentYear);
    ItemReport(|errors| == 0, errors)
  }

  /** A missing or blank title or author always produces an error for that field. */
  lemma MissingRequiredReported(item: Item, currentYear: int, field: string)
    requires field == "real_title" || field == "real_author"
    requires !Truthy(Get(item, field)) || (Get(item, field).Str? && IsBlank(Get(item, field).s))
    ensures !ValidateItemData(item, currentYear).isValid
    ensures exists e :: e in ValidateItemData(item, currentYear).errors && e.field == field
  {
    var rep := ValidateItemData(item, currentYear);
    var req := RequiredErrors(item);
    if field == "real_title" {
      assert req[0].field == field;
      assert rep.errors[0] == req[0];
    } else {
      var t := ValidateRequired(Get(item, "real_title"), "Titolo");
      var k := if t.Invalid? then 1 else 0;
      assert req[k].field == field;
      assert rep.errors[k] == req[k];
    }
  }

  /**
   * An accepted item has a title and an author with content, a title of at most
   * 200 characters, and (when present) a year in the window and a well-formed genre.
   */
  lemma ValidItemShape(item: Item, currentYear: int)
    requires ValidateItemData(item, currentYear).isValid
    ensures ValidateRequired(Get(item, "real_title"), "Titolo").Valid?
    ensures ValidateRequired(Get(item, "real_author"), "Autore").Valid?
    ensures TextLength(Get(item, "real_title")) <= 200
    ensures Truthy(Get(item, "real_published_year")) ==> ValidateYear(Get(item, "real_published_year"), currentYear)
    ensures Truthy(Get(item, "real_genre")) ==> ValidateGenre(Get(item, "real_genre")).Valid?
  {
    var rep := ValidateItemData(item, currentYear);
    assert RequiredErrors(item) == [] && LengthErrors(item) == [] && SpecificErrors(item, currentYear) == [];
    assert LengthError(item, "real_title", 200, "Titolo") == [];
  }
}
