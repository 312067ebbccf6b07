/**
 * JavaScript values as the editor and the server see them once a JSON
 * document has been parsed, and the handful of built-in string and
 * conversion operations the core relies on (truthiness, `===`, `String(v)`,
 * `trim`, `toLowerCase`, `includes`, `parseInt`, `parseFloat`).
 *
 * Numbers are integers: the catalog's numeric fields (years, counts,
 * durations in seconds) are whole numbers.
 */
module Values {

  datatype Option<T> = None | Some(value: T)

  datatype Value =
    | Undefined
    | Null
    | Bool(b: bool)
    | Num(n: int)
    | Str(s: string)
    | List(elems: seq<Value>)

  /** A catalog item: an open set of named fields. A missing field reads as `undefined`. */
  type Item = map<string, Value>

  function Get(item: Item, field: string): (v: Value)
    ensures field !in item ==> v == Undefined
    ensures field in item ==> v == item[field]
  {
    if field in item then item[field] else Undefined
  }

  /** JavaScript truthiness. */
  predicate Truthy(v: Value) {
    match v
    case Undefined => false
    case Null => false
    case Bool(b) => b
    case Num(n) => n != 0
    case Str(s) => s != ""
    case List(_) => true
  }

  /** `a === b`: equal primitives; two array values are always distinct objects. */
  predicate StrictEq(a: Value, b: Value) {
    a == b && !a.List?
  }

  /** `a || b` */
  function Or(a: Value, b: Value): (r: Value)
    ensures Truthy(a) ==> r == a
    ensures !Truthy(a) ==> r == b
  {
    if Truthy(a) then a else b
  }

  predicate IsNullish(v: Value) {
    v.Undefined? || v.Null?
  }

  // ---------------------------------------------------------------------
  // Characters and strings

  /** ECMAScript WhiteSpace and LineTerminator code points (what `\s` and `trim` see). */
  predicate IsSpace(c: char) {
    ('\U{9}' <= c <= '\U{D}') || c == ' ' || c == '\U{A0}' || c == '\U{1680}' ||
    ('\U{2000}' <= c <= '\U{200A}') || c == '\U{2028}' || c == '\U{2029}' ||
    c == '\U{202F}' || c == '\U{205F}' || c == '\U{3000}' || c == '\U{FEFF}'
  }

  /** Line terminators: the characters a regular-expression `.` does not match. */
  predicate IsLineTerminator(c: char) {
    c == '\U{A}' || c == '\U{D}' || c == '\U{2028}' || c == '\U{2029}'
  }

  predicate IsDigit(c: char) {
    '0' <= c <= '9'
  }

  function TrimStart(s: string): (r: string)
    ensures |r| <= |s| && r == s[|s| - |r|..]
    ensures r == [] || !IsSpace(r[0])
    ensures forall i :: 0 <= i < |s| - |r| ==> IsSpace(s[i])
  {
    if s == [] || !IsSpace(s[0]) then s else TrimStart(s[1..])
  }

  function TrimEnd(s: string): (r: string)
    ensures |r| <= |s| && r == s[..|r|]
    ensures r == [] || !IsSpace(r[|r| - 1])
    ensures forall i :: |r| <= i < |s| ==> IsSpace(s[i])
  {
    if s == [] || !IsSpace(s[|s| - 1]) then s else TrimEnd(s[..|s| - 1])
  }

  /** `s.trim()` */
  function Trim(s: string): (r: string)
    ensures r == [] || (!IsSpace(r[0]) && !IsSpace(r[|r| - 1]))
  {
    TrimEnd(TrimStart(s))
  }

  /** Trimming a trimmed string changes nothing. */
  lemma TrimIdempotent(s: string)
    ensures Trim(Trim(s)) == Trim(s)
  {
    var r := Trim(s);
    assert TrimStart(r) == r;
    assert TrimEnd(r) == r;
  }

  /** `!s.trim()`: the string is empty or whitespace only. */
  predicate IsBlank(s: string) {
    Trim(s) == []
  }

  lemma {:induction false} BlankIffAllSpace(s: string)
    ensures IsBlank(s) <==> forall i :: 0 <= i < |s| ==> IsSpace(s[i])
  {
    var t := TrimStart(s);
    if forall i :: 0 <= i < |s| ==> IsSpace(s[i]) {
      assert |t| > 0 ==> t[0] == s[|s| - |t|];
    } else {
      var i :| 0 <= i < |s| && !IsSpace(s[i]);
      assert |s| - |t| <= i;
      assert t[i - (|s| - |t|)] == s[i];
      assert !IsSpace(t[i - (|s| - |t|)]);
    }
  }

  /** `toLowerCase` on the Basic Latin and Latin-1 letters. */
  function LowerChar(c: char): (r: char)
    ensures 'A' <= c <= 'Z' ==> 'a' <= r <= 'z'
    ensures !('A' <= c <= 'Z') && !('\U{C0}' <= c <= '\U{DE}') ==> r == c
  {
    if 'A' <= c <= 'Z' then (c as int + 32) as char
    else if '\U{C0}' <= c <= '\U{DE}' && c != '\U{D7}' then (c as int + 32) as char
    else c
  }

  function Lower(s: string): (r: string)
    ensures |r| == |s|
    ensures forall i :: 0 <= i < |s| ==> r[i] == LowerChar(s[i])
  {
    if s == [] then [] else [LowerChar(s[0])] + Lower(s[1..])
  }

  /** `t` occurs in `s` starting at index `i`. */
  predicate OccursAt(s: string, t: string, i: int) {
    0 <= i <= |s| - |t| && s[i..i + |t|] == t
  }

  /** An occurrence stays one, further along, when text is put in front. */
  lemma OccursAfter(p: string, s: string, t: string, i: int)
    requires OccursAt(s, t, i)
    ensures OccursAt(p + s, t, |p| + i) && StartsWith(p + s, p)
  {
    assert (p + s)[|p| + i..|p| + i + |t|] == s[i..i + |t|];
    assert (p + s)[..|p|] == p;
  }

  /** `s.includes(t)` */
  predicate Contains(s: string, t: string) {
    exists i :: 0 <= i <= |s| - |t| && OccursAt(s, t, i)
  }

  lemma ContainsSelf(s: string)
    ensures Contains(s, s) && Contains(s, [])
  {
    assert OccursAt(s, s, 0);
    assert OccursAt(s, [], 0);
  }

  /** `s.startsWith(p)` */
  predicate StartsWith(s: string, p: string) {
    |p| <= |s| && s[..|p|] == p
  }

  /** `parts.join(sep)` */
  function Join(parts: seq<string>, sep: string): (r: string)
    ensures parts == [] ==> r == []
    ensures |parts| == 1 ==> r == parts[0]
  {
    if parts == [] then []
    else if |parts| == 1 then parts[0]
    else Join(parts[..|parts| - 1], sep) + sep + parts[|parts| - 1]
  }

  /** `s.split(sep)` for a one-character separator. */
  function Split(s: string, sep: char): (parts: seq<string>)
    ensures |parts| >= 1
    ensures forall i, j :: 0 <= i < |parts| && 0 <= j < |parts[i]| ==> parts[i][j] != sep
    ensures |parts| == 1 ==> parts[0] == s
  {
    if s == [] then [[]]
    else
      var rest := Split(s[1..], sep);
      if s[0] == sep then [[]] + rest
      else [[s[0]] + rest[0]] + rest[1..]
  }

  // ---------------------------------------------------------------------
  // Numbers as text

  function DigitChar(d: nat): (c: char)
    requires d < 10
    ensures IsDigit(c) && c as int - '0' as int == d
  {
    ('0' as int + d) as char
  }

  function NatToString(n: nat): (r: string)
    ensures |r| >= 1
    ensures forall i :: 0 <= i < |r| ==> IsDigit(r[i])
    ensures n < 10 ==> |r| == 1
    ensures |r| >= 2 ==> r[0] != '0'
  {
    if n < 10 then [DigitChar(n)] else NatToString(n / 10) + [DigitChar(n % 10)]
  }

  /** Decimal rendering of an integral number, as `String(n)` gives it. */
  function IntToString(n: int): (r: string)
    ensures |r| >= 1
  {
    if n < 0 then "-" + NatToString(-n) else NatToString(n)
  }

  /** The value of a string of decimal digits. */
  function DecimalValue(ds: string): nat
    requires forall i :: 0 <= i < |ds| ==> IsDigit(ds[i])
  {
    if ds == [] then 0
    else
      assert IsDigit(ds[|ds| - 1]);
      DecimalValue(ds[..|ds| - 1]) * 10 + (ds[|ds| - 1] as int - '0' as int)
  }

  lemma {:induction false} DecimalValueOfNatToString(n: nat)
    ensures DecimalValue(NatToString(n)) == n
  {
    if n >= 10 {
      var r := NatToString(n);
      DecimalValueOfNatToString(n / 10);
      assert r[..|r| - 1] == NatToString(n / 10);
    }
  }

  function HexDigitValue(c: char): (r: Option<nat>)
    ensures r.Some? ==> r.value < 16
  {
    if '0' <= c <= '9' then Some(c as int - '0' as int)
    else if 'a' <= c <= 'f' then Some(c as int - 'a' as int + 10)
    else if 'A' <= c <= 'F' then Some(c as int - 'A' as int + 10)
    else None
  }

  function DigitValueIn(c: char, radix: nat): (r: Option<nat>)
    requires radix == 2 || radix == 8 || radix == 10 || radix == 16
    ensures r.Some? ==> r.value < radix
  {
    if radix == 16 then HexDigitValue(c)
    else if IsDigit(c) && c as int - '0' as int < radix then Some(c as int - '0' as int)
    else None
  }

  /** End of the longest run of digits in `radix` that starts at `from`. */
  function DigitRunFrom(s: string, from: nat, radix: nat): (k: nat)
    requires radix == 2 || radix == 8 || radix == 10 || radix == 16
    requires from <= |s|
    ensures from <= k <= |s|
    ensures forall i :: from <= i < k ==> DigitValueIn(s[i], radix).Some?
    ensures k < |s| ==> DigitValueIn(s[k], radix).None?
    decreases |s| - from
  {
    if from == |s| || DigitValueIn(s[from], radix).None? then from else DigitRunFrom(s, from + 1, radix)
  }

  /** Length of the longest prefix of `s` made of digits in `radix`. */
  function DigitRun(s: string, radix: nat): (k: nat)
    requires radix == 2 || radix == 8 || radix == 10 || radix == 16
    ensures k <= |s|
    ensures forall i :: 0 <= i < k ==> DigitValueIn(s[i], radix).Some?
    ensures k < |s| ==> DigitValueIn(s[k], radix).None?
  {
    DigitRunFrom(s, 0, radix)
  }

  function RadixValue(ds: string, radix: nat): nat
    requires radix == 2 || radix == 8 || radix == 10 || radix == 16
    requires forall i :: 0 <= i < |ds| ==> DigitValueIn(ds[i], radix).Some?
  {
    if ds == [] then 0
    else RadixValue(ds[..|ds| - 1], radix) * radix + DigitValueIn(ds[|ds| - 1], radix).value
  }

  lemma {:induction false} RadixTenIsDecimal(ds: string)
    requires forall i :: 0 <= i < |ds| ==> IsDigit(ds[i])
    ensures RadixValue(ds, 10) == DecimalValue(ds)
  {
    if ds != [] {
      RadixTenIsDecimal(ds[..|ds| - 1]);
    }
  }

  /** The unsigned part of `parseInt` once whitespace and sign are gone: a `0x` prefix selects radix 16. */
  function ParseUnsigned(s: string): Option<nat> {
    var hex := |s| >= 2 && s[0] == '0' && (s[1] == 'x' || s[1] == 'X');
    var radix := if hex then 16 else 10;
    var body := if hex then s[2..] else s;
    var k := DigitRun(body, radix);
    if k == 0 then None else Some(RadixValue(body[..k], radix))
  }

  /**
   * `parseInt(String(v))` with no radix: leading whitespace, an optional sign, then the longest
   * run of digits. `None` stands for NaN.
   */
  function ParseIntString(s: string): (r: Option<int>) {
    var t := TrimStart(s);
    if t != [] && (t[0] == '-' || t[0] == '+') then
      match ParseUnsigned(t[1..])
      case None => None
      case Some(u) => Some(if t[0] == '-' then 0 - u else u)
    else
      match ParseUnsigned(t)
      case None => None
      case Some(u) => Some(u)
  }

  lemma {:induction false} ParseUnsignedOfNatToString(n: nat)
    ensures ParseUnsigned(NatToString(n)) == Some(n)
  {
    var s := NatToString(n);
    assert !(|s| >= 2 && s[0] == '0');
    assert forall i :: 0 <= i < |s| ==> DigitValueIn(s[i], 10).Some?;
    var k := DigitRun(s, 10);
    assert k == |s|;
    assert s[..k] == s;
    RadixTenIsDecimal(s);
    DecimalValueOfNatToString(n);
  }

  /** `parseInt` of a string that starts with a sign and no whitespace. */
  lemma ParseIntSigned(sign: char, u: string)
    requires sign == '-' || sign == '+'
    ensures ParseIntString([sign] + u) ==
      match ParseUnsigned(u)
      case None => None
      case Some(v) => Some(if sign == '-' then 0 - v else v)
  {
    var s := [sign] + u;
    assert !IsSpace(s[0]);
    assert TrimStart(s) == s;
    assert s[1..] == u;
  }

  /** Round trip: `parseInt(String(n)) === n` for every integral number. */
  lemma {:induction false} ParseIntOfIntToString(n: int)
    ensures ParseIntString(IntToString(n)) == Some(n)
  {
    if n < 0 {
      ParseIntOfNegative(n);
    } else {
      ParseIntOfNat(n);
    }
  }

  lemma ParseIntOfNegative(n: int)
    requires n < 0
    ensures ParseIntString(IntToString(n)) == Some(n)
  {
    ParseUnsignedOfNatToString(-n);
    ParseIntMinus(NatToString(-n), -n);
    assert IntToString(n) == ['-'] + NatToString(-n);
  }

  lemma ParseIntMinus(u: string, v: nat)
    requires ParseUnsigned(u) == Some(v)
    ensures ParseIntString(['-'] + u) == Some(0 - v)
  {
    ParseIntSigned('-', u);
    assert ParseIntString(['-'] + u) == match ParseUnsigned(u) case None => None case Some(w) => Some(0 - w);
  }

  lemma ParseIntOfNat(n: nat)
    ensures ParseIntString(IntToString(n)) == Some(n)
  {
    var s := NatToString(n);
    assert IsDigit(s[0]);
    assert TrimStart(s) == s;
    ParseUnsignedOfNatToString(n);
    assert IntToString(n) == s;
    ParseIntUnsigned(s);
  }

  /** `parseInt` of a string that starts with neither whitespace nor a sign. */
  lemma ParseIntUnsigned(t: string)
    requires t != [] && !IsSpace(t[0]) && t[0] != '-' && t[0] != '+'
    ensures ParseIntString(t) ==
      match ParseUnsigned(t)
      case None => None
      case Some(v) => Some(v)
  {
    assert TrimStart(t) == t;
  }

  /** What `parseFloat` makes of a string, as far as the validators look at it. */
  datatype FloatVerdict = NaN | NonNegative | Negative

  /** Does the literal's mantissa hold a non-zero digit? Leading digits, an optional point, more digits. */
  function MantissaDigits(s: string): (ds: string)
    ensures forall i :: 0 <= i < |ds| ==> IsDigit(ds[i])
  {
    var k := DigitRun(s, 10);
    var intPart := s[..k];
    if k < |s| && s[k] == '.' then
      var rest := s[k + 1..];
      intPart + rest[..DigitRun(rest, 10)]
    else intPart
  }

  predicate AllZero(ds: string) {
    forall i :: 0 <= i < |ds| ==> ds[i] == '0'
  }

  /**
   * `parseFloat(s)` classified: NaN when no number prefix is present; negative when a `-` sign
   * precedes `Infinity` or a mantissa with a non-zero digit (a negative zero is not `< 0`).
   * The exponent part does not change the sign and is not inspected.
   */
  function ParseFloatVerdict(s: string): FloatVerdict {
    var t := TrimStart(s);
    var signed := t != [] && (t[0] == '-' || t[0] == '+');
    var body := if signed then t[1..] else t;
    var negative := signed && t[0] == '-';
    if StartsWith(body, "Infinity") then (if negative then Negative else NonNegative)
    else
      var ds := MantissaDigits(body);
      if ds == [] then NaN
      else if negative && !AllZero(ds) then Negative
      else NonNegative
  }

  // ---------------------------------------------------------------------
  // String(v)

  /** `String(v)`; inside an array, `null` and `undefined` elements print as the empty string. */
  function ToStr(v: Value): string
    decreases v, 1
  {
    match v
    case Undefined => "undefined"
    case Null => "null"
    case Bool(b) => if b then "true" else "false"
    case Num(n) => IntToString(n)
    case Str(s) => s
    case List(es) => JoinElems(v, |es|)
  }

  /** The first `k` elements of the array `v`, joined with commas. */
  function JoinElems(v: Value, k: nat): string
    requires v.List? && k <= |v.elems|
    decreases v, 0, k
  {
    if k == 0 then ""
    else
      var e := v.elems[k - 1];
      var last := if IsNullish(e) then "" else ToStr(e);
      if k == 1 then last else JoinElems(v, k - 1) + "," + last
  }

  /** `parseInt(v)`: the argument is converted with `String` first. */
  function ParseIntValue(v: Value): Option<int> {
    ParseIntString(ToStr(v))
  }

  lemma ParseIntOfNum(n: int)
    ensures ParseIntValue(Num(n)) == Some(n)
  {
    ParseIntOfIntToString(n);
  }

  lemma {:induction false} NonNegativeNatVerdict(n: nat)
    ensures ParseFloatVerdict(NatToString(n)) == NonNegative
  {
    var s := NatToString(n);
    assert !IsSpace(s[0]) && TrimStart(s) == s;
    assert s[0] != '-' && s[0] != '+';
    assert !StartsWith(s, "Infinity") by { assert IsDigit(s[0]); }
    var k := DigitRun(s, 10);
    assert k == |s| by {
      assert forall i :: 0 <= i < |s| ==> DigitValueIn(s[i], 10).Some?;
    }
    assert s[..k] == s;
    assert MantissaDigits(s) == s;
  }

  /** `parseFloat(n) < 0` exactly when `n < 0`, for an integral number. */
  lemma {:induction false} ParseFloatOfNum(n: int)
    ensures ParseFloatVerdict(ToStr(Num(n))) == (if n < 0 then Negative else NonNegative)
  {
    if n < 0 {
      var u := NatToString(-n);
      var s := "-" + u;
      assert ToStr(Num(n)) == s;
      assert !IsSpace(s[0]) && TrimStart(s) == s;
      assert s[1..] == u;
      assert !StartsWith(u, "Infinity") by { assert IsDigit(u[0]); }
      var k := DigitRun(u, 10);
      assert k == |u| by {
        assert forall i :: 0 <= i < |u| ==> DigitValueIn(u[i], 10).Some?;
      }
      assert u[..k] == u;
      assert MantissaDigits(u) == u;
      assert !AllZero(u) by {
        if |u| == 1 {
          assert u == [DigitChar(-n)];
        } else {
          assert u[0] != '0';
        }
      }
    } else {
      NonNegativeNatVerdict(n);
    }
  }
  // ---------------------------------------------------------------------
  // Number(s), loose equality, string order

  /** Every character of `ds` is a digit in `radix` and there is at least one. */
  predicate AllDigitsIn(ds: string, radix: nat)
    requires radix == 2 || radix == 8 || radix == 10 || radix == 16
  {
    ds != [] && DigitRun(ds, radix) == |ds|
  }

  /**
   * `Number(s)` for the integer literals: surrounding whitespace is ignored, a blank
   * string is 0, `0x`/`0o`/`0b` prefixes select a radix, otherwise an optional sign and
   * decimal digits. Any other text (fractions, exponents, `Infinity`, garbage) gives `None`.
   */
  function NumberOf(s: string): (r: Option<int>)
    ensures IsBlank(s) ==> r == Some(0)
  {
    var t := Trim(s);
    if t == [] then Some(0)
    else if |t| >= 2 && t[0] == '0' && t[1] in "xXoObB" then
      var radix := if t[1] in "xX" then 16 else if t[1] in "oO" then 8 else 2;
      var body := t[2..];
      if AllDigitsIn(body, radix) then Some(RadixValue(body, radix)) else None
    else
      var signed := t[0] == '-' || t[0] == '+';
      var body := if signed then t[1..] else t;
      if !AllDigitsIn(body, 10) then None
      else if t[0] == '-' then Some(0 - RadixValue(body, 10))
      else Some(RadixValue(body, 10))
  }

  lemma TrimDigits(s: string)
    requires s != [] && IsDigit(s[0]) && IsDigit(s[|s| - 1])
    ensures Trim(s) == s
  {
    assert !IsSpace(s[0]);
    assert TrimStart(s) == s;
    assert !IsSpace(s[|s| - 1]);
    assert TrimEnd(s) == s;
  }

  lemma {:induction false} NumberOfNatToString(n: nat)
    ensures NumberOf(NatToString(n)) == Some(n)
  {
    var s := NatToString(n);
    TrimDigits(s);
    assert !(|s| >= 2 && s[0] == '0') by {
      if |s| >= 2 {
        assert s[0] != '0';
      }
    }
    assert s[0] != '-' && s[0] != '+';
    assert AllDigitsIn(s, 10) by {
      assert forall i :: 0 <= i < |s| ==> DigitValueIn(s[i], 10).Some?;
    }
    RadixTenIsDecimal(s);
    DecimalValueOfNatToString(n);
  }

  /**
   * The names a plain object inherits from `Object.prototype`. Looking one
   * of them up in an object that lacks it as an own key finds the inherited
   * member (a function, or the prototype itself for `__proto__`), which is
   * truthy.
   */
  const PrototypeMembers: seq<string> := [
    "constructor", "hasOwnProperty", "isPrototypeOf", "propertyIsEnumerable",
    "toLocaleString", "toString", "valueOf", "__defineGetter__", "__defineSetter__",
    "__lookupGetter__", "__lookupSetter__", "__proto__"]

  /** `name` is one of `PrototypeMembers`. */
  predicate IsPrototypeMember(name: string) {
    ListedIn(PrototypeMembers, name)
  }

  /** `name` occurs in `names`. */
  predicate ListedIn(names: seq<string>, name: string)
    decreases |names|
  {
    names != [] && (names[0] == name || ListedIn(names[1..], name))
  }

  lemma {:induction false} ListedInIff(names: seq<string>, name: string)
    ensures ListedIn(names, name) <==> name in names
    decreases |names|
  {
    if names != [] {
      ListedInIff(names[1..], name);
      assert names == [names[0]] + names[1..];
    }
  }

  /** `a == b`: the abstract equality comparison, for the values row keys can take. */
  predicate LooseEq(a: Value, b: Value) {
    match (a, b)
    case (Num(x), Str(s)) => NumberOf(s) == Some(x)
    case (Str(s), Num(x)) => NumberOf(s) == Some(x)
    case (Undefined, Null) => true
    case (Null, Undefined) => true
    case _ => StrictEq(a, b)
  }

  /**
   * Loose equality holds of strictly equal values, does not depend on the
   * order of its operands, and on two strings is plain equality.
   */
  lemma LooseEqLaws(a: Value, b: Value)
    ensures StrictEq(a, b) ==> LooseEq(a, b)
    ensures LooseEq(a, b) == LooseEq(b, a)
    ensures a.Str? && b.Str? ==> (LooseEq(a, b) <==> a == b)
  {
  }

  /** `a < b` on strings: lexicographic by character code. */
  predicate StrLess(a: string, b: string) {
    if a == [] then b != []
    else if b == [] then false
    else if a[0] != b[0] then a[0] < b[0]
    else StrLess(a[1..], b[1..])
  }

  lemma {:induction false} StrLessIrreflexive(a: string)
    ensures !StrLess(a, a)
  {
    if a != [] {
      StrLessIrreflexive(a[1..]);
    }
  }

  lemma {:induction false} StrLessTransitive(a: string, b: string, c: string)
    requires StrLess(a, b) && StrLess(b, c)
    ensures StrLess(a, c)
  {
    if a != [] && a[0] == b[0] && b[0] == c[0] {
      StrLessTransitive(a[1..], b[1..], c[1..]);
    }
  }

  lemma {:induction false} StrLessTotal(a: string, b: string)
    ensures a == b || StrLess(a, b) || StrLess(b, a)
  {
    if a != [] && b != [] && a[0] == b[0] {
      StrLessTotal(a[1..], b[1..]);
      if a[1..] == b[1..] {
        assert a == [a[0]] + a[1..] && b == [b[0]] + b[1..];
      }
    }
  }

  lemma {:induction false} StrLessAsymmetric(a: string, b: string)
    requires StrLess(a, b)
    ensures !StrLess(b, a)
  {
    if a != [] && b != [] && a[0] == b[0] {
      StrLessAsymmetric(a[1..], b[1..]);
    }
  }

  /** Whatever `y` is, it comes after `x` or before `z` when `x < z`. */
  lemma StrLessSplits(x: string, y: string, z: string)
    requires StrLess(x, z)
    ensures StrLess(x, y) || StrLess(y, z)
  {
    StrLessTotal(x, y);
    StrLessTotal(y, z);
    StrLessAsymmetric(x, z);
    if StrLess(y, x) && StrLess(z, y) {
      StrLessTransitive(z, y, x);
    }
  }

  /** Strictly ascending in the order of `<` on strings. */
  predicate StrictlySorted(s: seq<string>) {
    forall i, j :: 0 <= i < j < |s| ==> StrLess(s[i], s[j])
  }

  /** A strictly ascending sequence of strings repeats none. */
  lemma SortedDistinct(s: seq<string>)
    requires StrictlySorted(s)
    ensures forall i, j :: 0 <= i < j < |s| ==> s[i] != s[j]
  {
    forall i, j | 0 <= i < j < |s| ensures s[i] != s[j] {
      StrLessIrreflexive(s[i]);
    }
  }

  /** Put `k` into its place in a strictly ascending sequence that lacks it. */
  function InsertSorted(s: seq<string>, k: string): (r: seq<string>)
    requires StrictlySorted(s) && k !in s
    ensures StrictlySorted(r)
    ensures forall c :: c in r <==> c in s || c == k
    ensures |r| == |s| + 1
  {
    if s == [] then [k]
    else if StrLess(k, s[0]) then
      assert forall j :: 0 < j < |s| ==> StrLess(k, s[j]) by {
        forall j | 0 < j < |s| ensures StrLess(k, s[j]) {
          StrLessTransitive(k, s[0], s[j]);
        }
      }
      [k] + s
    else
      StrLessTotal(k, s[0]);
      var t := InsertSorted(s[1..], k);
      assert forall c :: c in t ==> StrLess(s[0], c) by {
        forall c | c in t ensures StrLess(s[0], c) {
          if c != k {
            var j :| 0 <= j < |s[1..]| && s[1..][j] == c;
            assert s[j + 1] == c;
          }
        }
      }
      [s[0]] + t
  }
}
