/**
 * The JavaScript string operations the scraper and its form rely on:
 * `String.prototype.trim`, the quote replacement `replace(/"/g, "'")`,
 * `Array.prototype.join`, `parseInt(s, 10)`, and the numeric test behind
 * `isNaN(s)` for a string `s` (the StringNumericLiteral grammar of the
 * ECMAScript language specification).
 */
module Text {
  import opened Wrappers

  /**
   * The white space and line terminator code points that `trim` strips and
   * that `Number` ignores around a literal: TAB, LF, VT, FF, CR, SPACE, NBSP,
   * the Unicode space separators, LINE and PARAGRAPH SEPARATOR, and the BOM.
   */
  predicate IsSpace(c: char) {
    var n := c as int;
    (0x09 <= n <= 0x0D) || n == 0x20 || n == 0xA0 || n == 0x1680 ||
    (0x2000 <= n <= 0x200A) || n == 0x2028 || n == 0x2029 || n == 0x202F ||
    n == 0x205F || n == 0x3000 || n == 0xFEFF
  }

  /**
   * `s` without its leading white space: a suffix of `s` that does not start
   * with white space (TrimStartDropsSpace: only white space was dropped).
   */
  function TrimStart(s: string): (r: string)
    ensures |r| <= |s| && r == s[|s| - |r|..]
    ensures r == [] || !IsSpace(r[0])
  {
    if s != [] && IsSpace(s[0]) then TrimStart(s[1..]) else s
  }

  /**
   * `s` without its trailing white space: a prefix of `s` that does not end
   * with white space (TrimEndDropsSpace: only white space was dropped).
   */
  function TrimEnd(s: string): (r: string)
    ensures |r| <= |s| && r == s[..|r|]
    ensures r == [] || !IsSpace(r[|r| - 1])
  {
    if s != [] && IsSpace(s[|s| - 1]) then TrimEnd(s[..|s| - 1]) else s
  }

  /** Everything `TrimStart` drops is white space. */
  lemma {:induction false} TrimStartDropsSpace(s: string)
    ensures forall i :: 0 <= i < |s| - |TrimStart(s)| ==> IsSpace(s[i])
  {
    if s != [] && IsSpace(s[0]) {
      TrimStartDropsSpace(s[1..]);
      forall i | 1 <= i < |s| - |TrimStart(s)|
        ensures IsSpace(s[i])
      {
        assert s[i] == s[1..][i - 1];
      }
    }
  }

  /** Everything `TrimEnd` drops is white space. */
  lemma {:induction false} TrimEndDropsSpace(s: string)
    ensures forall i :: |TrimEnd(s)| <= i < |s| ==> IsSpace(s[i])
  {
    if s != [] && IsSpace(s[|s| - 1]) {
      TrimEndDropsSpace(s[..|s| - 1]);
      forall i | |TrimEnd(s)| <= i < |s| - 1
        ensures IsSpace(s[i])
      {
        assert s[i] == s[..|s| - 1][i];
      }
    }
  }

  /** `s.trim()`: the middle of `s` that neither starts nor ends with white space. */
  function Trim(s: string): (r: string)
    ensures |r| <= |s|
    ensures r == [] || (!IsSpace(r[0]) && !IsSpace(r[|r| - 1]))
  {
    TrimEnd(TrimStart(s))
  }

  /** A form field or feed text is blank when `trim()` leaves the empty (falsy) string. */
  predicate Blank(s: string) {
    Trim(s) == []
  }

  /** Neither starts nor ends with white space. */
  predicate Unpadded(s: string) {
    s == [] || (!IsSpace(s[0]) && !IsSpace(s[|s| - 1]))
  }

  /** A text that neither starts nor ends with white space is its own trim. */
  lemma TrimUnspaced(s: string)
    requires Unpadded(s)
    ensures TrimStart(s) == s && TrimEnd(s) == s && Trim(s) == s
  {
  }

  /** A text is blank exactly when every one of its characters is white space. */
  lemma BlankIffAllSpace(s: string)
    ensures Blank(s) <==> forall i :: 0 <= i < |s| ==> IsSpace(s[i])
  {
    TrimStartDropsSpace(s);
    TrimEndDropsSpace(TrimStart(s));
  }

  /** Trimming twice trims no more than trimming once. */
  lemma TrimIdempotent(s: string)
    ensures Trim(Trim(s)) == Trim(s)
  {
    var r := Trim(s);
    assert TrimStart(r) == r;
    assert TrimEnd(r) == r;
  }

  /** `replace(/"/g, "'")`: every double quote becomes a single quote. */
  function Sanitise(s: string): (r: string)
    ensures |r| == |s|
    ensures '"' !in r
    ensures forall i :: 0 <= i < |s| && s[i] != '"' ==> r[i] == s[i]
    ensures forall i :: 0 <= i < |s| && s[i] == '"' ==> r[i] == '\''
  {
    if s == [] then [] else [if s[0] == '"' then '\'' else s[0]] + Sanitise(s[1..])
  }

  /** A text without double quotes passes through the replacement unchanged. */
  lemma SanitiseKeepsQuoteFree(s: string)
    requires '"' !in s
    ensures Sanitise(s) == s
  {
  }

  /** Total length of a list of texts. */
  function TotalLength(parts: seq<string>): nat {
    if parts == [] then 0 else |parts[0]| + TotalLength(parts[1..])
  }

  /** `parts.join(sep)`: the parts in order with `sep` between neighbours. */
  function Join(parts: seq<string>, sep: string): (r: string)
    ensures parts == [] ==> r == []
    ensures |parts| == 1 ==> r == parts[0]
    ensures parts != [] ==> |r| == TotalLength(parts) + (|parts| - 1) * |sep|
  {
    if parts == [] then []
    else if |parts| == 1 then parts[0]
    else parts[0] + sep + Join(parts[1..], sep)
  }

  /** Joining two non-empty lists is joining each and putting `sep` between them. */
  lemma {:induction false} JoinAppend(a: seq<string>, b: seq<string>, sep: string)
    requires a != [] && b != []
    ensures Join(a + b, sep) == Join(a, sep) + sep + Join(b, sep)
    decreases |a|
  {
    if |a| == 1 {
      assert (a + b)[1..] == b;
    } else {
      assert (a + b)[1..] == a[1..] + b;
      JoinAppend(a[1..], b, sep);
    }
  }

  predicate IsDigit(c: char) {
    '0' <= c <= '9'
  }

  predicate AllDigits(s: string) {
    forall i :: 0 <= i < |s| ==> IsDigit(s[i])
  }

  /** Length of the longest prefix of `s` made of decimal digits. */
  function DigitRun(s: string): (n: nat)
    ensures n <= |s| && AllDigits(s[..n])
    ensures n < |s| ==> !IsDigit(s[n])
  {
    if s != [] && IsDigit(s[0]) then 1 + DigitRun(s[1..]) else 0
  }

  /** The number a string of decimal digits denotes. */
  function DigitsValue(ds: string): nat
    requires AllDigits(ds)
  {
    if ds == [] then 0 else 10 * DigitsValue(ds[..|ds| - 1]) + (ds[|ds| - 1] as int - '0' as int)
  }

  /**
   * `parseInt(s, 10)`: skip leading white space, read an optional sign and
   * then the longest run of decimal digits; None (NaN) when there is no digit.
   */
  function ParseInt(s: string): Option<int> {
    var t := TrimStart(s);
    var signed := t != [] && (t[0] == '-' || t[0] == '+');
    var body := if signed then t[1..] else t;
    var n := DigitRun(body);
    var v: int := if n == 0 then 0 else DigitsValue(body[..n]);
    if n == 0 then None
    else if signed && t[0] == '-' then Some(-v)
    else Some(v)
  }

  /** The decimal numeral of `n`, without sign or leading zeros. */
  function Decimal(n: nat): (s: string)
    ensures s != [] && AllDigits(s)
  {
    var d := ['0' + (n % 10) as char];
    if n < 10 then d else Decimal(n / 10) + d
  }

  /** Reading back a decimal numeral gives the number it was written from. */
  lemma {:induction false} DecimalValue(n: nat)
    ensures DigitsValue(Decimal(n)) == n
  {
    if n >= 10 {
      DecimalValue(n / 10);
      var s := Decimal(n);
      assert s[..|s| - 1] == Decimal(n / 10);
    }
  }

  /** `parseInt` reads back what `Decimal` writes. */
  lemma ParseIntDecimal(n: nat)
    ensures ParseInt(Decimal(n)) == Some(n)
  {
    var s := Decimal(n);
    assert !IsSpace(s[0]);
    assert TrimStart(s) == s;
    DigitRunAll(s);
    assert s[..|s|] == s;
    DecimalValue(n);
  }

  lemma {:induction false} DigitRunAll(s: string)
    requires AllDigits(s)
    ensures DigitRun(s) == |s|
  {
    if s != [] {
      DigitRunAll(s[1..]);
    }
  }

  /**
   * `parseInt` stops at the first character that is not a digit: a numeral
   * followed by anything else (".5", "e3", " pages") reads as the numeral.
   */
  lemma ParseIntStopsAtNonDigit(ds: string, rest: string)
    requires ds != [] && AllDigits(ds)
    requires rest == [] || !IsDigit(rest[0])
    ensures ParseInt(ds + rest) == Some(DigitsValue(ds))
  {
    var s := ds + rest;
    assert s[0] == ds[0];
    ParseIntUnsigned(s);
    DigitRunPrefix(ds, rest);
    assert s[..|ds|] == ds;
  }

  /** Text that starts with a digit reads as its leading run of digits. */
  lemma ParseIntUnsigned(s: string)
    requires s != [] && IsDigit(s[0])
    ensures DigitRun(s) > 0 && ParseInt(s) == Some(DigitsValue(s[..DigitRun(s)]))
  {
    assert !IsSpace(s[0]);
    assert TrimStart(s) == s;
  }

  lemma {:induction false} DigitRunPrefix(ds: string, rest: string)
    requires AllDigits(ds)
    requires rest == [] || !IsDigit(rest[0])
    ensures DigitRun(ds + rest) == |ds|
    decreases |ds|
  {
    if ds == [] {
      assert ds + rest == rest;
    } else {
      assert (ds + rest)[1..] == ds[1..] + rest;
      DigitRunPrefix(ds[1..], rest);
    }
  }

  /** `e` or `E` followed by an optionally signed run of digits, or nothing at all. */
  predicate OptExponent(s: string) {
    s == [] ||
    (|s| >= 2 && (s[0] == 'e' || s[0] == 'E') &&
     var u := if s[1] == '+' || s[1] == '-' then s[2..] else s[1..];
     u != [] && AllDigits(u))
  }

  /**
   * StrUnsignedDecimalLiteral: `Infinity`, or digits with an optional
   * fraction, or a fraction alone, each with an optional exponent.
   */
  predicate UnsignedDecimal(s: string) {
    s == "Infinity" ||
    var a := DigitRun(s);
    var rest := s[a..];
    if rest != [] && rest[0] == '.' then
      var b := DigitRun(rest[1..]);
      (a > 0 || b > 0) && OptExponent(rest[1 + b..])
    else
      a > 0 && OptExponent(rest)
  }

  predicate IsHexDigit(c: char) {
    IsDigit(c) || ('a' <= c <= 'f') || ('A' <= c <= 'F')
  }

  /** NonDecimalIntegerLiteral: `0x`, `0o` or `0b` and at least one digit of that base. */
  predicate NonDecimal(s: string) {
    |s| > 2 && s[0] == '0' &&
    ((s[1] in "xX" && forall i :: 2 <= i < |s| ==> IsHexDigit(s[i])) ||
     (s[1] in "oO" && forall i :: 2 <= i < |s| ==> '0' <= s[i] <= '7') ||
     (s[1] in "bB" && forall i :: 2 <= i < |s| ==> s[i] == '0' || s[i] == '1'))
  }

  /** StringNumericLiteral once the surrounding white space is gone; empty reads as 0. */
  predicate NumericLiteral(s: string) {
    s == [] || NonDecimal(s) || UnsignedDecimal(s) ||
    (s[0] in "+-" && UnsignedDecimal(s[1..]))
  }

  /** `isNaN(s)` for a string `s`: `Number(s)` is NaN exactly when `s` is not a numeric literal. */
  predicate NumberIsNaN(s: string) {
    !NumericLiteral(Trim(s))
  }

  /** A decimal numeral has no white space to trim and is a number to `Number`. */
  lemma DecimalIsNumber(n: nat)
    ensures Trim(Decimal(n)) == Decimal(n)
    ensures !NumberIsNaN(Decimal(n))
  {
    var s := Decimal(n);
    assert !IsSpace(s[0]) && !IsSpace(s[|s| - 1]);
    assert TrimStart(s) == s;
    assert TrimEnd(s) == s;
    DigitRunAll(s);
    assert s[|s|..] == [];
  }
}
