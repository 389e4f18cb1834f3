/**
 * The C library string conversions the modelled code relies on, for the C
 * locale: `strtoull`/`strtoul` with base 0, `strtol` with base 10, the `%d`
 * and `%ld` conversions of `sscanf`, `strtok_r` with a one-character
 * delimiter, and `strncmp` prefix tests. A string's end, or an embedded NUL,
 * acts as the C terminator.
 */
module CStr {
  import opened Machine
  import opened Wrappers

  const LONG_MAX: int := 0x7FFF_FFFF_FFFF_FFFF
  const LONG_MIN: int := -0x8000_0000_0000_0000

  /** The character at `i`, or NUL past the end. */
  function At(s: string, i: nat): char
  {
    if i < |s| then s[i] else '\0'
  }

  /** `isspace` in the C locale: space, tab, newline, vertical tab, form feed, carriage return. */
  predicate IsSpace(c: char)
  {
    c == ' ' || 9 <= c as int <= 13
  }

  /** A character's value as a digit in any base up to 36; 36 for a non-digit. */
  function DigitVal(c: char): (d: nat)
    ensures d <= 36
  {
    if '0' <= c <= '9' then c as int - '0' as int
    else if 'a' <= c <= 'z' then c as int - 'a' as int + 10
    else if 'A' <= c <= 'Z' then c as int - 'A' as int + 10
    else 36
  }

  /** The first index at or after `i` that is not white space. */
  function SkipSpace(s: string, i: nat): (j: nat)
    requires i <= |s|
    ensures i <= j <= |s| && !IsSpace(At(s, j))
    ensures forall k :: i <= k < j ==> IsSpace(s[k])
    decreases |s| - i
  {
    if i < |s| && IsSpace(s[i]) then SkipSpace(s, i + 1) else i
  }

  /** The end of the run of base-`base` digits starting at `i`. */
  function DigitRun(s: string, i: nat, base: nat): (j: nat)
    requires i <= |s| && base <= 36
    ensures i <= j <= |s| && DigitVal(At(s, j)) >= base
    ensures forall k :: i <= k < j ==> DigitVal(s[k]) < base
    decreases |s| - i
  {
    if i < |s| && DigitVal(s[i]) < base then DigitRun(s, i + 1, base) else i
  }

  /** The value of a digit string in `base`, most significant digit first. */
  function DigitsValue(d: string, base: nat): nat
  {
    if |d| == 0 then 0
    else DigitsValue(d[..|d| - 1], base) * base + DigitVal(d[|d| - 1])
  }

  /** An optional sign, then digits: what the `strto*` family reads. */
  datatype Scanned = Scanned(negative: bool, magnitude: nat, end: nat, any: bool)

  /**
   * Base detection for base 0: `0x` or `0X` followed by a hex digit selects
   * hex, a leading `0` selects octal, anything else decimal. Returns the base
   * and where the digits begin.
   */
  function DetectBase(s: string, i: nat): (r: (nat, nat))
    requires i <= |s|
    ensures r.1 <= |s| && r.0 in {8, 10, 16}
  {
    if At(s, i) == '0' && (At(s, i + 1) == 'x' || At(s, i + 1) == 'X') && DigitVal(At(s, i + 2)) < 16 then (16, i + 2)
    else if At(s, i) == '0' then (8, i)
    else (10, i)
  }

  /**
   * White space, an optional sign, then the longest digit run in the base
   * (0 for detection, otherwise 10). With no digits nothing is consumed.
   */
  function Scan(s: string, base0: bool): (r: Scanned)
    ensures r.end <= |s|
    ensures !r.any ==> r.end == 0 && r.magnitude == 0
  {
    var i := SkipSpace(s, 0);
    var negative := At(s, i) == '-';
    var i1 := if At(s, i) == '-' || At(s, i) == '+' then i + 1 else i;
    var (base, start) := if base0 then DetectBase(s, i1) else (10, i1);
    var j := DigitRun(s, start, base);
    if j == start then Scanned(false, 0, 0, false)
    else Scanned(negative, DigitsValue(s[start..j], base), j, true)
  }

  /** The value `strtoull` (and, with 64-bit longs, `strtoul`) returns, and where it stopped. */
  datatype Conv = Conv(value: int, end: nat)

  /**
   * `strtoull(s, &end, 0)`: an out-of-range magnitude gives ULLONG_MAX; a
   * negative number is negated in unsigned arithmetic.
   */
  function Strtoull(s: string): (r: Conv)
    ensures 0 <= r.value <= ULLONG_MAX && r.end <= |s|
  {
    var sc := Scan(s, true);
    if !sc.any then Conv(0, 0)
    else if sc.magnitude > ULLONG_MAX then Conv(ULLONG_MAX, sc.end)
    else Conv(if sc.negative then Wrap64(-(sc.magnitude as int)) else sc.magnitude, sc.end)
  }

  /** `strtol(s, &end, 10)`: out-of-range values clamp to LONG_MIN or LONG_MAX. */
  function Strtol(s: string): (r: Conv)
    ensures LONG_MIN <= r.value <= LONG_MAX && r.end <= |s|
  {
    var sc := Scan(s, false);
    if !sc.any then Conv(0, 0)
    else if sc.negative then Conv(if sc.magnitude > -LONG_MIN then LONG_MIN else -(sc.magnitude as int), sc.end)
    else Conv(if sc.magnitude > LONG_MAX then LONG_MAX else sc.magnitude, sc.end)
  }

  /** Conversion of a value to a 32-bit `int` by two's complement wrap-around. */
  function ToInt32(v: int): (r: int)
    ensures -0x8000_0000 <= r < 0x8000_0000
    ensures -0x8000_0000 <= v < 0x8000_0000 ==> r == v
  {
    var w := Wrap32(v);
    if w >= 0x8000_0000 then w - U32 else w
  }

  /**
   * A `%d` or `%ld` conversion of `sscanf` at `i`: the value and the index
   * after it, or None when no digits follow the white space and sign.
   */
  function ScanDecimal(s: string, i: nat): (r: Option<Conv>)
    requires i <= |s|
    ensures r.Some? ==> i < r.value.end <= |s| && LONG_MIN <= r.value.value <= LONG_MAX
  {
    var c := Strtol(s[i..]);
    if c.end == 0 then None else Some(Conv(c.value, i + c.end))
  }

  /** `sscanf(s, "%d", &v) == 1`, with the value converted to `int`. */
  function ScanInt(s: string): (r: Option<int>)
    ensures r.Some? ==> -0x8000_0000 <= r.value < 0x8000_0000
  {
    var c := ScanDecimal(s, 0);
    if c.Some? then Some(ToInt32(c.value.value)) else None
  }

  /** `strncmp(s, p, |p|) == 0` for a NUL-free prefix `p`: `s` starts with `p`. */
  predicate HasPrefix(s: string, p: string)
  {
    |p| <= |s| && s[..|p|] == p
  }

  // ---------------------------------------------------------------------
  // Decimal numerals
  // ---------------------------------------------------------------------

  /** The decimal numeral of `n`, without leading zeros. */
  function Decimal(n: nat): (r: string)
    ensures |r| >= 1
    decreases n
  {
    if n < 10 then [('0' as int + n) as char]
    else Decimal(n / 10) + [('0' as int + n % 10) as char]
  }

  lemma {:induction false} DecimalShape(n: nat)
    ensures forall k :: 0 <= k < |Decimal(n)| ==> '0' <= Decimal(n)[k] <= '9'
    ensures n > 0 ==> Decimal(n)[0] != '0'
    ensures n == 0 ==> Decimal(n) == "0"
    decreases n
  {
    if n >= 10 {
      DecimalShape(n / 10);
    }
  }

  lemma {:induction false} DecimalValue(n: nat)
    ensures DigitsValue(Decimal(n), 10) == n
    decreases n
  {
    if n >= 10 {
      DecimalValue(n / 10);
      var d := Decimal(n);
      assert d[..|d| - 1] == Decimal(n / 10);
    }
  }

  /** A run over characters that are all digits reaches the end of the string. */
  lemma {:induction false} DigitRunToEnd(s: string, i: nat, j: nat, base: nat)
    requires i <= j <= |s| && base <= 36
    requires forall k :: i <= k < j ==> DigitVal(s[k]) < base
    requires DigitVal(At(s, j)) >= base
    ensures DigitRun(s, i, base) == j
    decreases j - i
  {
    if i < j {
      DigitRunToEnd(s, i + 1, j, base);
    }
  }

  /** The numeral of `n` at the head of a string: no white space or sign before it, and a decimal digit run exactly its length. */
  lemma NumeralDigits(n: nat, tail: string)
    requires DigitVal(At(tail, 0)) >= 10
    ensures var s := Decimal(n) + tail;
            SkipSpace(s, 0) == 0 && At(s, 0) != '-' && At(s, 0) != '+' &&
            DigitRun(s, 0, 10) == |Decimal(n)| && s[0..|Decimal(n)|] == Decimal(n)
  {
    var d := Decimal(n);
    var s := d + tail;
    DecimalShape(n);
    assert At(s, |d|) == At(tail, 0);
    assert !IsSpace(s[0]);
    forall k | 0 <= k < |d|
      ensures DigitVal(s[k]) < 10
    {
      assert s[k] == d[k];
    }
    DigitRunToEnd(s, 0, |d|, 10);
  }

  /** Scanning the numeral of `n`, followed by text that does not continue it, reads `n` and stops after the numeral. */
  lemma ScanNumeral(n: nat, tail: string, base0: bool)
    requires DigitVal(At(tail, 0)) >= 10 && At(tail, 0) != 'x' && At(tail, 0) != 'X'
    ensures Scan(Decimal(n) + tail, base0) == Scanned(false, n, |Decimal(n)|, true)
  {
    var d := Decimal(n);
    var s := d + tail;
    NumeralDigits(n, tail);
    DecimalValue(n);
    if base0 && n == 0 {
      DecimalShape(n);
      assert DetectBase(s, 0) == (8, 0);
      ZeroOctal(s);
    } else if base0 {
      DecimalShape(n);
      assert DetectBase(s, 0) == (10, 0);
    }
  }

  /** A lone 0 read in base 8 is the value 0, one digit long. */
  lemma ZeroOctal(s: string)
    requires |s| >= 1 && s[0] == '0' && DigitVal(At(s, 1)) >= 10
    ensures DigitRun(s, 0, 8) == 1 && DigitsValue(s[0..1], 8) == 0
  {
    DigitRunToEnd(s, 0, 1, 8);
    assert s[0..1][..0] == [];
  }

  /**
   * The numeral of `n`, followed by text that neither continues the number
   * nor turns a leading 0 into a hex prefix, converts back to `n` and stops
   * right after the numeral.
   */
  lemma DecimalRoundTrip(n: nat, tail: string)
    requires n <= ULLONG_MAX
    requires DigitVal(At(tail, 0)) >= 10 && At(tail, 0) != 'x' && At(tail, 0) != 'X'
    ensures Strtoull(Decimal(n) + tail) == Conv(n, |Decimal(n)|)
    ensures n <= LONG_MAX ==> Strtol(Decimal(n) + tail) == Conv(n, |Decimal(n)|)
  {
    ScanNumeral(n, tail, true);
    ScanNumeral(n, tail, false);
  }

  /** A `%ld` conversion at `i` reads a numeral placed there. */
  lemma ScanDecimalNumeral(s: string, i: nat, n: nat, tail: string)
    requires i <= |s| && s[i..] == Decimal(n) + tail
    requires n <= LONG_MAX
    requires DigitVal(At(tail, 0)) >= 10 && At(tail, 0) != 'x' && At(tail, 0) != 'X'
    ensures ScanDecimal(s, i) == Some(Conv(n, i + |Decimal(n)|))
  {
    DecimalRoundTrip(n, tail);
  }

  // ---------------------------------------------------------------------
  // Tokenizing
  // ---------------------------------------------------------------------

  /**
   * The tokens `strtok_r` returns for one delimiter character: the maximal
   * runs of other characters, in order; empty runs are skipped.
   */
  function Tokens(s: string, sep: char): (r: seq<string>)
    ensures forall t :: t in r ==> |t| > 0 && sep !in t
    decreases |s|
  {
    if |s| == 0 then []
    else if s[0] == sep then Tokens(s[1..], sep)
    else
      var n := TokenLength(s, sep, 0);
      [s[..n]] + Tokens(s[n..], sep)
  }

  /** Length of the run of non-delimiters at `i`. */
  function TokenLength(s: string, sep: char, i: nat): (n: nat)
    requires i <= |s|
    ensures i <= n <= |s| && (n < |s| ==> s[n] == sep)
    ensures forall k :: i <= k < n ==> s[k] != sep
    decreases |s| - i
  {
    if i < |s| && s[i] != sep then TokenLength(s, sep, i + 1) else i
  }

  /** Joining tokens with the delimiter and splitting again gives the tokens back. */
  lemma {:induction false} TokensOfJoin(ts: seq<string>, sep: char)
    requires forall t :: t in ts ==> |t| > 0 && sep !in t
    ensures Tokens(Join(ts, sep), sep) == ts
    decreases |ts|
  {
    if |ts| == 1 {
      TokensOfOne(ts[0], sep);
    } else if |ts| > 1 {
      assert forall u :: u in ts[1..] ==> u in ts;
      TokensOfJoin(ts[1..], sep);
      TokensOfCons(ts[0], sep, Join(ts[1..], sep));
    }
  }

  lemma TokensOfOne(t: string, sep: char)
    requires |t| > 0 && sep !in t
    ensures Tokens(t, sep) == [t]
  {
    TokenLengthFrom(t, sep, 0, |t|);
    assert t[..|t|] == t;
    assert t[|t|..] == [];
  }

  lemma TokensOfCons(t: string, sep: char, rest: string)
    requires |t| > 0 && sep !in t
    ensures Tokens(t + [sep] + rest, sep) == [t] + Tokens(rest, sep)
  {
    var s := t + [sep] + rest;
    TokenLengthFrom(s, sep, 0, |t|);
    assert s[0] == t[0] && s[0] != sep;
    assert s[..|t|] == t;
    var after := s[|t|..];
    assert after == [sep] + rest;
    assert after[1..] == rest;
    assert Tokens(after, sep) == Tokens(rest, sep);
  }

  lemma {:induction false} TokenLengthFrom(s: string, sep: char, i: nat, n: nat)
    requires i <= n <= |s|
    requires forall k :: i <= k < n ==> s[k] != sep
    requires n == |s| || s[n] == sep
    ensures TokenLength(s, sep, i) == n
    decreases n - i
  {
    if i < n {
      TokenLengthFrom(s, sep, i + 1, n);
    }
  }

  /** Tokens separated by single delimiters. */
  function Join(ts: seq<string>, sep: char): string
  {
    if |ts| == 0 then ""
    else if |ts| == 1 then ts[0]
    else ts[0] + [sep] + Join(ts[1..], sep)
  }

  // ---------------------------------------------------------------------
  // Delimiter-terminated fields
  // ---------------------------------------------------------------------

  /**
   * The fields a `while ((end = strchr(start, sep)))` loop visits: every
   * run of characters that a delimiter ends, empty runs included; the text
   * after the last delimiter is never visited.
   */
  function Fields(s: string, sep: char): (r: seq<string>)
    ensures forall t :: t in r ==> sep !in t
    decreases |s|
  {
    var n := TokenLength(s, sep, 0);
    if n == |s| then [] else [s[..n]] + Fields(s[n + 1..], sep)
  }

  /** Every field followed by the delimiter, as a sysfs list attribute writes them. */
  function Terminated(ts: seq<string>, sep: char): (s: string)
    ensures |ts| > 0 ==> |s| > 0 && s[|s| - 1] == sep
  {
    if |ts| == 0 then "" else ts[0] + [sep] + Terminated(ts[1..], sep)
  }

  /** The first field of a string is the text before its first delimiter. */
  lemma FieldsCons(t: string, sep: char, after: string)
    requires sep !in t
    ensures Fields(t + [sep] + after, sep) == [t] + Fields(after, sep)
  {
    var s := t + [sep] + after;
    assert forall k :: 0 <= k < |t| ==> s[k] == t[k];
    TokenLengthFrom(s, sep, 0, |t|);
    assert s[..|t|] == t;
    assert s[|t| + 1..] == after;
  }

  /** Splitting delimiter-terminated fields gives them back, followed by the fields of whatever text trails them. */
  lemma {:induction false} FieldsOfTerminatedThen(ts: seq<string>, sep: char, rest: string)
    requires forall t :: t in ts ==> sep !in t
    ensures Fields(Terminated(ts, sep) + rest, sep) == ts + Fields(rest, sep)
    decreases |ts|
  {
    if |ts| == 0 {
      assert Terminated(ts, sep) + rest == rest;
    } else {
      FieldsStep(ts, sep, rest);
      assert forall u :: u in ts[1..] ==> u in ts;
      FieldsOfTerminatedThen(ts[1..], sep, rest);
      assert ts + Fields(rest, sep) == [ts[0]] + (ts[1..] + Fields(rest, sep));
    }
  }

  lemma FieldsStep(ts: seq<string>, sep: char, rest: string)
    requires |ts| > 0 && sep !in ts[0]
    ensures Fields(Terminated(ts, sep) + rest, sep) == [ts[0]] + Fields(Terminated(ts[1..], sep) + rest, sep)
  {
    var t := ts[0];
    var tt := Terminated(ts[1..], sep);
    assert Terminated(ts, sep) + rest == t + [sep] + (tt + rest);
    FieldsCons(t, sep, tt + rest);
  }

  /** Splitting delimiter-terminated fields gives them back, whatever delimiter-free text trails them. */
  lemma FieldsOfTerminated(ts: seq<string>, sep: char, tail: string)
    requires forall t :: t in ts ==> sep !in t
    requires sep !in tail
    ensures Fields(Terminated(ts, sep) + tail, sep) == ts
  {
    FieldsOfTerminatedThen(ts, sep, tail);
    TokenLengthFrom(tail, sep, 0, |tail|);
    assert ts + [] == ts;
  }
}
