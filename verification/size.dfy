/**
 * Size arguments: a number in C syntax (decimal, 0x hex or 0 octal) with an
 * optional binary unit suffix k, m, g or t in either case. ULLONG_MAX is the
 * error value.
 */
module Size {
  import opened Machine
  import opened CStr

  const SZ_1K: nat := 0x400
  const SZ_1M: nat := 0x10_0000
  const SZ_1G: nat := 0x4000_0000
  const SZ_1T: nat := 0x100_0000_0000

  predicate IsSuffix(c: char)
  {
    c in {'k', 'K', 'm', 'M', 'g', 'G', 't', 'T'}
  }

  /** The multiplier a suffix character stands for; 1 for any other character. */
  function Unit(c: char): (u: nat)
    ensures u >= 1
    ensures IsSuffix(c) <==> u > 1
  {
    if c == 'k' || c == 'K' then SZ_1K
    else if c == 'm' || c == 'M' then SZ_1M
    else if c == 'g' || c == 'G' then SZ_1G
    else if c == 't' || c == 'T' then SZ_1T
    else 1
  }

  /**
   * The parser as written: a converted value of ULLONG_MAX is returned as
   * is; the product with the unit wraps at 2^64, and only a wrapped product
   * smaller than the number is taken as overflow. Anything after the number
   * and its optional suffix gives ULLONG_MAX.
   */
  function ParseSize64(s: string): (r: nat)
    ensures r <= ULLONG_MAX
    ensures Strtoull(s).value == ULLONG_MAX ==> r == ULLONG_MAX
    ensures r != ULLONG_MAX ==> At(s, Strtoull(s).end + (if IsSuffix(At(s, Strtoull(s).end)) then 1 else 0)) == '\0'
  {
    var c := Strtoull(s);
    if c.value == ULLONG_MAX then ULLONG_MAX
    else
      var u := Unit(At(s, c.end));
      var v := Wrap64(c.value * u);
      var end := if u > 1 then c.end + 1 else c.end;
      if v < c.value || At(s, end) != '\0' then ULLONG_MAX else v
  }

  /**
   * The parser with the overflow test the wrap check is meant to be: a
   * product beyond ULLONG_MAX gives ULLONG_MAX.
   */
  function ParseSize64Checked(s: string): (r: nat)
    ensures r <= ULLONG_MAX
    ensures r != ULLONG_MAX ==> r == Strtoull(s).value * Unit(At(s, Strtoull(s).end))
  {
    var c := Strtoull(s);
    if c.value == ULLONG_MAX then ULLONG_MAX
    else
      var u := Unit(At(s, c.end));
      var end := if u > 1 then c.end + 1 else c.end;
      if c.value * u > ULLONG_MAX || At(s, end) != '\0' then ULLONG_MAX else c.value * u
  }

  /**
   * A decimal numeral with an optional suffix parses to the number times
   * the unit when that fits below ULLONG_MAX, and to ULLONG_MAX otherwise.
   */
  lemma CheckedParsesNumerals(n: nat, suffix: string)
    requires n < ULLONG_MAX
    requires suffix == [] || (|suffix| == 1 && IsSuffix(suffix[0]))
    ensures var u := if suffix == [] then 1 else Unit(suffix[0]);
      ParseSize64Checked(Decimal(n) + suffix) == if n * u < ULLONG_MAX then n * u else ULLONG_MAX
  {
    DecimalRoundTrip(n, suffix);
    var s := Decimal(n) + suffix;
    var d := |Decimal(n)|;
    assert Strtoull(s) == Conv(n, d);
    assert At(s, d) == At(suffix, 0);
    if suffix == [] {
      assert Unit(At(s, d)) == 1;
    } else {
      assert At(s, d + 1) == '\0';
      var u := Unit(suffix[0]);
      UnitProductNotMax(n, u);
    }
  }

  /** No multiple of a power of two above 1 equals the odd ULLONG_MAX. */
  lemma UnitProductNotMax(n: nat, u: nat)
    requires u in {SZ_1K, SZ_1M, SZ_1G, SZ_1T}
    ensures n * u != ULLONG_MAX
  {
    assert u % 2 == 0;
    assert (n * u) % 2 == 0 by {
      assert n * u == 2 * (n * (u / 2));
    }
  }

  /** Without wrap-around the two parsers agree on every string. */
  lemma ParsersAgreeWithoutWrap(s: string)
    requires Strtoull(s).value * Unit(At(s, Strtoull(s).end)) <= ULLONG_MAX
    ensures ParseSize64(s) == ParseSize64Checked(s)
  {
    var c := Strtoull(s);
    var u := Unit(At(s, c.end));
    MulAtLeast(c.value, u);
    ModSmall(c.value * u, U64);
    assert Wrap64(c.value * u) == c.value * u;
  }

  /** A plain numeral parses to its value under both parsers. */
  lemma PlainNumeral(n: nat)
    requires n < ULLONG_MAX
    ensures ParseSize64(Decimal(n)) == n
    ensures ParseSize64Checked(Decimal(n)) == n
  {
    var d := Decimal(n);
    assert d + "" == d;
    DecimalRoundTrip(n, "");
    assert Strtoull(d) == Conv(n, |d|);
    assert At(d, |d|) == '\0';
    assert Unit('\0') == 1;
    ModSmall(n, U64);
  }

  /** Text after the numeral other than a lone suffix gives ULLONG_MAX. */
  lemma TrailingTextRejected(n: nat, tail: string)
    requires n < ULLONG_MAX && |tail| >= 1
    requires DigitVal(tail[0]) >= 10 && tail[0] != 'x' && tail[0] != 'X' && tail[0] != '\0'
    requires IsSuffix(tail[0]) ==> |tail| >= 2 && tail[1] != '\0'
    ensures ParseSize64(Decimal(n) + tail) == ULLONG_MAX
    ensures ParseSize64Checked(Decimal(n) + tail) == ULLONG_MAX
  {
    DecimalRoundTrip(n, tail);
    var s := Decimal(n) + tail;
    var d := |Decimal(n)|;
    assert At(s, d) == tail[0];
    if IsSuffix(tail[0]) {
      assert At(s, d + 1) == tail[1];
    }
  }

  /**
   * "16777217T" is 2^64 + 2^40 bytes: the u64 product wraps to 2^40, which is
   * not below 16777217, so the wrap goes unnoticed.
   */
  lemma WrapUndetected()
    ensures ParseSize64(Decimal(16777217) + "T") == SZ_1T
    ensures ParseSize64Checked(Decimal(16777217) + "T") == ULLONG_MAX
  {
    assert 16777217 * SZ_1T == U64 + SZ_1T;
    ModShift(SZ_1T);
    TeraWraps(16777217);
  }

  /** Subtracting one whole modulus leaves the remainder unchanged. */
  lemma ModShift(v: nat)
    requires v < U64
    ensures Wrap64(U64 + v) == v
  {
  }

  /** A numeral with suffix T whose product wraps to at least the numeral passes the as-written test. */
  lemma TeraWraps(n: nat)
    requires n < ULLONG_MAX && n * SZ_1T > ULLONG_MAX && Wrap64(n * SZ_1T) >= n
    ensures ParseSize64(Decimal(n) + "T") == Wrap64(n * SZ_1T)
    ensures ParseSize64Checked(Decimal(n) + "T") == ULLONG_MAX
  {
    var s := Decimal(n) + "T";
    DecimalRoundTrip(n, "T");
    assert At(s, |Decimal(n)|) == 'T';
    assert At(s, |Decimal(n)| + 1) == '\0';
  }
}
