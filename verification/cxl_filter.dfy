/**
 * The cxl memdev filters: a list of identifiers ("all", a number, "memN" or
 * a device name) and a list of serial numbers, each separated by spaces or
 * commas, select the memory devices to list.
 */
module CxlFilter {
  import opened Machine
  import opened Wrappers
  import opened CStr

  datatype Memdev = Memdev(id: int, serial: Word64, devname: string)

  /** The separator of a filter list: a space if there is one, else a comma if there is one, else a space. */
  function WhichSep(filter: string): (c: char)
    ensures c == ' ' || c == ','
    ensures c == ',' <==> ' ' !in filter && ',' in filter
  {
    if ' ' in filter then ' '
    else if ',' in filter then ','
    else ' '
  }

  /** The tokens of a filter list under its own separator. */
  function ListTokens(filter: string): seq<string>
  {
    Tokens(filter, WhichSep(filter))
  }

  /** A serial token's value when `strtoull(.., 0)` consumes all of it. */
  function SerialValue(t: string): (r: Option<nat>)
    ensures r.Some? ==> r.value <= ULLONG_MAX
  {
    var c := Strtoull(t);
    if |t| == 0 || At(t, c.end) != '\0' then None else Some(c.value)
  }

  /** Whether some token reads as the serial number. */
  function SomeSerialMatches(ts: seq<string>, serial: nat): (b: bool)
    ensures b <==> exists i :: 0 <= i < |ts| && SerialValue(ts[i]) == Some(serial)
  {
    if |ts| == 0 then false
    else if SerialValue(ts[0]) == Some(serial) then true
    else
      var rest := SomeSerialMatches(ts[1..], serial);
      assert forall i :: 1 <= i < |ts| ==> ts[i] == ts[1..][i - 1];
      rest
  }

  /** The serial filter: no list passes every device, otherwise some token must equal the serial. */
  predicate SerialFilter(m: Memdev, serials: Option<string>)
  {
    serials.None? || SomeSerialMatches(ListTokens(serials.value), m.serial)
  }

  /**
   * The id an identifier token names: `sscanf(name, "%d")`, and only when
   * that fails, `sscanf(name, "mem%d")`.
   */
  function TokenId(name: string): (r: Option<int>)
    ensures r.Some? ==> -0x8000_0000 <= r.value < 0x8000_0000
  {
    var plain := ScanInt(name);
    if plain.Some? then plain
    else if HasPrefix(name, "mem") then
      match ScanDecimal(name, 3)
      case Some(c) => Some(ToInt32(c.value))
      case None => None
    else None
  }

  /** One identifier token selects the device: "all", its id, or its name. */
  predicate NameMatches(name: string, m: Memdev)
  {
    name == "all" || TokenId(name) == Some(m.id) || name == m.devname
  }

  function SomeNameMatches(ts: seq<string>, m: Memdev): (b: bool)
    ensures b <==> exists i :: 0 <= i < |ts| && NameMatches(ts[i], m)
  {
    if |ts| == 0 then false
    else if NameMatches(ts[0], m) then true
    else
      var rest := SomeNameMatches(ts[1..], m);
      assert forall i :: 1 <= i < |ts| ==> ts[i] == ts[1..][i - 1];
      rest
  }

  /**
   * The memdev filter: the device passes when no identifier list is given
   * or some token selects it, and in both cases the serial filter passes.
   */
  function MemdevFilter(m: Memdev, ident: Option<string>, serials: Option<string>): (r: Option<Memdev>)
    ensures r.Some? ==> r.value == m
    ensures r.Some? ==> SerialFilter(m, serials)
    ensures ident.None? ==> (r.Some? <==> SerialFilter(m, serials))
  {
    if ident.None? || SomeNameMatches(ListTokens(ident.value), m) then
      if SerialFilter(m, serials) then Some(m) else None
    else None
  }

  datatype JsonFlag = Idle | Human | Health

  /** `params_to_flags`: one display flag per option that is set, and no others. */
  function ParamsToFlags(idle: bool, human: bool, health: bool): (f: set<JsonFlag>)
    ensures Idle in f <==> idle
    ensures Human in f <==> human
    ensures Health in f <==> health
  {
    (if idle then {Idle} else {}) + (if human then {Human} else {}) + (if health then {Health} else {})
  }

  // ---------------------------------------------------------------------
  // Properties
  // ---------------------------------------------------------------------

  /** The numeral of a serial number reads back as that number. */
  lemma SerialNumeral(n: nat)
    requires n <= ULLONG_MAX
    ensures SerialValue(Decimal(n)) == Some(n)
  {
    DecimalRoundTrip(n, "");
    assert Decimal(n) + "" == Decimal(n);
  }

  function Numerals(ns: seq<nat>): (r: seq<string>)
    ensures |r| == |ns|
    ensures forall i :: 0 <= i < |ns| ==> r[i] == Decimal(ns[i])
  {
    if |ns| == 0 then [] else [Decimal(ns[0])] + Numerals(ns[1..])
  }

  /**
   * A comma-separated list of serial numbers passes exactly the devices
   * whose serial is in the list.
   */
  lemma SerialListSelects(ns: seq<nat>, m: Memdev)
    requires forall i :: 0 <= i < |ns| ==> ns[i] <= ULLONG_MAX
    ensures SerialFilter(m, Some(Join(Numerals(ns), ','))) <==> m.serial in ns
  {
    var ts := Numerals(ns);
    ListTokensOfNumerals(ns);
    NumeralsReadBack(ns);
    MatchesListedValue(ts, ns, m.serial);
  }

  /** When every token reads as the matching listed value, a token matches exactly the listed values. */
  lemma {:induction false} MatchesListedValue(ts: seq<string>, vals: seq<nat>, x: nat)
    requires |ts| == |vals|
    requires forall i :: 0 <= i < |ts| ==> SerialValue(ts[i]) == Some(vals[i])
    ensures SomeSerialMatches(ts, x) <==> x in vals
  {
    if x in vals {
      var i :| 0 <= i < |vals| && vals[i] == x;
      assert SerialValue(ts[i]) == Some(x);
    }
  }

  lemma NumeralsReadBack(ns: seq<nat>)
    requires forall i :: 0 <= i < |ns| ==> ns[i] <= ULLONG_MAX
    ensures forall i :: 0 <= i < |ns| ==> SerialValue(Numerals(ns)[i]) == Some(ns[i])
  {
    forall i | 0 <= i < |ns|
      ensures SerialValue(Numerals(ns)[i]) == Some(ns[i])
    {
      SerialNumeral(ns[i]);
    }
  }

  /** A comma-joined list of numerals splits back into the numerals. */
  lemma ListTokensOfNumerals(ns: seq<nat>)
    ensures ListTokens(Join(Numerals(ns), ',')) == Numerals(ns)
  {
    var ts := Numerals(ns);
    var s := Join(ts, ',');
    forall t | t in ts
      ensures |t| > 0 && ',' !in t && ' ' !in t
    {
      var i :| 0 <= i < |ts| && ts[i] == t;
      DecimalShape(ns[i]);
    }
    JoinHasNoSpace(ts, ',');
    if |ts| > 1 {
      assert s == ts[0] + [','] + Join(ts[1..], ',');
      assert s[|ts[0]|] == ',';
      TokensOfJoin(ts, ',');
    } else {
      assert s == if |ts| == 0 then "" else ts[0];
      assert ' ' !in s && ',' !in s;
      assert Join(ts, ' ') == s;
      TokensOfJoin(ts, ' ');
    }
  }

  /** Joining space-free tokens with a comma gives a space-free string. */
  lemma {:induction false} JoinHasNoSpace(ts: seq<string>, sep: char)
    requires sep != ' '
    requires forall t :: t in ts ==> ' ' !in t
    ensures ' ' !in Join(ts, sep)
    decreases |ts|
  {
    if |ts| > 1 {
      assert forall t :: t in ts[1..] ==> t in ts;
      JoinHasNoSpace(ts[1..], sep);
    }
  }

  /** "memN" selects the device with id N. */
  lemma MemNameSelects(m: Memdev)
    requires 0 <= m.id <= 0x7FFF_FFFF
    ensures MemdevFilter(m, Some("mem" + Decimal(m.id)), None).Some?
  {
    var name := "mem" + Decimal(m.id);
    MemNameIsOneToken(m.id);
    assert ListTokens(name) == [name];
    MemNameReadsId(m.id);
    assert NameMatches(name, m);
    assert SomeNameMatches([name], m);
  }

  /**
   * Without a serial list, "memN" selects exactly the devices whose id is
   * N or whose name is "memN".
   */
  lemma MemNameSelectsOnly(m: Memdev, n: nat)
    requires n <= 0x7FFF_FFFF
    ensures MemdevFilter(m, Some("mem" + Decimal(n)), None).Some? <==> m.id == n || m.devname == "mem" + Decimal(n)
  {
    var name := "mem" + Decimal(n);
    MemNameIsOneToken(n);
    assert ListTokens(name) == [name];
    MemNameReadsId(n);
    assert name != "all" by {
      assert name[0] == 'm';
    }
    assert SomeNameMatches([name], m) <==> NameMatches(name, m);
  }

  lemma MemNameIsOneToken(id: nat)
    ensures var name := "mem" + Decimal(id); Tokens(name, WhichSep(name)) == [name]
  {
    var d := Decimal(id);
    var name := "mem" + d;
    DecimalShape(id);
    assert ' ' !in name && ',' !in name by {
      forall k | 0 <= k < |name|
        ensures name[k] != ' ' && name[k] != ','
      {
        if k >= 3 {
          assert name[k] == d[k - 3];
        }
      }
    }
    TokensOfOne(name, ' ');
  }

  lemma MemNameReadsId(id: nat)
    requires id <= 0x7FFF_FFFF
    ensures TokenId("mem" + Decimal(id)) == Some(id as int)
  {
    var d := Decimal(id);
    var name := "mem" + d;
    NoDigitsAtLetter(name);
    assert name[3..] == d + "";
    ScanDecimalNumeral(name, 3, id, "");
    assert name[..3] == "mem";
  }

  /** A token starting with a letter is not a `%d` number. */
  lemma NoDigitsAtLetter(s: string)
    requires |s| > 0 && 'a' <= s[0] <= 'z'
    ensures ScanInt(s).None?
  {
    assert SkipSpace(s, 0) == 0;
    assert DigitVal(s[0]) >= 10;
  }

  /** "all" selects every device the serial filter lets through. */
  lemma AllSelectsEverything(m: Memdev, serials: Option<string>)
    ensures MemdevFilter(m, Some("all"), serials).Some? <==> SerialFilter(m, serials)
  {
    TokensOfOne("all", ' ');
    assert ListTokens("all") == ["all"];
  }
}
