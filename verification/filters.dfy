/**
 * The command-line object filters of ndctl: an identifier selects a bus,
 * region, namespace or DIMM by numeric id or by name, and "all" (or no
 * identifier) selects everything. Each filter hands back the object it was
 * given or nothing.
 */
module Filters {
  import opened Machine
  import opened Wrappers
  import opened CStr

  datatype Dimm = Dimm(id: nat, devname: string)
  datatype Bus = Bus(id: nat, provider: string, dimms: seq<Dimm>)
  datatype Region = Region(id: nat, devname: string, dimms: seq<Dimm>)
  datatype Namespace = Namespace(id: nat, devname: string, regionId: nat)

  /** No identifier, or "all": the filter passes everything. */
  predicate PassesAll(ident: Option<string>)
  {
    ident.None? || ident.value == "all"
  }

  /**
   * The identifier as a number: `strtoul(ident, &end, 0)` when it consumed
   * the whole string, else ULONG_MAX (64 bits wide here), which stands for
   * "not a number".
   */
  function IdentNumber(ident: string): (n: nat)
    ensures n <= ULLONG_MAX
  {
    var c := Strtoull(ident);
    if c.end == 0 || At(ident, c.end) != '\0' then ULLONG_MAX else c.value
  }

  /** The shared matching rule: a number matches the id, anything else matches the name. */
  predicate IdentMatches(ident: string, id: nat, name: string)
  {
    var n := IdentNumber(ident);
    (n < ULLONG_MAX && n == id) || (n == ULLONG_MAX && ident == name)
  }

  function BusFilter(bus: Bus, ident: Option<string>): (r: Option<Bus>)
    ensures r.Some? ==> r.value == bus
    ensures PassesAll(ident) ==> r.Some?
  {
    if PassesAll(ident) || IdentMatches(ident.value, bus.id, bus.provider) then Some(bus) else None
  }

  function RegionFilter(region: Region, ident: Option<string>): (r: Option<Region>)
    ensures r.Some? ==> r.value == region
    ensures PassesAll(ident) ==> r.Some?
  {
    if PassesAll(ident) || IdentMatches(ident.value, region.id, region.devname) then Some(region) else None
  }

  function DimmFilter(dimm: Dimm, ident: Option<string>): (r: Option<Dimm>)
    ensures r.Some? ==> r.value == dimm
    ensures PassesAll(ident) ==> r.Some?
  {
    if PassesAll(ident) || IdentMatches(ident.value, dimm.id, dimm.devname) then Some(dimm) else None
  }

  /**
   * `sscanf(ident, "%ld.%ld", ...) == 2`: two decimal numbers joined by a
   * dot; text after the second number is not looked at.
   */
  function ScanDotted(ident: string): (r: Option<(int, int)>)
  {
    match ScanDecimal(ident, 0)
    case None => None
    case Some(a) =>
      if At(ident, a.end) != '.' then None
      else
        match ScanDecimal(ident, a.end + 1)
        case None => None
        case Some(b) => Some((a.value, b.value))
  }

  /**
   * The namespace filter: the exact device name, or "R.N" naming the region
   * and namespace ids (each number read as a long and compared as an
   * unsigned long).
   */
  function NamespaceFilter(ns: Namespace, ident: Option<string>): (r: Option<Namespace>)
    ensures r.Some? ==> r.value == ns
    ensures PassesAll(ident) ==> r.Some?
  {
    if PassesAll(ident) || ident.value == ns.devname then Some(ns)
    else
      match ScanDotted(ident.value)
      case Some((rid, nid)) =>
        if Wrap64(rid) == ns.regionId && Wrap64(nid) == ns.id then Some(ns) else None
      case None => None
  }

  /** Whether some DIMM of the list matches the identifier by id or name. */
  function AnyDimmMatches(dimms: seq<Dimm>, ident: string): (b: bool)
    ensures b <==> exists i :: 0 <= i < |dimms| && IdentMatches(ident, dimms[i].id, dimms[i].devname)
  {
    if |dimms| == 0 then false
    else if IdentMatches(ident, dimms[0].id, dimms[0].devname) then true
    else
      var rest := AnyDimmMatches(dimms[1..], ident);
      assert forall i :: 1 <= i < |dimms| ==> dimms[i] == dimms[1..][i - 1];
      rest
  }

  function BusFilterByDimm(bus: Bus, ident: Option<string>): (r: Option<Bus>)
    ensures r.Some? ==> r.value == bus
    ensures PassesAll(ident) ==> r.Some?
  {
    if PassesAll(ident) || AnyDimmMatches(bus.dimms, ident.value) then Some(bus) else None
  }

  function RegionFilterByDimm(region: Region, ident: Option<string>): (r: Option<Region>)
    ensures r.Some? ==> r.value == region
    ensures PassesAll(ident) ==> r.Some?
  {
    if PassesAll(ident) || AnyDimmMatches(region.dimms, ident.value) then Some(region) else None
  }

  // ---------------------------------------------------------------------
  // Properties
  // ---------------------------------------------------------------------

  /** A decimal identifier below ULONG_MAX selects exactly the DIMM with that id, whatever its name. */
  lemma NumericIdentSelectsId(n: nat, dimm: Dimm)
    requires n < ULLONG_MAX
    ensures DimmFilter(dimm, Some(Decimal(n))).Some? <==> dimm.id == n
  {
    DecimalRoundTrip(n, "");
    assert Decimal(n) + "" == Decimal(n);
    DecimalShape(n);
    assert Decimal(n)[0] != "all"[0];
  }

  /** An identifier starting with a letter is a name and matches exactly the object of that name. */
  lemma NameIdentSelectsName(ident: string, dimm: Dimm)
    requires |ident| > 0 && 'a' <= ident[0] <= 'z' && ident != "all"
    ensures DimmFilter(dimm, Some(ident)).Some? <==> dimm.devname == ident
  {
    assert SkipSpace(ident, 0) == 0;
    assert DigitVal(ident[0]) >= 10;
    assert IdentNumber(ident) == ULLONG_MAX;
  }

  /** Filtering a bus by DIMM passes exactly when one of its DIMMs passes the DIMM filter. */
  lemma ByDimmMeansSomeDimm(bus: Bus, ident: string)
    requires ident != "all"
    ensures BusFilterByDimm(bus, Some(ident)).Some? <==>
      exists i :: 0 <= i < |bus.dimms| && DimmFilter(bus.dimms[i], Some(ident)).Some?
  {
  }

  /** `sscanf` reads the two numerals of "R.N" back. */
  lemma ScanDottedNumerals(r: nat, n: nat)
    requires r <= LONG_MAX && n <= LONG_MAX
    ensures ScanDotted(Decimal(r) + "." + Decimal(n)) == Some((r as int, n as int))
  {
    var a := Decimal(r);
    var d := Decimal(n);
    var s := a + "." + d;
    assert s[0..] == a + ("." + d);
    ScanDecimalNumeral(s, 0, r, "." + d);
    assert At(s, |a|) == '.';
    assert s[|a| + 1..] == d + "";
    ScanDecimalNumeral(s, |a| + 1, n, "");
  }

  /** "R.N" selects the namespace with id N in the region with id R. */
  lemma DottedIdentSelectsIds(r: nat, n: nat, ns: Namespace)
    requires r <= LONG_MAX && n <= LONG_MAX
    requires ns.devname != Decimal(r) + "." + Decimal(n)
    ensures NamespaceFilter(ns, Some(Decimal(r) + "." + Decimal(n))).Some? <==> ns.regionId == r && ns.id == n
  {
    var s := Decimal(r) + "." + Decimal(n);
    DecimalShape(r);
    assert s[0] != "all"[0];
    ScanDottedNumerals(r, n);
    ModSmall(r, U64);
    ModSmall(n, U64);
  }
}
