/**
 * The option handling of the namespace commands: `set_defaults` checks the
 * command-line strings, turns the mode aliases into the names the library
 * knows and fills in the type, mode, memmap location and sector size a
 * new namespace gets when they are not given; the later validation maps
 * the mode name to a mode and tells a user whose size is not aligned
 * which size was probably meant.
 */
module NamespaceOpts {
  import opened Machine
  import opened Wrappers
  import opened CStr
  import opened Errno
  import Size
  import Libndctl

  /** `enum device_action` of ndctl/action.h. */
  datatype Action = Enable | Disable | Create | Destroy | Check | Wait | Start | Clear | ReadInfoblock

  /**
   * The option strings of `struct parameters` that `set_defaults` reads or
   * writes; None is a NULL pointer. Only whether `--reconfig` was given
   * matters here.
   */
  datatype Params = Params(
    nsType: Option<string>,
    mode: Option<string>,
    memmap: Option<string>,
    size: Option<string>,
    align: Option<string>,
    uuid: Option<string>,
    sectorSize: Option<string>,
    reconfig: bool,
    modeDefault: bool)

  /** The mode names the library knows. */
  predicate CanonicalMode(m: string)
  {
    m == "safe" || m == "memory" || m == "raw" || m == "dax"
  }

  /**
   * The name a `--mode` string stands for: the alias "sector" is "safe",
   * "fsdax" is "memory" and "devdax" is "dax"; the library's own names
   * stand for themselves, and any other string for nothing.
   */
  function ModeAlias(m: string): (r: Option<string>)
    ensures r.Some? ==> CanonicalMode(r.value)
    ensures CanonicalMode(m) ==> r == Some(m)
    ensures r.None? <==> !(CanonicalMode(m) || m == "sector" || m == "fsdax" || m == "devdax")
  {
    if m == "sector" then Some("safe")
    else if m == "fsdax" then Some("memory")
    else if m == "devdax" then Some("dax")
    else if CanonicalMode(m) then Some(m)
    else None
  }

  predicate IsHexDigit(c: char)
  {
    '0' <= c <= '9' || 'a' <= c <= 'f' || 'A' <= c <= 'F'
  }

  /**
   * libuuid's `uuid_parse` accepts exactly 36 characters: hyphens at
   * positions 8, 13, 18 and 23 and hexadecimal digits everywhere else.
   */
  predicate UuidParses(s: string)
  {
    At(s, 36) == '\0'
    && forall i :: 0 <= i < 36 ==>
      if i == 8 || i == 13 || i == 18 || i == 23 then At(s, i) == '-' else IsHexDigit(At(s, i))
  }

  /** A size string `parse_size64` accepts (it returns ULLONG_MAX for every error). */
  predicate SizeParses(s: string)
  {
    Size.ParseSize64(s) != ULLONG_MAX
  }

  /** The result of `set_defaults`: the error code and the parameters as it leaves them. */
  datatype Outcome = Outcome(rc: int, params: Params)

  // ---------------------------------------------------------------------
  // The values set_defaults settles on
  // ---------------------------------------------------------------------

  /** The type after the first step: "pmem" for a new namespace that names none. */
  function FinalType(action: Action, p: Params): (t: Option<string>)
    ensures p.nsType.Some? ==> t == p.nsType
    ensures p.nsType.None? ==> (t.Some? <==> action == Create && !p.reconfig)
    ensures t.Some? && p.nsType.None? ==> t.value == "pmem"
  {
    if p.nsType.Some? then p.nsType
    else if !p.reconfig && action == Create then Some("pmem")
    else None
  }

  /**
   * The mode after the second step: an alias is replaced by its name (an
   * unknown string stays), and with no mode, no reconfiguration and a type,
   * "memory" for pmem and "safe" for any other type.
   */
  function FinalMode(action: Action, p: Params): (m: Option<string>)
    ensures p.mode.Some? && ModeAlias(p.mode.value).Some? ==> m == ModeAlias(p.mode.value)
    ensures p.mode.Some? && ModeAlias(p.mode.value).None? ==> m == p.mode
    ensures p.mode.None? ==> (m.Some? <==> !p.reconfig && FinalType(action, p).Some?)
    ensures p.mode.None? && m.Some? ==> m.value == (if FinalType(action, p).value == "pmem" then "memory" else "safe")
  {
    var t := FinalType(action, p);
    if p.mode.Some? then
      match ModeAlias(p.mode.value)
      case Some(name) => Some(name)
      case None => p.mode
    else if !p.reconfig && t.Some? then
      Some(if t.value == "pmem" then "memory" else "safe")
    else None
  }

  // ---------------------------------------------------------------------
  // The checks, in the order set_defaults makes them
  // ---------------------------------------------------------------------

  predicate TypeBad(p: Params)
  {
    p.nsType.Some? && p.nsType.value != "pmem" && p.nsType.value != "blk"
  }

  predicate ModeBad(p: Params)
  {
    p.mode.Some? && ModeAlias(p.mode.value).None?
  }

  /** A memmap location other than "mem" or "dev". */
  predicate MapBad(p: Params)
  {
    p.memmap.Some? && p.memmap.value != "mem" && p.memmap.value != "dev"
  }

  /** `--map` for a new namespace whose mode is neither memory nor dax. */
  predicate MapMisplaced(action: Action, p: Params)
  {
    var m := FinalMode(action, p);
    p.memmap.Some? && !p.reconfig && m.Some? && m.value != "memory" && m.value != "dax"
  }

  /** A blk namespace in a mode that needs direct access. */
  predicate BlkDax(action: Action, p: Params)
  {
    var t := FinalType(action, p);
    var m := FinalMode(action, p);
    t.Some? && m.Some? && t.value == "blk" && (m.value == "memory" || m.value == "dax")
  }

  /** The checks after the blk/dax one: size, alignment, uuid and sector size. */
  predicate LaterBad(p: Params)
  {
    (p.size.Some? && !SizeParses(p.size.value))
    || (p.align.Some? && !SizeParses(p.align.value))
    || (p.uuid.Some? && !UuidParses(p.uuid.value))
    || (p.sectorSize.Some? && !SizeParses(p.sectorSize.value))
  }

  /** Every check passes. */
  predicate Acceptable(action: Action, p: Params)
  {
    !TypeBad(p) && !ModeBad(p) && !MapBad(p) && !MapMisplaced(action, p) && !BlkDax(action, p) && !LaterBad(p)
  }

  /** An error code that replaces the one so far when its check fails. */
  function Keep(rc: int, bad: bool, code: int): int
  {
    if bad then code else rc
  }

  /**
   * `set_defaults`: every check runs and the code of the last one that
   * fails is returned (there is no early return); the parameters come
   * back with the defaults filled in and the mode aliases resolved.
   */
  function SetDefaults(action: Action, p: Params): (o: Outcome)
    ensures o.rc == 0 || o.rc == -EINVAL || o.rc == -ENXIO
    ensures o.params.size == p.size && o.params.align == p.align && o.params.uuid == p.uuid
    ensures o.params.reconfig == p.reconfig
  {
    var t := FinalType(action, p);
    var m := FinalMode(action, p);
    var rc1 := Keep(0, TypeBad(p), -EINVAL);
    var rc2 := Keep(rc1, ModeBad(p), -EINVAL);
    var rc3 := Keep(rc2, MapBad(p), -EINVAL);
    var rc4 := Keep(rc3, MapMisplaced(action, p), -EINVAL);
    var memmap := if p.memmap.None? && !p.reconfig then Some("dev") else p.memmap;
    var rc5 := Keep(rc4, BlkDax(action, p), -ENXIO);
    var rc6 := Keep(rc5, p.size.Some? && !SizeParses(p.size.value), -EINVAL);
    var rc7 := Keep(rc6, p.align.Some? && !SizeParses(p.align.value), -EINVAL);
    var rc8 := Keep(rc7, p.uuid.Some? && !UuidParses(p.uuid.value), -EINVAL);
    var rc9 := Keep(rc8, p.sectorSize.Some? && !SizeParses(p.sectorSize.value), -EINVAL);
    var sector :=
      if p.sectorSize.None? && ((t.Some? && t.value == "blk") || (m.Some? && m.value == "safe"))
      then Some("4096") else p.sectorSize;
    var modeDefault := p.modeDefault || (p.mode.None? && !p.reconfig && t.Some?);
    Outcome(rc9, p.(nsType := t, mode := m, memmap := memmap, sectorSize := sector, modeDefault := modeDefault))
  }

  // ---------------------------------------------------------------------
  // Properties of set_defaults
  // ---------------------------------------------------------------------

  /** The options are accepted exactly when every check passes. */
  lemma AcceptedIffChecksPass(action: Action, p: Params)
    ensures SetDefaults(action, p).rc == 0 <==> Acceptable(action, p)
  {
  }

  /**
   * The last failing check decides the code: -ENXIO exactly when a blk
   * namespace asks for a direct-access mode and none of the later checks
   * fails, whatever failed before it.
   */
  lemma LastErrorWins(action: Action, p: Params)
    ensures SetDefaults(action, p).rc == -ENXIO <==> BlkDax(action, p) && !LaterBad(p)
    ensures SetDefaults(action, p).rc == -EINVAL <==>
      LaterBad(p) || (!BlkDax(action, p) && (TypeBad(p) || ModeBad(p) || MapBad(p) || MapMisplaced(action, p)))
  {
  }

  /**
   * Accepted options leave set_defaults in the form the validation
   * expects: a known type and mode name, a memmap location for a new
   * namespace, and a sector size for a blk namespace or sector mode.
   */
  lemma AcceptedIsNormal(action: Action, p: Params)
    requires SetDefaults(action, p).rc == 0
    ensures var q := SetDefaults(action, p).params;
      && (q.nsType.Some? ==> q.nsType.value == "pmem" || q.nsType.value == "blk")
      && (q.mode.Some? ==> CanonicalMode(q.mode.value))
      && (!p.reconfig ==> q.memmap.Some? && (q.memmap.value == "mem" || q.memmap.value == "dev"))
      && (action == Create && !p.reconfig ==> q.nsType.Some? && q.mode.Some?)
      && ((q.nsType == Some("blk") || q.mode == Some("safe")) ==> q.sectorSize.Some? && SizeParses(q.sectorSize.value))
      && !(q.nsType == Some("blk") && (q.mode == Some("memory") || q.mode == Some("dax")))
  {
    var q := SetDefaults(action, p).params;
    if p.sectorSize.None? && (q.nsType == Some("blk") || q.mode == Some("safe")) {
      assert q.sectorSize == Some("4096");
      Size.PlainNumeral(4096);
      assert Decimal(4096) == "4096" by {
        DecimalOf4096();
      }
    }
  }

  /**
   * The size checks use the parser as written, so a size whose suffix
   * product wraps undetected, such as "16777217T", passes them.
   */
  lemma WrappedSizePassesCheck(action: Action, p: Params)
    requires p.size == Some(Decimal(16777217) + "T")
    ensures !(p.size.Some? && !SizeParses(p.size.value))
    ensures SetDefaults(action, p).rc == SetDefaults(action, p.(size := None)).rc
  {
    Size.WrapUndetected();
  }

  lemma DecimalOf4096()
    ensures Decimal(4096) == "4096"
  {
    assert Decimal(4) == "4";
    assert Decimal(40) == "40";
    assert Decimal(409) == "409";
  }

  /** The default mode is recorded exactly when set_defaults chose it. */
  lemma ModeDefaultRecorded(action: Action, p: Params)
    requires !p.modeDefault
    ensures SetDefaults(action, p).params.modeDefault <==> p.mode.None? && SetDefaults(action, p).params.mode.Some?
  {
  }

  /**
   * `ndctl create-namespace` with no options: a pmem namespace in memory
   * mode with its memmap on the device, and no sector size.
   */
  lemma ScanDefaults()
    ensures var o := SetDefaults(Create, Params(None, None, None, None, None, None, None, false, false));
      o == Outcome(0, Params(Some("pmem"), Some("memory"), Some("dev"), None, None, None, None, false, true))
  {
  }

  /**
   * The retry with only the blk type set: a blk namespace in sector mode,
   * 4096-byte sectors, and no error even though it is given a memmap
   * location it does not use.
   */
  lemma BlkFallbackDefaults()
    ensures var o := SetDefaults(Create, Params(Some("blk"), None, None, None, None, None, None, false, false));
      o == Outcome(0, Params(Some("blk"), Some("safe"), Some("dev"), None, None, None, Some("4096"), false, true))
  {
  }

  /**
   * Running set_defaults again on what it returned is not always a no-op:
   * the memmap location it filled in for a sector-mode namespace fails the
   * map check the second time.
   */
  lemma NotIdempotent()
    ensures var p := Params(Some("blk"), None, None, None, None, None, None, false, false);
      && SetDefaults(Create, p).rc == 0
      && SetDefaults(Create, SetDefaults(Create, p).params).rc == -EINVAL
  {
  }

  /**
   * An alias resolves to the library name that means the same mode: the
   * validation maps "sector" to sector mode, "fsdax" to memory mode and
   * "devdax" to dax mode only through set_defaults, and would take the raw
   * aliases for raw mode.
   */
  lemma AliasesResolve()
    ensures ModeId(ModeAlias("sector").value) == Libndctl.MODE_SAFE
    ensures ModeId(ModeAlias("fsdax").value) == Libndctl.MODE_MEMORY
    ensures ModeId(ModeAlias("devdax").value) == Libndctl.MODE_DAX
    ensures ModeId("fsdax") == Libndctl.MODE_RAW && ModeId("devdax") == Libndctl.MODE_RAW
  {
  }

  // ---------------------------------------------------------------------
  // validate_namespace_options: mode and size
  // ---------------------------------------------------------------------

  /** The mode a `--mode` string selects in the validation: memory, sector or safe, dax, and raw for anything else. */
  function ModeId(m: string): (id: int)
    ensures id == Libndctl.MODE_MEMORY <==> m == "memory"
    ensures id == Libndctl.MODE_SAFE <==> m == "sector" || m == "safe"
    ensures id == Libndctl.MODE_DAX <==> m == "dax"
    ensures id == Libndctl.MODE_RAW <==> !(m == "memory" || m == "sector" || m == "safe" || m == "dax")
  {
    if m == "memory" then Libndctl.MODE_MEMORY
    else if m == "sector" || m == "safe" then Libndctl.MODE_SAFE
    else if m == "dax" then Libndctl.MODE_DAX
    else Libndctl.MODE_RAW
  }

  /** The mode for a given `--mode` string on a region of the given type: memory and dax need a pmem region (-EAGAIN). */
  function RegionMode(m: string, regionType: nat): (r: Result<int>)
    ensures r.Err? <==> regionType != Libndctl.ND_DEVICE_REGION_PMEM && (m == "memory" || m == "dax")
    ensures r.Err? ==> r.code == -EAGAIN
    ensures r.Ok? ==> r.value == ModeId(m)
  {
    var id := ModeId(m);
    if regionType != Libndctl.ND_DEVICE_REGION_PMEM && (id == Libndctl.MODE_MEMORY || id == Libndctl.MODE_DAX) then Err(-EAGAIN)
    else Ok(id)
  }

  /** The multipliers `__parse_size64` reports for a size: 1 or one of its suffixes. */
  predicate IsUnits(u: nat)
  {
    u == 1 || u == Size.SZ_1K || u == Size.SZ_1M || u == Size.SZ_1G || u == Size.SZ_1T
  }

  /** The suffix the size recommendation is written with. */
  function Suffix(units: nat): (s: string)
    ensures IsUnits(units) && units > 1 ==> |s| == 1 && Size.Unit(s[0]) == units
    ensures units == 1 ==> s == ""
  {
    if units == Size.SZ_1K then "K"
    else if units == Size.SZ_1M then "M"
    else if units == Size.SZ_1G then "G"
    else if units == Size.SZ_1T then "T"
    else ""
  }

  function Max(a: nat, b: nat): (m: nat)
    ensures m >= a && m >= b && (m == a || m == b)
  {
    if a >= b then a else b
  }

  /**
   * The size check as written in 64-bit arithmetic: None when the size is a
   * multiple of align times ways, else the recommendation, in `--size`
   * units, of the next multiple of max(units, align) times ways above the
   * size. Each product and quotient is a `unsigned long long`.
   */
  function SizeAdviceAsWritten(size: Word64, units: nat, align: Word64, ways: Word32): (r: Option<nat>)
    requires IsUnits(units)
    requires Wrap64(align * ways) != 0 && Wrap64(Max(units, align) * ways) != 0
    ensures r.None? <==> size % Wrap64(align * ways) == 0
    ensures r.Some? ==> r.value < U64
  {
    var sizeAlign := Wrap64(align * ways);
    if size % sizeAlign == 0 then None
    else
      var step := Wrap64(Max(units, align) * ways);
      var n := Wrap64(Wrap64(size / step + 1) * step);
      Some(n / units)
  }

  /**
   * The recommendation with the products kept exact: the next multiple of
   * max(units, align) times ways above the size, in `--size` units.
   */
  function SizeAdvice(size: nat, units: nat, align: nat, ways: nat): (r: Option<nat>)
    requires IsUnits(units) && align > 0 && ways > 0
    ensures r.None? <==> size % (align * ways) == 0
  {
    if size % (align * ways) == 0 then None
    else
      var step := Max(units, align) * ways;
      Some((size / step + 1) * step / units)
  }

  /** The first multiple of `step` above `size`. */
  function NextMultiple(size: nat, step: nat): (n: nat)
    requires step > 0
  {
    (size / step + 1) * step
  }

  /** The next multiple lies above the size by at most one step, and no multiple lies in between. */
  lemma NextMultipleBounds(size: nat, step: nat)
    requires step > 0
    ensures NextMultiple(size, step) % step == 0
    ensures size < NextMultiple(size, step) <= size + step
    ensures forall k: nat :: size < k * step ==> NextMultiple(size, step) <= k * step
  {
    var q := size / step;
    var n := NextMultiple(size, step);
    assert n == q * step + step;
    assert size == q * step + size % step;
    assert n % step == 0 by {
      DivModUnique(n, step, q + 1, 0);
    }
    forall k: nat | size < k * step
      ensures n <= k * step
    {
      if k <= q {
        MulMono(k, q, step);
      }
      MulMono(q + 1, k, step);
    }
  }

  /** One of two numbers that divides the other divides their maximum. */
  lemma DividesMax(x: nat, y: nat)
    requires x > 0 && y > 0 && (x % y == 0 || y % x == 0)
    ensures Max(x, y) % x == 0 && Max(x, y) % y == 0
  {
    MulIsMultiple(1, x);
    MulIsMultiple(1, y);
    if y < x {
      ModSmall(y, x);
    } else if x < y {
      ModSmall(x, y);
    }
  }

  lemma ProductPositive(a: nat, b: nat)
    requires a > 0 && b > 0
    ensures a * b > 0
  {
    MulMono(1, a, b);
  }

  lemma Regroup(c: nat, a: nat, w: nat)
    ensures (c * a) * w == (a * w) * c
  {
  }

  /**
   * The recommended size, multiplied back by its units, is the next
   * multiple of max(units, align) times ways above the requested size,
   * whenever one of units and align divides the other (both are powers of
   * two in practice).
   */
  lemma AdviceIsNextMultiple(size: nat, units: nat, align: nat, ways: nat)
    requires IsUnits(units) && align > 0 && ways > 0
    requires align % units == 0 || units % align == 0
    requires size % (align * ways) != 0
    ensures SizeAdvice(size, units, align, ways).value * units == NextMultiple(size, Max(units, align) * ways)
  {
    var big := Max(units, align);
    var step := big * ways;
    ProductPositive(big, ways);
    var n := NextMultiple(size, step);
    DividesMax(units, align);
    MulIsMultiple(ways, big);
    assert ways * big == step;
    DividesTrans(step, big, units);
    var q := size / step + 1;
    MulIsMultiple(q, step);
    DividesTrans(n, step, units);
    DivExact(n, units);
    assert SizeAdvice(size, units, align, ways) == Some(n / units);
  }

  /**
   * The recommended size passes the same check: it is a multiple of align
   * times ways, when one of units and align divides the other.
   */
  lemma AdviceAccepted(size: nat, units: nat, align: nat, ways: nat)
    requires IsUnits(units) && align > 0 && ways > 0
    requires align % units == 0 || units % align == 0
    requires size % (align * ways) != 0
    ensures var r := SizeAdvice(size, units, align, ways).value;
      r * units > size && SizeAdvice(r * units, units, align, ways).None?
  {
    var big := Max(units, align);
    var step := big * ways;
    ProductPositive(big, ways);
    ProductPositive(align, ways);
    AdviceIsNextMultiple(size, units, align, ways);
    NextMultipleBounds(size, step);
    var n := NextMultiple(size, step);
    DividesMax(units, align);
    var c := big / align;
    DivExact(big, align);
    Regroup(c, align, ways);
    assert step == (align * ways) * c;
    MulIsMultiple(c, align * ways);
    DividesTrans(n, step, align * ways);
  }

  /** Without wrap-around the recommendation as written is the exact one. */
  lemma AdviceAgreesWithoutWrap(size: Word64, units: nat, align: Word64, ways: Word32)
    requires IsUnits(units) && align > 0 && ways > 0
    requires Max(units, align) * ways < U64
    requires NextMultiple(size, Max(units, align) * ways) < U64
    ensures align * ways < U64
    ensures SizeAdviceAsWritten(size, units, align, ways) == SizeAdvice(size, units, align, ways)
  {
    var big := Max(units, align);
    var step := big * ways;
    MulMono(align, big, ways);
    assert step > 0 by {
      MulMono(1, big, ways);
    }
    var q := size / step + 1;
    assert q <= NextMultiple(size, step) by {
      MulMono(1, step, q);
    }
    ModSmall(align * ways, U64);
    ModSmall(step, U64);
    ModSmall(q, U64);
    ModSmall(q * step, U64);
  }

  /**
   * A size just below 2^64 that is not 2 MiB aligned gets the
   * recommendation 0: the next multiple wraps to zero in 64 bits.
   */
  lemma AdviceWrapsToZero()
    ensures SizeAdviceAsWritten(U64 - 2, 1, 0x20_0000, 1) == Some(0)
    ensures SizeAdvice(U64 - 2, 1, 0x20_0000, 1) == Some(U64)
  {
    var step := 0x20_0000;
    assert (U64 - 2) / step == 0x7FF_FFFF_FFFF;
    assert (U64 - 2) % step == step - 2;
  }
}
