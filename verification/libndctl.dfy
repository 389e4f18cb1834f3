/**
 * Pure helpers of the libndctl library: the command mask a DIMM or bus
 * advertises, the fields of an NFIT device handle, the namespace
 * "enforce mode" names, the generation counter that invalidates a
 * region's children when it is disabled, and a region's interleave ways
 * and type.
 */
module Libndctl {
  import opened Machine
  import opened Wrappers
  import opened CStr
  import opened Errno

  // ---------------------------------------------------------------------
  // Command masks
  // ---------------------------------------------------------------------

  /** Command numbers of the kernel interface (linux/ndctl.h is not part of this model). */
  const ND_CMD_ARS_STATUS: nat := 3
  const ND_CMD_CLEAR_ERROR: nat := 4
  const ND_CMD_CALL: nat := 10

  /** The name a command-name table gives command `i`; None where it has none. */
  function CmdName(names: seq<Option<string>>, i: nat): Option<string>
  {
    if i < |names| then names[i] else None
  }

  /**
   * The last command number `to_dsm_index` tries: ND_CMD_CALL for a DIMM;
   * for a bus the clear-error command when the library is built with it
   * (a non-zero `clearError`), else the ARS-status command.
   */
  function EndCmd(dimm: bool, clearError: nat, arsStatus: nat): nat
  {
    if dimm then ND_CMD_CALL
    else if clearError != 0 then clearError
    else arsStatus
  }

  function DsmIndexFrom(name: string, names: seq<Option<string>>, i: nat, end: nat): (r: nat)
    requires i >= 1
    ensures r != 0 ==> i <= r <= end && CmdName(names, r) == Some(name)
    ensures r != 0 ==> forall j :: i <= j < r ==> CmdName(names, j) != Some(name)
    ensures r == 0 ==> forall j :: i <= j <= end ==> CmdName(names, j) != Some(name)
    decreases end + 1 - i
  {
    if i > end then 0
    else if CmdName(names, i) == Some(name) then i
    else DsmIndexFrom(name, names, i + 1, end)
  }

  /**
   * `to_dsm_index`: the first command number in 1..end whose name is
   * `name`, or 0 when no command of that range has it.
   */
  function ToDsmIndex(name: string, names: seq<Option<string>>, end: nat): (r: nat)
    ensures r != 0 ==> 1 <= r <= end && CmdName(names, r) == Some(name)
    ensures r != 0 ==> forall j :: 1 <= j < r ==> CmdName(names, j) != Some(name)
    ensures r == 0 <==> forall j :: 1 <= j <= end ==> CmdName(names, j) != Some(name)
  {
    DsmIndexFrom(name, names, 1, end)
  }

  /** The mask loop of `parse_commands` over the fields still to read. */
  function MaskFrom(fields: seq<string>, names: seq<Option<string>>, end: nat, mask: nat): nat
    decreases |fields|
  {
    if |fields| == 0 then mask
    else
      var cmd := ToDsmIndex(fields[0], names, end);
      MaskFrom(fields[1..], names, end, if cmd != 0 then Or(mask, Pow2(cmd)) else mask)
  }

  /**
   * `parse_commands`: the sysfs "commands" attribute lists names, each
   * ended by a space; the mask has bit i set for every listed name that
   * is command i.
   */
  function ParseCommands(commands: string, names: seq<Option<string>>, end: nat): nat
  {
    MaskFrom(Fields(commands, ' '), names, end, 0)
  }

  /** A bit of the mask is set when it was set before or some field names that command. */
  lemma {:induction false} MaskFromBits(fields: seq<string>, names: seq<Option<string>>, end: nat, mask: nat, i: nat)
    ensures Bit(MaskFrom(fields, names, end, mask), i) <==>
      Bit(mask, i) || (i != 0 && exists k :: 0 <= k < |fields| && ToDsmIndex(fields[k], names, end) == i)
    decreases |fields|
  {
    if |fields| > 0 {
      var cmd := ToDsmIndex(fields[0], names, end);
      var next := if cmd != 0 then Or(mask, Pow2(cmd)) else mask;
      MaskFromBits(fields[1..], names, end, next, i);
      if cmd != 0 {
        BitOr(mask, Pow2(cmd), i);
        BitPow2(cmd, i);
      }
      assert forall k :: 1 <= k < |fields| ==> fields[k] == fields[1..][k - 1];
      if i != 0 && (exists k :: 0 <= k < |fields| && ToDsmIndex(fields[k], names, end) == i) {
        var k :| 0 <= k < |fields| && ToDsmIndex(fields[k], names, end) == i;
        if k > 0 {
          assert ToDsmIndex(fields[1..][k - 1], names, end) == i;
        }
      }
    }
  }

  /** No command name appears twice among the commands 1..end. */
  predicate DistinctNames(names: seq<Option<string>>, end: nat)
  {
    forall a, b :: 1 <= a < b <= end && CmdName(names, a).Some? ==> CmdName(names, a) != CmdName(names, b)
  }

  /**
   * With a table of distinct names, the mask read from a list of names has
   * bit i set exactly when command i is in range, has a name, and that
   * name is listed; unknown names set nothing.
   */
  lemma ParseCommandsSelects(ts: seq<string>, tail: string, names: seq<Option<string>>, end: nat, i: nat)
    requires forall t :: t in ts ==> ' ' !in t
    requires ' ' !in tail
    requires DistinctNames(names, end)
    ensures Bit(ParseCommands(Terminated(ts, ' ') + tail, names, end), i) <==>
      1 <= i <= end && CmdName(names, i).Some? && CmdName(names, i).value in ts
  {
    FieldsOfTerminated(ts, ' ', tail);
    MaskFromBits(ts, names, end, 0, i);
    ZeroBit(i);
    if 1 <= i <= end && CmdName(names, i).Some? && CmdName(names, i).value in ts {
      var k :| 0 <= k < |ts| && ts[k] == CmdName(names, i).value;
      var r := ToDsmIndex(ts[k], names, end);
      assert r != 0;
      assert r == i;
    }
  }

  // ---------------------------------------------------------------------
  // NFIT device handles
  // ---------------------------------------------------------------------

  /** The location fields packed into a 32-bit NFIT device handle. */
  datatype HandleFields = HandleFields(node: nat, socket: nat, imc: nat, channel: nat, dimm: nat)

  predicate FieldsFit(f: HandleFields)
  {
    f.node < 0x1000 && f.socket < 0x10 && f.imc < 0x10 && f.channel < 0x10 && f.dimm < 0x10
  }

  /** `ndctl_dimm_handle_get_*`: each field is a shift followed by a mask, written as division and remainder. */
  function HandleGetNode(h: Word32): nat { h / 0x1_0000 % 0x1000 }
  function HandleGetSocket(h: Word32): nat { h / 0x1000 % 0x10 }
  function HandleGetImc(h: Word32): nat { h / 0x100 % 0x10 }
  function HandleGetChannel(h: Word32): nat { h / 0x10 % 0x10 }
  function HandleGetDimm(h: Word32): nat { h % 0x10 }

  /** All five getters applied to one handle. */
  function DecodeHandle(h: Word32): (f: HandleFields)
    ensures FieldsFit(f)
  {
    HandleFields(HandleGetNode(h), HandleGetSocket(h), HandleGetImc(h), HandleGetChannel(h), HandleGetDimm(h))
  }

  /** The handle with the given fields and zero in bits 28-31. */
  function EncodeHandle(f: HandleFields): nat
  {
    f.node * 0x1_0000 + f.socket * 0x1000 + f.imc * 0x100 + f.channel * 0x10 + f.dimm
  }

  /** Fields that fit their widths are read back unchanged from the handle built from them. */
  lemma DecodeEncode(f: HandleFields)
    requires FieldsFit(f)
    ensures EncodeHandle(f) < 0x1000_0000
    ensures DecodeHandle(EncodeHandle(f)) == f
  {
    var low0 := f.dimm;
    var low1 := f.channel * 0x10 + low0;
    var low2 := f.imc * 0x100 + low1;
    var low3 := f.socket * 0x1000 + low2;
    var h := f.node * 0x1_0000 + low3;
    assert h == EncodeHandle(f);
    assert low1 < 0x100 && low2 < 0x1000 && low3 < 0x1_0000;
    MulMono(f.node, 0xFFF, 0x1_0000);
    DivModUnique(h, 0x1_0000, f.node, low3);
    DivModUnique(h, 0x1000, f.node * 0x10 + f.socket, low2);
    DivModUnique(f.node * 0x10 + f.socket, 0x10, f.node, f.socket);
    DivModUnique(h, 0x100, f.node * 0x100 + f.socket * 0x10 + f.imc, low1);
    DivModUnique(f.node * 0x100 + f.socket * 0x10 + f.imc, 0x10, f.node * 0x10 + f.socket, f.imc);
    DivModUnique(h, 0x10, f.node * 0x1000 + f.socket * 0x100 + f.imc * 0x10 + f.channel, low0);
    DivModUnique(f.node * 0x1000 + f.socket * 0x100 + f.imc * 0x10 + f.channel, 0x10,
      f.node * 0x100 + f.socket * 0x10 + f.imc, f.channel);
  }

  /** Re-packing the decoded fields gives back the handle's low 28 bits: no handle bit below 28 is lost. */
  lemma EncodeDecode(h: Word32)
    ensures EncodeHandle(DecodeHandle(h)) == h % 0x1000_0000
  {
    var f := DecodeHandle(h);
    var q1 := h / 0x10;
    var q2 := q1 / 0x10;
    var q3 := q2 / 0x10;
    var q4 := q3 / 0x10;
    assert h == q1 * 0x10 + f.dimm;
    assert q1 == q2 * 0x10 + f.channel;
    assert q2 == q3 * 0x10 + f.imc;
    assert q3 == q4 * 0x10 + f.socket;
    DivDiv(h, 0x10, 0x10);
    DivDiv(h, 0x100, 0x10);
    DivDiv(h, 0x1000, 0x10);
    assert q2 == h / 0x100 && q3 == h / 0x1000 && q4 == h / 0x1_0000;
    assert q4 == q4 / 0x1000 * 0x1000 + f.node;
    var top := q4 / 0x1000;
    assert h == top * 0x1000_0000 + EncodeHandle(f);
    assert EncodeHandle(f) < 0x1000_0000;
    DivModUnique(h, 0x1000_0000, top, EncodeHandle(f));
  }

  // ---------------------------------------------------------------------
  // Enforce-mode names
  // ---------------------------------------------------------------------

  /** `enum ndctl_namespace_mode`, in the order of the library header (not part of this model). */
  const MODE_MEMORY: int := 0
  const MODE_SAFE: int := 1
  const MODE_RAW: int := 2
  const MODE_DAX: int := 3
  const MODE_UNKNOWN: int := 4

  /** `enforce_id_to_name`: the sysfs name of a mode; every id outside MEMORY..DAX gets "<unknown>". */
  function EnforceIdToName(mode: int): (name: string)
    ensures !(0 <= mode < MODE_UNKNOWN) ==> name == "<unknown>"
  {
    if mode == MODE_MEMORY then "pfn"
    else if mode == MODE_SAFE then "btt"
    else if mode == MODE_RAW then ""
    else if mode == MODE_DAX then "dax"
    else "<unknown>"
  }

  function NameToIdFrom(name: string, i: int): (id: int)
    requires 0 <= i <= MODE_UNKNOWN
    ensures i <= id <= MODE_UNKNOWN
    ensures id < MODE_UNKNOWN ==> EnforceIdToName(id) == name
    ensures forall j :: i <= j < id ==> EnforceIdToName(j) != name
    decreases MODE_UNKNOWN - i
  {
    if i == MODE_UNKNOWN then MODE_UNKNOWN
    else if EnforceIdToName(i) == name then i
    else NameToIdFrom(name, i + 1)
  }

  /**
   * `enforce_name_to_id`: the first mode below UNKNOWN whose name is
   * `name`, else UNKNOWN.
   */
  function EnforceNameToId(name: string): (id: int)
    ensures 0 <= id <= MODE_UNKNOWN
    ensures id < MODE_UNKNOWN ==> EnforceIdToName(id) == name
    ensures id == MODE_UNKNOWN <==> forall j :: 0 <= j < MODE_UNKNOWN ==> EnforceIdToName(j) != name
  {
    NameToIdFrom(name, 0)
  }

  /**
   * Naming a mode and looking the name up gives the mode back, for every
   * known mode and for UNKNOWN itself; any other id comes back as UNKNOWN.
   */
  lemma ModeNameRoundTrip(mode: int)
    ensures EnforceNameToId(EnforceIdToName(mode)) == (if 0 <= mode <= MODE_UNKNOWN then mode else MODE_UNKNOWN)
  {
    var id := EnforceNameToId(EnforceIdToName(mode));
    if 0 <= mode < MODE_UNKNOWN {
      assert EnforceIdToName(id) == EnforceIdToName(mode);
    } else {
      assert forall j :: 0 <= j < MODE_UNKNOWN ==> EnforceIdToName(j) != "<unknown>";
    }
  }

  // ---------------------------------------------------------------------
  // Region generations
  // ---------------------------------------------------------------------

  /** The four kinds of region children, each kept on a live and a stale list. */
  datatype ChildKind = NamespaceChild | BttChild | PfnChild | DaxChild

  /** A child object remembers the region generation current when it was added. */
  datatype Child = Child(kind: ChildKind, id: int, generation: int)

  /**
   * A region: whether its driver is bound, its generation counter, the
   * children handed out since the last disable, the children of earlier
   * generations not yet freed, and whether the child lists are populated.
   */
  datatype Region = Region(enabled: bool, generation: int, live: seq<Child>, stale: seq<Child>, childrenInit: bool)

  /** `ndctl_namespace_is_valid` (and the btt and pfn variants): the child belongs to the region's current generation. */
  predicate IsValid(c: Child, region: Region)
  {
    c.generation == region.generation
  }

  /** `add_namespace`, `add_btt`, `add_pfn`: the new child is stamped with the region's generation and goes on the live list. */
  function AddChild(region: Region, kind: ChildKind, id: int): (r: (Region, Child))
    ensures IsValid(r.1, r.0)
    ensures r.0.live == region.live + [r.1] && r.0.stale == region.stale
    ensures r.0.generation == region.generation && r.1.kind == kind && r.1.id == id
  {
    var c := Child(kind, id, region.generation);
    (region.(live := region.live + [c]), c)
  }

  /**
   * `ndctl_region_disable`: nothing to do for a disabled region; otherwise
   * the driver is unbound (`stillEnabled` is what the re-read of the
   * driver link shows afterwards), and a region that stays bound is left
   * alone with -EBUSY. A disabled region moves its live children to the
   * stale lists (freed at once when `cleanup` is set), forgets that its
   * lists were populated and bumps its generation.
   */
  function RegionDisable(region: Region, stillEnabled: bool, cleanup: bool): (r: (int, Region))
    ensures r.0 == 0 || r.0 == -EBUSY
    ensures r.0 == -EBUSY <==> region.enabled && stillEnabled
    ensures r.0 == -EBUSY || !region.enabled ==> r.1 == region
    ensures r.0 == 0 && region.enabled ==> !r.1.enabled && r.1.live == [] && !r.1.childrenInit
    ensures r.0 == 0 && region.enabled ==> r.1.generation == region.generation + 1
    ensures r.0 == 0 && region.enabled ==> r.1.stale == (if cleanup then [] else region.stale + region.live)
  {
    if !region.enabled then (0, region)
    else if stillEnabled then (-EBUSY, region)
    else
      var moved := region.stale + region.live;
      (0, Region(false, region.generation + 1, [], if cleanup then [] else moved, false))
  }

  /**
   * After a successful disable no child handed out before it is valid,
   * while a child added afterwards is; a disable that fails keeps every
   * child's validity.
   */
  lemma DisableInvalidates(region: Region, stillEnabled: bool, cleanup: bool, c: Child, kind: ChildKind, id: int)
    requires IsValid(c, region)
    ensures var r := RegionDisable(region, stillEnabled, cleanup);
      (r.0 == 0 && region.enabled ==> !IsValid(c, r.1) && IsValid(AddChild(r.1, kind, id).1, r.1))
    ensures var r := RegionDisable(region, stillEnabled, cleanup);
      (r.0 != 0 || !region.enabled ==> IsValid(c, r.1))
  {
  }

  /** A child stays valid through any number of additions and is invalidated by the first successful disable. */
  lemma {:induction false} ValidUntilDisabled(region: Region, adds: seq<(ChildKind, int)>, c: Child)
    requires IsValid(c, region)
    ensures IsValid(c, AddAll(region, adds))
    ensures var after := AddAll(region, adds);
      after.enabled ==> !IsValid(c, RegionDisable(after, false, false).1)
    decreases |adds|
  {
    if |adds| > 0 {
      var next := AddChild(region, adds[0].0, adds[0].1).0;
      ValidUntilDisabled(next, adds[1..], c);
    }
  }

  /** A sequence of child additions. */
  function AddAll(region: Region, adds: seq<(ChildKind, int)>): (r: Region)
    ensures r.enabled == region.enabled
    decreases |adds|
  {
    if |adds| == 0 then region
    else AddAll(AddChild(region, adds[0].0, adds[0].1).0, adds[1..])
  }

  // ---------------------------------------------------------------------
  // Interleave ways and region type
  // ---------------------------------------------------------------------

  const ND_DEVICE_REGION_PMEM: nat := 2
  const ND_DEVICE_REGION_BLK: nat := 3
  const ND_DEVICE_NAMESPACE_IO: nat := 4
  const ND_DEVICE_NAMESPACE_PMEM: nat := 5
  const ND_DEVICE_NAMESPACE_BLK: nat := 6

  /** `ndctl_region_get_interleave_ways`: the number of mappings, but at least 1. */
  function InterleaveWays(mappings: Word32): (w: nat)
    ensures w >= 1 && w >= mappings
    ensures mappings >= 1 ==> w == mappings
  {
    if mappings > 1 then mappings else 1
  }

  /** `ndctl_region_get_type`: IO and PMEM namespaces live in PMEM regions; every other type is BLK. */
  function RegionType(nstype: Word32): (t: nat)
    ensures t == ND_DEVICE_REGION_PMEM || t == ND_DEVICE_REGION_BLK
    ensures t == ND_DEVICE_REGION_PMEM <==> nstype == ND_DEVICE_NAMESPACE_IO || nstype == ND_DEVICE_NAMESPACE_PMEM
  {
    if nstype == ND_DEVICE_NAMESPACE_IO || nstype == ND_DEVICE_NAMESPACE_PMEM then ND_DEVICE_REGION_PMEM
    else ND_DEVICE_REGION_BLK
  }
}
