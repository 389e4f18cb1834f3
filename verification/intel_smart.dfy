/**
 * The Intel DIMM SMART commands: the health-information and threshold
 * payloads a DIMM returns, the translation of Intel's bit flags into the
 * library's generic SMART flags, and the set-threshold command built from
 * a threshold reply, whose fields may be changed only until it is
 * submitted.
 */
module IntelSmart {
  import opened Machine
  import opened Wrappers
  import opened Errno
  import Libndctl

  /** Intel DSM function numbers (ndctl/lib/intel.h). */
  const ND_INTEL_SMART: nat := 1
  const ND_INTEL_SMART_THRESHOLD: nat := 2
  const ND_INTEL_SMART_SET_THRESHOLD: nat := 17

  /** The Intel command family of the kernel's package interface (linux/ndctl.h is not part of this model). */
  const NVDIMM_FAMILY_INTEL: nat := 0

  /** Bytes of the payload union: the largest member, `struct nd_intel_smart`. */
  const PAYLOAD_SIZE: nat := 132

  /**
   * An `ndctl_cmd` of the Intel family: the command type, the submission
   * status (negative on failure, 0 on success, positive before submission),
   * the package header's family, function and transfer sizes, and the
   * payload bytes, which the three Intel payloads share as a union.
   */
  datatype Cmd = Cmd(cmdType: nat, status: int, family: nat, command: nat, sizeIn: nat, sizeOut: nat, data: seq<Byte>)

  // ---------------------------------------------------------------------
  // Payload layouts (packed structures)
  // ---------------------------------------------------------------------

  /** `struct nd_intel_smart`: status at 0, then the health fields. */
  const SMART_FLAGS: nat := 4
  const SMART_HEALTH: nat := 12
  const SMART_SPARES: nat := 13
  const SMART_LIFE_USED: nat := 14
  const SMART_ALARM_FLAGS: nat := 15
  const SMART_MEDIA_TEMPERATURE: nat := 16
  const SMART_CTRL_TEMPERATURE: nat := 18
  const SMART_SHUTDOWN_COUNT: nat := 20
  const SMART_SHUTDOWN_STATE: nat := 35
  const SMART_VENDOR_SIZE: nat := 36
  const SMART_VENDOR_DATA: nat := 40

  /** `struct nd_intel_smart_threshold`: status at 0, then the thresholds; 12 bytes. */
  const THRESH_ALARM_CONTROL: nat := 4
  const THRESH_SPARES: nat := 6
  const THRESH_MEDIA_TEMPERATURE: nat := 7
  const THRESH_CTRL_TEMPERATURE: nat := 9
  const THRESH_SIZE: nat := 12

  /** `struct nd_intel_smart_set_threshold`: the thresholds first, the status last; 11 bytes. */
  const SET_ALARM_CONTROL: nat := 0
  const SET_SPARES: nat := 2
  const SET_MEDIA_TEMPERATURE: nat := 3
  const SET_CTRL_TEMPERATURE: nat := 5
  const SET_STATUS: nat := 7

  /** The health-information fields read with a plain getter. */
  datatype SmartField = MediaTemperature | CtrlTemperature | Spares | AlarmFlags | LifeUsed | ShutdownState | ShutdownCount | VendorSize

  function SmartFieldAt(f: SmartField): (r: (nat, nat))
    ensures r.0 + r.1 <= SMART_VENDOR_DATA && r.1 in {1, 2, 4}
  {
    match f
    case MediaTemperature => (SMART_MEDIA_TEMPERATURE, 2)
    case CtrlTemperature => (SMART_CTRL_TEMPERATURE, 2)
    case Spares => (SMART_SPARES, 1)
    case AlarmFlags => (SMART_ALARM_FLAGS, 1)
    case LifeUsed => (SMART_LIFE_USED, 1)
    case ShutdownState => (SMART_SHUTDOWN_STATE, 1)
    case ShutdownCount => (SMART_SHUTDOWN_COUNT, 4)
    case VendorSize => (SMART_VENDOR_SIZE, 4)
  }

  /** The threshold fields, with their places in the threshold reply and in the set-threshold command. */
  datatype ThreshField = AlarmControl | ThreshSpares | ThreshMediaTemperature | ThreshCtrlTemperature

  function ThreshFieldAt(f: ThreshField): (r: (nat, nat))
    ensures r.0 + r.1 <= THRESH_SIZE - 1
  {
    match f
    case AlarmControl => (THRESH_ALARM_CONTROL, 2)
    case ThreshSpares => (THRESH_SPARES, 1)
    case ThreshMediaTemperature => (THRESH_MEDIA_TEMPERATURE, 2)
    case ThreshCtrlTemperature => (THRESH_CTRL_TEMPERATURE, 2)
  }

  function SetFieldAt(f: ThreshField): (r: (nat, nat))
    ensures r.0 + r.1 <= SET_STATUS
    ensures r.1 == ThreshFieldAt(f).1
  {
    match f
    case AlarmControl => (SET_ALARM_CONTROL, 2)
    case ThreshSpares => (SET_SPARES, 1)
    case ThreshMediaTemperature => (SET_MEDIA_TEMPERATURE, 2)
    case ThreshCtrlTemperature => (SET_CTRL_TEMPERATURE, 2)
  }

  // ---------------------------------------------------------------------
  // Flag translation tables
  // ---------------------------------------------------------------------

  /** The library's generic SMART validity flags (ndctl/libndctl.h is not part of this model). */
  datatype SmartFlag = HealthValid | SparesValid | UsedValid | MtempValid | CtempValid
    | ShutdownCountValid | AitStatusValid | PtempValid | AlarmValid | ShutdownValid | VendorValid

  datatype Health = NonCriticalHealth | CriticalHealth | FatalHealth

  /**
   * The generic alarm trip flags. The media-temperature trip is the one
   * flag the library calls both TEMP_TRIP and MTEMP_TRIP.
   */
  datatype Trip = SpareTrip | MtempTrip | CtempTrip

  /** Each generic flag with the Intel bit that sets it, in the order the source tests them. */
  const FLAG_TABLE: seq<(SmartFlag, nat)> := [
    (HealthValid, 0), (SparesValid, 1), (UsedValid, 2), (MtempValid, 3), (CtempValid, 4),
    (ShutdownCountValid, 5), (AitStatusValid, 6), (PtempValid, 7), (AlarmValid, 9),
    (ShutdownValid, 10), (VendorValid, 11)]

  const HEALTH_TABLE: seq<(Health, nat)> := [(NonCriticalHealth, 0), (CriticalHealth, 1), (FatalHealth, 2)]

  const TRIP_TABLE: seq<(Trip, nat)> := [(SpareTrip, 0), (MtempTrip, 1), (CtempTrip, 2)]

  /** The generic flags whose Intel bit is set in `x`. */
  function Translate<T(==, !new)>(x: nat, table: seq<(T, nat)>): (r: set<T>)
    ensures forall f :: f in r <==> exists i :: 0 <= i < |table| && table[i].0 == f && Bit(x, table[i].1)
  {
    if |table| == 0 then {}
    else
      var rest := Translate(x, table[1..]);
      assert forall i :: 1 <= i < |table| ==> table[i] == table[1..][i - 1];
      (if Bit(x, table[0].1) then {table[0].0} else {}) + rest
  }

  /** The Intel bits for a set of generic flags: the inverse of the translation. */
  function Encode<T(==)>(s: set<T>, table: seq<(T, nat)>): nat
  {
    if |table| == 0 then 0
    else Or(if table[0].0 in s then Pow2(table[0].1) else 0, Encode(s, table[1..]))
  }

  /** A translation table pairs distinct flags with distinct bits. */
  predicate OneToOne<T(==)>(table: seq<(T, nat)>)
  {
    forall i, j :: 0 <= i < j < |table| ==> table[i].0 != table[j].0 && table[i].1 != table[j].1
  }

  lemma {:induction false} EncodeBit<T>(s: set<T>, table: seq<(T, nat)>, k: nat)
    ensures Bit(Encode(s, table), k) <==> exists i :: 0 <= i < |table| && table[i].0 in s && table[i].1 == k
    decreases |table|
  {
    if |table| == 0 {
      ZeroBit(k);
    } else {
      var head := if table[0].0 in s then Pow2(table[0].1) else 0;
      BitOr(head, Encode(s, table[1..]), k);
      BitPow2(table[0].1, k);
      ZeroBit(k);
      EncodeBit(s, table[1..], k);
      assert forall i :: 1 <= i < |table| ==> table[i] == table[1..][i - 1];
      if exists i :: 0 <= i < |table| && table[i].0 in s && table[i].1 == k {
        var i :| 0 <= i < |table| && table[i].0 in s && table[i].1 == k;
        if i > 0 {
          assert table[1..][i - 1].0 in s && table[1..][i - 1].1 == k;
        }
      }
    }
  }

  /** Translating the encoding of a set of listed flags gives the set back. */
  lemma TranslateEncode<T(!new)>(s: set<T>, table: seq<(T, nat)>)
    requires OneToOne(table)
    requires forall f :: f in s ==> exists i :: 0 <= i < |table| && table[i].0 == f
    ensures Translate(Encode(s, table), table) == s
  {
    var x := Encode(s, table);
    forall f
      ensures f in Translate(x, table) <==> f in s
    {
      if f in s {
        var i :| 0 <= i < |table| && table[i].0 == f;
        EncodeBit(s, table, table[i].1);
      }
      if f in Translate(x, table) {
        var i :| 0 <= i < |table| && table[i].0 == f && Bit(x, table[i].1);
        EncodeBit(s, table, table[i].1);
        var j :| 0 <= j < |table| && table[j].0 in s && table[j].1 == table[i].1;
        assert i == j;
      }
    }
  }

  // ---------------------------------------------------------------------
  // Command allocation and validity
  // ---------------------------------------------------------------------

  /**
   * `alloc_intel_cmd`: an unsubmitted (status 1) ND_CMD_CALL command of
   * the Intel family for `func`, with a zeroed payload. `available` stands
   * for the DIMM supporting ND_CMD_CALL and the function, and the
   * allocation succeeding; otherwise there is no command.
   */
  function AllocIntelCmd(available: bool, func: nat, sizeIn: nat, sizeOut: nat): (r: Option<Cmd>)
    ensures r.Some? <==> available
    ensures r.Some? ==> (r.value.cmdType == Libndctl.ND_CMD_CALL && r.value.status == 1
      && r.value.family == NVDIMM_FAMILY_INTEL && r.value.command == func
      && r.value.sizeIn == sizeIn && r.value.sizeOut == sizeOut
      && |r.value.data| == PAYLOAD_SIZE && forall k :: 0 <= k < PAYLOAD_SIZE ==> r.value.data[k] == 0)
  {
    if available then Some(Cmd(Libndctl.ND_CMD_CALL, 1, NVDIMM_FAMILY_INTEL, func, sizeIn, sizeOut, Zeros(PAYLOAD_SIZE)))
    else None
  }

  /** `intel_dimm_cmd_new_smart`: the health-information request, reading the 132-byte reply. */
  function NewSmart(available: bool): (r: Option<Cmd>)
    ensures r.Some? ==> r.value.command == ND_INTEL_SMART && r.value.sizeIn == 0 && r.value.sizeOut == PAYLOAD_SIZE
  {
    AllocIntelCmd(available, ND_INTEL_SMART, 0, PAYLOAD_SIZE)
  }

  /** `intel_dimm_cmd_new_smart_threshold`: the threshold request, reading the 12-byte reply. */
  function NewSmartThreshold(available: bool): (r: Option<Cmd>)
    ensures r.Some? ==> r.value.command == ND_INTEL_SMART_THRESHOLD && r.value.sizeIn == 0 && r.value.sizeOut == THRESH_SIZE
  {
    AllocIntelCmd(available, ND_INTEL_SMART_THRESHOLD, 0, THRESH_SIZE)
  }

  /** A completed (status 0) Intel command for function `func`. */
  predicate Completed(cmd: Cmd, func: nat)
  {
    cmd.cmdType == Libndctl.ND_CMD_CALL && cmd.status == 0 && cmd.family == NVDIMM_FAMILY_INTEL && cmd.command == func
  }

  /**
   * `intel_smart_valid` and `intel_smart_threshold_valid`: 0 for a
   * completed command of the function, else the command's failure status
   * when it has one, else -EINVAL.
   */
  function ReplyValid(cmd: Cmd, func: nat): (rc: int)
    ensures rc == 0 <==> Completed(cmd, func)
    ensures rc != 0 ==> rc < 0 && rc == (if cmd.status < 0 then cmd.status else -EINVAL)
  {
    if !Completed(cmd, func) then (if cmd.status < 0 then cmd.status else -EINVAL)
    else 0
  }

  // ---------------------------------------------------------------------
  // SMART getters
  // ---------------------------------------------------------------------

  /** `intel_cmd_smart_get_flags`: the generic flags of the Intel validity bits, none for an invalid reply. */
  function GetFlags(cmd: Cmd): (r: set<SmartFlag>)
    ensures ReplyValid(cmd, ND_INTEL_SMART) < 0 ==> r == {}
    ensures ReplyValid(cmd, ND_INTEL_SMART) == 0 ==>
      forall f :: f in r <==> exists i :: 0 <= i < |FLAG_TABLE| && FLAG_TABLE[i].0 == f && Bit(ReadLe(cmd.data, SMART_FLAGS, 4), FLAG_TABLE[i].1)
  {
    if ReplyValid(cmd, ND_INTEL_SMART) < 0 then {}
    else Translate(ReadLe(cmd.data, SMART_FLAGS, 4), FLAG_TABLE)
  }

  /** `intel_cmd_smart_get_health`: the generic health bits, none for an invalid reply. */
  function GetHealth(cmd: Cmd): (r: set<Health>)
    ensures ReplyValid(cmd, ND_INTEL_SMART) < 0 ==> r == {}
    ensures ReplyValid(cmd, ND_INTEL_SMART) == 0 ==>
      forall h :: h in r <==> exists i :: 0 <= i < |HEALTH_TABLE| && HEALTH_TABLE[i].0 == h && Bit(ReadLe(cmd.data, SMART_HEALTH, 1), HEALTH_TABLE[i].1)
  {
    if ReplyValid(cmd, ND_INTEL_SMART) < 0 then {}
    else Translate(ReadLe(cmd.data, SMART_HEALTH, 1), HEALTH_TABLE)
  }

  /** The `intel_smart_get_field` getters: the field's value, or UINT_MAX for an invalid reply. */
  function GetSmartField(cmd: Cmd, f: SmartField): (r: nat)
    ensures ReplyValid(cmd, ND_INTEL_SMART) < 0 ==> r == UINT_MAX
    ensures ReplyValid(cmd, ND_INTEL_SMART) == 0 ==> r == ReadLe(cmd.data, SmartFieldAt(f).0, SmartFieldAt(f).1)
    ensures r <= UINT_MAX
  {
    var (off, width) := SmartFieldAt(f);
    LeDecodeBound(Slice(cmd.data, off, width));
    FieldWidths(width);
    if ReplyValid(cmd, ND_INTEL_SMART) < 0 then UINT_MAX
    else ReadLe(cmd.data, off, width)
  }

  /** `intel_cmd_smart_get_vendor_data`: the 92 vendor bytes, or none for an invalid reply. */
  function GetVendorData(cmd: Cmd): (r: Option<seq<Byte>>)
    ensures r.Some? <==> ReplyValid(cmd, ND_INTEL_SMART) == 0
    ensures r.Some? ==> (|r.value| == PAYLOAD_SIZE - SMART_VENDOR_DATA
      && forall k :: 0 <= k < |r.value| ==> r.value[k] == ByteAt(cmd.data, SMART_VENDOR_DATA + k))
  {
    if ReplyValid(cmd, ND_INTEL_SMART) < 0 then None
    else Some(Slice(cmd.data, SMART_VENDOR_DATA, PAYLOAD_SIZE - SMART_VENDOR_DATA))
  }

  // ---------------------------------------------------------------------
  // Threshold getters
  // ---------------------------------------------------------------------

  /** `intel_cmd_smart_threshold_get_alarm_control`: the generic trip flags, none for an invalid reply. */
  function GetAlarmControl(cmd: Cmd): (r: set<Trip>)
    ensures ReplyValid(cmd, ND_INTEL_SMART_THRESHOLD) < 0 ==> r == {}
    ensures ReplyValid(cmd, ND_INTEL_SMART_THRESHOLD) == 0 ==>
      forall t :: t in r <==> exists i :: 0 <= i < |TRIP_TABLE| && TRIP_TABLE[i].0 == t && Bit(ReadLe(cmd.data, THRESH_ALARM_CONTROL, 2), TRIP_TABLE[i].1)
  {
    if ReplyValid(cmd, ND_INTEL_SMART_THRESHOLD) < 0 then {}
    else Translate(ReadLe(cmd.data, THRESH_ALARM_CONTROL, 2), TRIP_TABLE)
  }

  /** The `intel_smart_threshold_get_field` getters: the threshold, or UINT_MAX for an invalid reply. */
  function GetThreshField(cmd: Cmd, f: ThreshField): (r: nat)
    requires f != AlarmControl
    ensures ReplyValid(cmd, ND_INTEL_SMART_THRESHOLD) < 0 ==> r == UINT_MAX
    ensures ReplyValid(cmd, ND_INTEL_SMART_THRESHOLD) == 0 ==> r == ReadLe(cmd.data, ThreshFieldAt(f).0, ThreshFieldAt(f).1) && r < U16
  {
    var (off, width) := ThreshFieldAt(f);
    LeDecodeBound(Slice(cmd.data, off, width));
    FieldWidths(width);
    if ReplyValid(cmd, ND_INTEL_SMART_THRESHOLD) < 0 then UINT_MAX
    else ReadLe(cmd.data, off, width)
  }

  // ---------------------------------------------------------------------
  // Set-threshold
  // ---------------------------------------------------------------------

  /**
   * `intel_dimm_cmd_new_smart_set_threshold`: from a completed threshold
   * reply, an unsubmitted set-threshold command that writes 7 bytes and
   * reads a 4-byte status, holding a copy of the reply's four thresholds.
   */
  function NewSetThreshold(src: Cmd, available: bool): (r: Option<Cmd>)
    ensures r.Some? <==> ReplyValid(src, ND_INTEL_SMART_THRESHOLD) == 0 && available
    ensures r.Some? ==> (r.value.command == ND_INTEL_SMART_SET_THRESHOLD && r.value.status == 1
      && r.value.sizeIn == SET_STATUS && r.value.sizeOut == 4)
  {
    if ReplyValid(src, ND_INTEL_SMART_THRESHOLD) < 0 then None
    else
      match AllocIntelCmd(available, ND_INTEL_SMART_SET_THRESHOLD, SET_STATUS, 4)
      case None => None
      case Some(cmd) =>
        var d := cmd.data;
        var d1 := WriteLe(d, SET_ALARM_CONTROL, 2, ReadLe(src.data, THRESH_ALARM_CONTROL, 2));
        var d2 := WriteLe(d1, SET_SPARES, 1, ReadLe(src.data, THRESH_SPARES, 1));
        var d3 := WriteLe(d2, SET_MEDIA_TEMPERATURE, 2, ReadLe(src.data, THRESH_MEDIA_TEMPERATURE, 2));
        var d4 := WriteLe(d3, SET_CTRL_TEMPERATURE, 2, ReadLe(src.data, THRESH_CTRL_TEMPERATURE, 2));
        Some(cmd.(data := d4))
  }

  /** `intel_smart_set_threshold_valid`: an unsubmitted set-threshold command of the Intel family. */
  predicate SetValid(cmd: Cmd)
  {
    cmd.cmdType == Libndctl.ND_CMD_CALL && cmd.status == 1 && cmd.family == NVDIMM_FAMILY_INTEL
    && cmd.command == ND_INTEL_SMART_SET_THRESHOLD
  }

  /**
   * The `intel_smart_set_threshold_field` setters: on an unsubmitted
   * set-threshold command, store the value, truncated to the field, and
   * return 0; on any other command return -EINVAL and change nothing.
   */
  function SetThreshField(cmd: Cmd, f: ThreshField, val: Word32): (r: (int, Cmd))
    ensures r.0 == 0 <==> SetValid(cmd)
    ensures r.0 != 0 ==> r.0 == -EINVAL && r.1 == cmd
    ensures r.1.cmdType == cmd.cmdType && r.1.status == cmd.status && r.1.family == cmd.family
      && r.1.command == cmd.command && |r.1.data| == |cmd.data|
  {
    if !SetValid(cmd) then (-EINVAL, cmd)
    else
      var (off, width) := SetFieldAt(f);
      (0, cmd.(data := WriteLe(cmd.data, off, width, val)))
  }

  /** `intel_cmd_smart_threshold_get_supported_alarms`: spare, media and controller temperature, for a set-threshold command only. */
  function SupportedAlarms(cmd: Cmd): (r: set<Trip>)
    ensures SetValid(cmd) ==> r == {SpareTrip, MtempTrip, CtempTrip}
    ensures !SetValid(cmd) ==> r == {}
  {
    if !SetValid(cmd) then {} else Translate(Pow2(0) + Pow2(1) + Pow2(2), TRIP_TABLE)
  }

  // ---------------------------------------------------------------------
  // Properties
  // ---------------------------------------------------------------------

  lemma FieldWidths(w: nat)
    requires w in {1, 2, 4}
    ensures Pow256(w) <= U32 && (w <= 2 ==> Pow256(w) <= U16)
  {
    assert Pow256(1) == 256;
    assert Pow256(2) == U16;
    assert Pow256(4) == U32 by {
      assert Pow256(3) == 0x100_0000;
    }
  }

  lemma TablesOneToOne()
    ensures OneToOne(FLAG_TABLE) && OneToOne(HEALTH_TABLE) && OneToOne(TRIP_TABLE)
  {
  }

  /**
   * Each generic flag comes from exactly its Intel bit: a reply whose
   * validity bits encode a set of flags reads back as that set.
   */
  lemma FlagsRoundTrip(cmd: Cmd, s: set<SmartFlag>)
    requires Completed(cmd, ND_INTEL_SMART)
    requires ReadLe(cmd.data, SMART_FLAGS, 4) == Encode(s, FLAG_TABLE)
    ensures GetFlags(cmd) == s
  {
    TablesOneToOne();
    forall f | f in s
      ensures exists i :: 0 <= i < |FLAG_TABLE| && FLAG_TABLE[i].0 == f
    {
      FlagListed(f);
    }
    TranslateEncode(s, FLAG_TABLE);
  }

  lemma FlagListed(f: SmartFlag)
    ensures exists i :: 0 <= i < |FLAG_TABLE| && FLAG_TABLE[i].0 == f
  {
    match f
    case HealthValid => assert FLAG_TABLE[0].0 == f;
    case SparesValid => assert FLAG_TABLE[1].0 == f;
    case UsedValid => assert FLAG_TABLE[2].0 == f;
    case MtempValid => assert FLAG_TABLE[3].0 == f;
    case CtempValid => assert FLAG_TABLE[4].0 == f;
    case ShutdownCountValid => assert FLAG_TABLE[5].0 == f;
    case AitStatusValid => assert FLAG_TABLE[6].0 == f;
    case PtempValid => assert FLAG_TABLE[7].0 == f;
    case AlarmValid => assert FLAG_TABLE[8].0 == f;
    case ShutdownValid => assert FLAG_TABLE[9].0 == f;
    case VendorValid => assert FLAG_TABLE[10].0 == f;
  }

  /** A single bit that no table entry uses translates to no flag. */
  lemma UnlistedBit<T(!new)>(c: nat, table: seq<(T, nat)>)
    requires forall i :: 0 <= i < |table| ==> table[i].1 != c
    ensures Translate(Pow2(c), table) == {}
  {
    forall i | 0 <= i < |table|
      ensures !Bit(Pow2(c), table[i].1)
    {
      BitPow2(c, table[i].1);
    }
  }

  /** Bit 8 and the bits above 11 of the Intel validity flags are reserved: they set no generic flag. */
  lemma ReservedBitIgnored(cmd: Cmd, c: nat)
    requires Completed(cmd, ND_INTEL_SMART)
    requires c == 8 || c >= 12
    requires ReadLe(cmd.data, SMART_FLAGS, 4) == Pow2(c)
    ensures GetFlags(cmd) == {}
  {
    UnlistedBit(c, FLAG_TABLE);
  }

  /** The three health bits map one-to-one onto the generic health flags. */
  lemma HealthRoundTrip(cmd: Cmd, s: set<Health>)
    requires Completed(cmd, ND_INTEL_SMART)
    requires ReadLe(cmd.data, SMART_HEALTH, 1) == Encode(s, HEALTH_TABLE)
    ensures GetHealth(cmd) == s
  {
    TablesOneToOne();
    forall h | h in s
      ensures exists i :: 0 <= i < |HEALTH_TABLE| && HEALTH_TABLE[i].0 == h
    {
      match h
      case NonCriticalHealth => assert HEALTH_TABLE[0].0 == h;
      case CriticalHealth => assert HEALTH_TABLE[1].0 == h;
      case FatalHealth => assert HEALTH_TABLE[2].0 == h;
    }
    TranslateEncode(s, HEALTH_TABLE);
  }

  lemma TripListed(t: Trip)
    ensures exists i :: 0 <= i < |TRIP_TABLE| && TRIP_TABLE[i].0 == t
  {
    match t
    case SpareTrip => assert TRIP_TABLE[0].0 == t;
    case MtempTrip => assert TRIP_TABLE[1].0 == t;
    case CtempTrip => assert TRIP_TABLE[2].0 == t;
  }

  /** The alarm-control trip bits map one-to-one onto the generic trip flags. */
  lemma AlarmControlRoundTrip(cmd: Cmd, s: set<Trip>)
    requires Completed(cmd, ND_INTEL_SMART_THRESHOLD)
    requires ReadLe(cmd.data, THRESH_ALARM_CONTROL, 2) == Encode(s, TRIP_TABLE)
    ensures GetAlarmControl(cmd) == s
  {
    TablesOneToOne();
    forall t | t in s
      ensures exists i :: 0 <= i < |TRIP_TABLE| && TRIP_TABLE[i].0 == t
    {
      TripListed(t);
    }
    TranslateEncode(s, TRIP_TABLE);
  }

  /**
   * A one- or two-byte field of a valid reply never reads as UINT_MAX, so
   * for those fields UINT_MAX means exactly an invalid reply.
   */
  lemma NarrowFieldMarksInvalid(cmd: Cmd, f: SmartField)
    requires SmartFieldAt(f).1 <= 2
    ensures GetSmartField(cmd, f) == UINT_MAX <==> ReplyValid(cmd, ND_INTEL_SMART) < 0
  {
    var (off, width) := SmartFieldAt(f);
    LeDecodeBound(Slice(cmd.data, off, width));
    FieldWidths(width);
  }

  /** The set-threshold command starts out with the thresholds of the reply it was built from. */
  lemma SetThresholdCopies(src: Cmd, f: ThreshField)
    requires Completed(src, ND_INTEL_SMART_THRESHOLD)
    ensures var r := NewSetThreshold(src, true);
      r.Some? && SetValid(r.value)
      && ReadLe(r.value.data, SetFieldAt(f).0, SetFieldAt(f).1) == ReadLe(src.data, ThreshFieldAt(f).0, ThreshFieldAt(f).1)
  {
    var r := NewSetThreshold(src, true).value;
    var d := Zeros(PAYLOAD_SIZE);
    var a := ReadLe(src.data, THRESH_ALARM_CONTROL, 2);
    var s := ReadLe(src.data, THRESH_SPARES, 1);
    var m := ReadLe(src.data, THRESH_MEDIA_TEMPERATURE, 2);
    var c := ReadLe(src.data, THRESH_CTRL_TEMPERATURE, 2);
    var d1 := WriteLe(d, SET_ALARM_CONTROL, 2, a);
    var d2 := WriteLe(d1, SET_SPARES, 1, s);
    var d3 := WriteLe(d2, SET_MEDIA_TEMPERATURE, 2, m);
    var d4 := WriteLe(d3, SET_CTRL_TEMPERATURE, 2, c);
    assert r.data == d4;
    var (off, width) := ThreshFieldAt(f);
    LeDecodeBound(Slice(src.data, off, width));
    match f
    case AlarmControl =>
      ReadWriteSame(d, SET_ALARM_CONTROL, 2, a);
      ReadWriteOther(d1, SET_SPARES, 1, s, SET_ALARM_CONTROL, 2);
      ReadWriteOther(d2, SET_MEDIA_TEMPERATURE, 2, m, SET_ALARM_CONTROL, 2);
      ReadWriteOther(d3, SET_CTRL_TEMPERATURE, 2, c, SET_ALARM_CONTROL, 2);
      ModSmall(a, Pow256(2));
    case ThreshSpares =>
      ReadWriteSame(d1, SET_SPARES, 1, s);
      ReadWriteOther(d2, SET_MEDIA_TEMPERATURE, 2, m, SET_SPARES, 1);
      ReadWriteOther(d3, SET_CTRL_TEMPERATURE, 2, c, SET_SPARES, 1);
      ModSmall(s, Pow256(1));
    case ThreshMediaTemperature =>
      ReadWriteSame(d2, SET_MEDIA_TEMPERATURE, 2, m);
      ReadWriteOther(d3, SET_CTRL_TEMPERATURE, 2, c, SET_MEDIA_TEMPERATURE, 2);
      ModSmall(m, Pow256(2));
    case ThreshCtrlTemperature =>
      ReadWriteSame(d3, SET_CTRL_TEMPERATURE, 2, c);
      ModSmall(c, Pow256(2));
  }

  /**
   * A setter on an unsubmitted set-threshold command stores the value
   * truncated to the field, leaves the other fields as they were, and
   * keeps the command settable.
   */
  lemma SetterStores(cmd: Cmd, f: ThreshField, g: ThreshField, val: Word32)
    requires SetValid(cmd)
    ensures var r := SetThreshField(cmd, f, val);
      && r.0 == 0 && SetValid(r.1)
      && ReadLe(r.1.data, SetFieldAt(f).0, SetFieldAt(f).1) == (if |cmd.data| >= SET_STATUS then val % Pow256(SetFieldAt(f).1) else ReadLe(r.1.data, SetFieldAt(f).0, SetFieldAt(f).1))
      && (g != f ==> ReadLe(r.1.data, SetFieldAt(g).0, SetFieldAt(g).1) == ReadLe(cmd.data, SetFieldAt(g).0, SetFieldAt(g).1))
  {
    var (off, width) := SetFieldAt(f);
    if |cmd.data| >= SET_STATUS {
      ReadWriteSame(cmd.data, off, width, val);
    }
    if g != f {
      var (off2, width2) := SetFieldAt(g);
      ReadWriteOther(cmd.data, off, width, val, off2, width2);
    }
  }

  /** Once submitted, a set-threshold command refuses every setter and keeps its fields. */
  lemma SubmittedRefusesSetters(cmd: Cmd, f: ThreshField, val: Word32)
    requires cmd.status != 1
    ensures SetThreshField(cmd, f, val) == (-EINVAL, cmd)
    ensures SupportedAlarms(cmd) == {}
  {
  }

  /** The supported alarms of a fresh set-threshold command are the three trips. */
  lemma FreshSetThresholdAlarms(src: Cmd)
    requires Completed(src, ND_INTEL_SMART_THRESHOLD)
    ensures NewSetThreshold(src, true).Some?
    ensures SupportedAlarms(NewSetThreshold(src, true).value) == {SpareTrip, MtempTrip, CtempTrip}
  {
  }
}
