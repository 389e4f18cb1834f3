/**
 * Address range scrub (ARS) commands of the bus: the capability query whose
 * answer gates every later request, scrub start, scrub status with its
 * error records, and clear-error, which must stay inside the capability's
 * range and be aligned to its clear unit.
 */
module Ars {
  import opened Machine
  import opened Wrappers

  /** Low half of the firmware status: the command's own result. */
  const ARS_STATUS_MASK: nat := 0xFFFF
  /** The upper half of the firmware status, `>> 16`: extended status, here the supported scrub types. */
  const ARS_EXT_STATUS_UNIT: nat := 0x1_0000
  /** Extended status "scrub in progress". */
  const ARS_IN_PROGRESS: nat := 0x1_0000

  datatype CmdKind = ArsCapKind | ArsStartKind | ArsStatusKind | ClearErrorKind | OtherKind

  /**
   * A capability command as returned: `status` is the submission result (1
   * while not submitted, negative on failure, 0 when done).
   */
  datatype ArsCap = ArsCap(kind: CmdKind, status: int, firmwareStatus: Word32,
                           address: Word64, length: Word64, clearErrUnit: Word32, maxArsOut: Word32)

  datatype ArsStart = ArsStart(address: Word64, length: Word64, arsType: Word32, status: int)
  datatype Record = Record(addr: Word64, len: Word64)
  /**
   * A status command: `numRecords` is the count the firmware reports and
   * `records` the records its output buffer holds.
   */
  datatype ArsStatus = ArsStatus(kind: CmdKind, status: int, firmwareStatus: Word32, outLength: Word32,
                                 numRecords: Word32, records: seq<Record>)
  datatype ClearError = ClearError(address: Word64, length: Word64, status: int)

  // ---------------------------------------------------------------------
  // Powers of two
  // ---------------------------------------------------------------------

  /** `v && !(v & (v - 1))`. */
  predicate IsPowerOf2(v: Word32)
  {
    v != 0 && And(v, v - 1) == 0
  }

  /** The bit test recognises exactly the powers of two. */
  lemma PowerOf2Iff(v: Word32)
    ensures IsPowerOf2(v) <==> exists k: nat :: v == Pow2(k)
  {
    if v != 0 && And(v, v - 1) == 0 {
      PowerOf2Of(v);
    }
    forall k: nat | v == Pow2(k)
      ensures IsPowerOf2(v)
    {
      PowerOf2Passes(k);
    }
  }

  lemma PowerOf2Passes(k: nat)
    ensures And(Pow2(k), Pow2(k) - 1) == 0
  {
    AndLowMask(Pow2(k), k);
  }

  lemma {:induction false} PowerOf2Of(v: nat)
    requires v != 0 && And(v, v - 1) == 0
    ensures exists k: nat :: v == Pow2(k)
    decreases v
  {
    if v == 1 {
      assert v == Pow2(0);
    } else if v % 2 == 0 {
      assert (v - 1) / 2 == v / 2 - 1 && (v - 1) % 2 == 1;
      assert And(v, v - 1) == 2 * And(v / 2, v / 2 - 1);
      PowerOf2Of(v / 2);
      var j: nat :| v / 2 == Pow2(j);
      assert v == Pow2(j + 1);
    } else {
      assert (v - 1) / 2 == v / 2 && (v - 1) % 2 == 0;
      AndSelf(v / 2);
      assert false;
    }
  }

  /** Masking with 2^k leaves 2^k when bit k is set and 0 otherwise. */
  lemma {:induction false} AndPow2(x: nat, k: nat)
    ensures And(x, Pow2(k)) == if Bit(x, k) then Pow2(k) else 0
    decreases k
  {
    if x == 0 {
      ZeroBit(k);
    } else if k > 0 {
      assert Pow2(k) / 2 == Pow2(k - 1) && Pow2(k) % 2 == 0;
      AndPow2(x / 2, k - 1);
    }
  }

  // ---------------------------------------------------------------------
  // Capability
  // ---------------------------------------------------------------------

  /** A completed capability command whose firmware reported success and a power-of-two clear unit. */
  predicate ValidArsCap(c: ArsCap)
  {
    && c.kind == ArsCapKind && c.status == 0
    && And(c.firmwareStatus, ARS_STATUS_MASK) == 0
    && IsPowerOf2(c.clearErrUnit)
  }

  lemma ValidArsCapMeans(c: ArsCap)
    ensures ValidArsCap(c) <==>
      && c.kind == ArsCapKind && c.status == 0
      && c.firmwareStatus % 0x1_0000 == 0
      && exists k: nat :: c.clearErrUnit == Pow2(k)
  {
    Pow2Of16();
    AndLowMask(c.firmwareStatus, 16);
    assert And(c.firmwareStatus, ARS_STATUS_MASK) == c.firmwareStatus % 0x1_0000;
    PowerOf2Iff(c.clearErrUnit);
  }

  /** `ndctl_cmd_ars_cap_get_size`: the status buffer size of a completed capability command, else 0. */
  function ArsCapGetSize(c: ArsCap): (r: Word32)
    ensures r != 0 ==> c.kind == ArsCapKind && c.status == 0 && r == c.maxArsOut
  {
    if c.kind == ArsCapKind && c.status == 0 then c.maxArsOut else 0
  }

  /**
   * A scrub start for `arsType`: refused (None) unless the bus supports it,
   * the capability is valid and the requested type bit appears in the
   * extended status; the new command covers the capability's range and is
   * not yet submitted.
   */
  function NewArsStart(supported: bool, cap: ArsCap, arsType: int): (r: Option<ArsStart>)
    ensures r.Some? ==> supported && ValidArsCap(cap)
    ensures r.Some? ==> r.value == ArsStart(cap.address, cap.length, Wrap32(arsType), 1)
  {
    if !supported || !ValidArsCap(cap) then None
    else if And(cap.firmwareStatus / ARS_EXT_STATUS_UNIT, Wrap32(arsType)) == 0 then None
    else Some(ArsStart(cap.address, cap.length, Wrap32(arsType), 1))
  }

  /** A single-bit type is accepted exactly when the capability lists that bit. */
  lemma ArsStartSingleType(cap: ArsCap, k: nat)
    requires ValidArsCap(cap) && k < 31
    ensures NewArsStart(true, cap, Pow2(k)).Some? <==> Bit(cap.firmwareStatus / ARS_EXT_STATUS_UNIT, k)
  {
    Pow2Mono(k, 31);
    assert Pow2(31) < U32 by {
      Pow2Of32();
      Pow2Mono(31, 32);
      assert Pow2(32) == 2 * Pow2(31);
    }
    ModSmall(Pow2(k), U32);
    AndPow2(cap.firmwareStatus / ARS_EXT_STATUS_UNIT, k);
  }

  /**
   * A status command sized by the capability: refused unless supported, the
   * capability is valid and reports a nonzero buffer size.
   */
  function NewArsStatus(supported: bool, cap: ArsCap): (r: Option<ArsStatus>)
    ensures r.Some? ==> supported && ValidArsCap(cap) && cap.maxArsOut > 0
  {
    if !supported || !ValidArsCap(cap) || cap.maxArsOut == 0 then None
    else Some(ArsStatus(ArsStatusKind, 1, 0, cap.maxArsOut, 0, []))
  }

  /** A status command, when one is built, is sized by what the size getter reports. */
  lemma StatusSizedByCap(supported: bool, cap: ArsCap)
    requires NewArsStatus(supported, cap).Some?
    ensures NewArsStatus(supported, cap).value.outLength == ArsCapGetSize(cap) > 0
  {
  }

  // ---------------------------------------------------------------------
  // Status
  // ---------------------------------------------------------------------

  /** A status command that was submitted without error (a positive status, an underrun, is fine). */
  predicate ValidArsStat(s: ArsStatus)
  {
    s.kind == ArsStatusKind && s.status >= 0 && And(s.firmwareStatus, ARS_STATUS_MASK) == 0
  }

  /**
   * `ndctl_cmd_ars_in_progress`: 1 when the status is valid and the firmware
   * reports a scrub in progress, and then the command is marked unsubmitted.
   */
  function ArsInProgress(s: ArsStatus): (r: (int, ArsStatus))
    ensures r.0 == 1 <==> ValidArsStat(s) && s.firmwareStatus == ARS_IN_PROGRESS
    ensures r.0 == 0 || r.0 == 1
    ensures r.0 == 1 ==> r.1 == s.(status := 1)
    ensures r.0 == 0 ==> r.1 == s
  {
    if !ValidArsStat(s) then (0, s)
    else if s.firmwareStatus == ARS_IN_PROGRESS then (1, s.(status := 1))
    else (0, s)
  }

  /**
   * Marking the command unsubmitted does not make the validation fail, so a
   * second call on the same command reports "in progress" again.
   */
  lemma InProgressRepeats(s: ArsStatus)
    requires ArsInProgress(s).0 == 1
    ensures ArsInProgress(ArsInProgress(s).1).0 == 1
  {
  }

  /** `ndctl_cmd_ars_num_records`: the firmware's count for a valid status, else 0. */
  function NumRecords(s: ArsStatus): (n: Word32)
    ensures ValidArsStat(s) ==> n == s.numRecords
    ensures !ValidArsStat(s) ==> n == 0
  {
    if ValidArsStat(s) then s.numRecords else 0
  }

  /**
   * The error address of record `i`: 0 for an invalid command or an index
   * not below the firmware's count.
   */
  function RecordAddr(s: ArsStatus, i: Word32): (a: Word64)
    ensures i < NumRecords(s) && i < |s.records| ==> a == s.records[i].addr
  {
    if !ValidArsStat(s) || i >= s.numRecords then 0
    else if i < |s.records| then s.records[i].addr else 0
  }

  /**
   * The error length of record `i`: 0 for an invalid command or an index
   * not below the firmware's count.
   */
  function RecordLen(s: ArsStatus, i: Word32): (l: Word64)
    ensures i < NumRecords(s) && i < |s.records| ==> l == s.records[i].len
  {
    if !ValidArsStat(s) || i >= s.numRecords then 0
    else if i < |s.records| then s.records[i].len else 0
  }

  /**
   * The firmware's count, not the buffer, bounds the records: past the
   * count both accessors give 0, even for a record the buffer holds.
   */
  lemma RecordsPastCountAreZero(s: ArsStatus, i: Word32)
    requires i >= NumRecords(s)
    ensures RecordAddr(s, i) == 0 && RecordLen(s, i) == 0
  {
  }

  // ---------------------------------------------------------------------
  // Clear error
  // ---------------------------------------------------------------------

  /**
   * Clear-error as written: the range end and the request end are computed
   * in 64-bit arithmetic, and alignment is checked by masking address|len
   * with the clear unit minus one.
   */
  function NewClearErrorU64(supported: bool, cap: ArsCap, address: Word64, len: Word64): (r: Option<ClearError>)
    ensures r.Some? ==> supported && ValidArsCap(cap) && cap.address <= address
  {
    if !supported || !ValidArsCap(cap) then None
    else
      var end := Wrap64(cap.address + cap.length);
      if address < cap.address || address > end || Wrap64(address + len) > end then None
      else if And(Or(address, len), Wrap32(cap.clearErrUnit - 1)) != 0 then None
      else Some(ClearError(address, len, 1))
  }

  /** Clear-error with the range test done without wrap-around. */
  function NewClearError(supported: bool, cap: ArsCap, address: Word64, len: Word64): (r: Option<ClearError>)
    ensures r.Some? ==> r.value == ClearError(address, len, 1)
  {
    if !supported || !ValidArsCap(cap) then None
    else if address < cap.address || address + len > cap.address + cap.length then None
    else if And(Or(address, len), Wrap32(cap.clearErrUnit - 1)) != 0 then None
    else Some(ClearError(address, len, 1))
  }

  /**
   * A request is accepted exactly when it lies inside the capability's range
   * and both its address and its length are multiples of the clear unit.
   */
  lemma ClearErrorMeans(supported: bool, cap: ArsCap, address: Word64, len: Word64)
    ensures NewClearError(supported, cap, address, len).Some? <==>
      && supported && ValidArsCap(cap)
      && cap.address <= address && address + len <= cap.address + cap.length
      && address % cap.clearErrUnit == 0 && len % cap.clearErrUnit == 0
  {
    if supported && ValidArsCap(cap) {
      PowerOf2Iff(cap.clearErrUnit);
      var k: nat :| cap.clearErrUnit == Pow2(k);
      ModSmall(cap.clearErrUnit - 1, U32);
      AndLowMask(Or(address, len), k);
      OrMultiple(address, len, k);
    }
  }

  /** Without wrap-around both versions decide alike. */
  lemma ClearErrorAgreesWithoutWrap(supported: bool, cap: ArsCap, address: Word64, len: Word64)
    requires cap.address + cap.length < U64 && address + len < U64
    ensures NewClearErrorU64(supported, cap, address, len) == NewClearError(supported, cap, address, len)
  {
    ModSmall(cap.address + cap.length, U64);
    ModSmall(address + len, U64);
  }

  /**
   * A request from the start of the range to 2^64 has an end that wraps to
   * 0, so it passes the 64-bit range test; for instance address 0x1000 and
   * length 2^64 - 0x1000 against a capability of 0x1000 bytes at 0x1000
   * with a clear unit of 0x1000.
   */
  lemma ClearErrorWrapAccepted(cap: ArsCap)
    requires ValidArsCap(cap) && 0 < cap.address && cap.address + cap.length < U64
    requires cap.address % cap.clearErrUnit == 0
    ensures NewClearErrorU64(true, cap, cap.address, U64 - cap.address).Some?
    ensures NewClearError(true, cap, cap.address, U64 - cap.address).None?
  {
    var a := cap.address;
    var len := U64 - a;
    ModSmall(a + cap.length, U64);
    assert Wrap64(a + len) == 0;
    PowerOf2Iff(cap.clearErrUnit);
    var k: nat :| cap.clearErrUnit == Pow2(k);
    assert k < 64 by {
      if k >= 64 {
        Pow2Mono(32, k);
        Pow2Of32();
      }
    }
    DistanceToTopAligned(a, k);
    ModSmall(cap.clearErrUnit - 1, U32);
    AndLowMask(Or(a, len), k);
    OrMultiple(a, len, k);
  }

  /** The distance from an aligned address to 2^64 is aligned as well. */
  lemma DistanceToTopAligned(a: nat, k: nat)
    requires k <= 64 && a <= U64 && a % Pow2(k) == 0
    ensures (U64 - a) % Pow2(k) == 0
  {
    Pow2Add(k, 64 - k);
    Pow2Of64();
    AlignedComplement(a, Pow2(k), Pow2(64 - k));
  }

  lemma AlignedComplement(a: nat, p: nat, r: nat)
    requires p > 0 && a <= p * r && a % p == 0
    ensures (p * r - a) % p == 0
  {
    var q := a / p;
    assert a == p * q;
    assert p * r - a == p * (r - q);
    DivModUnique(p * r - a, p, r - q, 0);
  }

  lemma Pow2Of64()
    ensures Pow2(64) == U64
  {
    Pow2Add(32, 32);
    Pow2Of32();
  }
}
