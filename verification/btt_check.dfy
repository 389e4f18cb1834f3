/**
 * The consistency checks `ndctl check-namespace` runs over one BTT arena: the
 * map lookup, the flog's old/new entry selection, the bounds checks on log
 * and map entries, the "every internal block referenced exactly once" bitmap
 * check, and the parsing of an info block into absolute arena offsets.
 *
 * Map entries and log entries are held as the host values their little-endian
 * on-media words decode to.
 */
module BttCheck {
  import opened Machine
  import opened Wrappers
  import opened Errno
  import LabelIndex

  // Map entry flag bits: bit 31 is the trim flag, bit 30 the error flag.
  const MAP_ERR_BIT: nat := 0x4000_0000
  const MAP_ENT_NORMAL: nat := 0xC000_0000
  /** `~((1 << 31) | (1 << 30))` converted to a u32: the low 30 bits. */
  const MAP_LBA_MASK: nat := 0x3FFF_FFFF

  const BTT_INFO_SIZE: nat := 4096
  const IB_FLAG_ERROR_MASK: nat := 1
  /** Start of the first info block for BTT version 1.1 and for 2.0. */
  const BTT1_START_OFFSET: nat := 4096
  const BTT2_START_OFFSET: nat := 0

  // The checker's status codes.
  const BTT_OK := 0
  const BTT_LOG_EQL_SEQ := 0x100
  const BTT_LOG_OOB_SEQ := 0x101
  const BTT_LOG_OOB_LBA := 0x102
  const BTT_LOG_OOB_OLD := 0x103
  const BTT_LOG_OOB_NEW := 0x104
  const BTT_LOG_MAP_ERR := 0x105
  const BTT_MAP_OOB := 0x106
  const BTT_BITMAP_ERROR := 0x107

  /** One flog entry. */
  datatype LogEntry = LogEntry(lba: Word32, oldMap: Word32, newMap: Word32, sequence: Word32)

  /** The parts of an arena the checks read: its geometry, map and flog. */
  datatype Arena = Arena(
    externalNlba: Word32,
    internalNlba: Word32,
    nfree: Word32,
    entries: seq<Word32>,
    log: seq<LogEntry>)

  /** The mapped map holds every external block's entry and the flog two entries per lane. */
  predicate Mapped(a: Arena)
  {
    a.externalNlba <= |a.entries| && 2 * a.nfree <= |a.log|
  }

  // ---------------------------------------------------------------------
  // Map lookup
  // ---------------------------------------------------------------------

  lemma MapMasks(raw: Word32)
    ensures And(raw, MAP_ENT_NORMAL) != 0 <==> raw >= MAP_ERR_BIT
    ensures And(raw, MAP_LBA_MASK) == raw % MAP_ERR_BIT
  {
    Pow2Of30();
    Pow2Of32();
    assert HighMask(32, 30) == MAP_ENT_NORMAL;
    AndHighMask(raw, 32, 30);
    AndLowMask(raw, 30);
    var q := raw / MAP_ERR_BIT;
    assert raw - raw % MAP_ERR_BIT == MAP_ERR_BIT * q;
  }

  /**
   * The post-map block of external block `lba`: an entry with either flag bit
   * set holds the block in its low 30 bits; an entry with neither is in the
   * initial state and maps the block to itself.
   */
  function MapLookup(entries: seq<Word32>, lba: nat): (r: nat)
    requires lba < |entries|
    ensures entries[lba] >= MAP_ERR_BIT ==> r == entries[lba] % MAP_ERR_BIT
    ensures entries[lba] < MAP_ERR_BIT ==> r == lba
    ensures r < MAP_ERR_BIT || r == lba
  {
    var raw := entries[lba];
    MapMasks(raw);
    if And(raw, MAP_ENT_NORMAL) != 0 then And(raw, MAP_LBA_MASK) else lba
  }

  /** A map whose entries are all in the initial state passes the bounds check iff it is no larger than the internal space. */
  lemma InitialMapBounds(a: Arena)
    requires Mapped(a)
    requires forall i :: 0 <= i < a.externalNlba ==> a.entries[i] < MAP_ERR_BIT
    ensures MapInBounds(a) <==> a.externalNlba <= a.internalNlba
  {
    if a.externalNlba > a.internalNlba {
      assert MapLookup(a.entries, a.externalNlba - 1) == a.externalNlba - 1;
    }
  }

  // ---------------------------------------------------------------------
  // Flog entry selection
  // ---------------------------------------------------------------------

  /** Which of a lane's two entries is older, and the pair after the zero-sequence fix-up. */
  datatype Pick = Pick(older: nat, ent: seq<LogEntry>)

  /**
   * The older of the two entries of a lane. A first entry with sequence 0 is
   * the older one and its sequence is rewritten to 1; otherwise the entries'
   * difference decides.
   */
  function LogGetOld(ent: seq<LogEntry>): (r: Pick)
    requires |ent| == 2
    ensures r.older < 2 && |r.ent| == 2 && r.ent[1] == ent[1]
    ensures ent[0].sequence == 0 ==> r.older == 0 && r.ent[0] == ent[0].(sequence := 1)
    ensures ent[0].sequence != 0 ==> r.ent == ent
  {
    if ent[0].sequence == 0 then
      Pick(0, [ent[0].(sequence := 1), ent[1]])
    else if ent[0].sequence < ent[1].sequence then
      Pick(if ent[1].sequence - ent[0].sequence == 1 then 0 else 1, ent)
    else
      Pick(if ent[0].sequence - ent[1].sequence == 1 then 1 else 0, ent)
  }

  /** For two distinct valid sequence numbers, entry 0 is older iff entry 1 follows it in the 1, 2, 3 cycle. */
  lemma LogGetOldFollowsCycle(e0: LogEntry, e1: LogEntry)
    requires 1 <= e0.sequence <= 3 && 1 <= e1.sequence <= 3 && e0.sequence != e1.sequence
    ensures LogGetOld([e0, e1]).older == 0 <==> LabelIndex.IncSeq(e0.sequence) == e1.sequence
    ensures LogGetOld([e0, e1]).older == 1 <==> LabelIndex.IncSeq(e1.sequence) == e0.sequence
  {
  }

  /** The lane's two raw entries. */
  function LanePair(log: seq<LogEntry>, lane: nat): (r: seq<LogEntry>)
    requires 2 * lane + 2 <= |log|
    ensures |r| == 2 && r[0] == log[2 * lane] && r[1] == log[2 * lane + 1]
  {
    log[2 * lane .. 2 * lane + 2]
  }

  /**
   * The lane's newer entry, read from a private copy of the pair, so the
   * zero-sequence fix-up never reaches the arena.
   */
  function LogRead(log: seq<LogEntry>, lane: nat): (r: LogEntry)
    requires 2 * lane + 2 <= |log|
    ensures r == log[2 * lane] || r == log[2 * lane + 1]
    ensures log[2 * lane].sequence == 0 ==> r == log[2 * lane + 1]
  {
    var p := LogGetOld(LanePair(log, lane));
    p.ent[1 - p.older]
  }

  /** With distinct valid sequence numbers the entry read is the one whose sequence follows the other's. */
  lemma LogReadNewer(log: seq<LogEntry>, lane: nat)
    requires 2 * lane + 2 <= |log|
    requires 1 <= log[2 * lane].sequence <= 3 && 1 <= log[2 * lane + 1].sequence <= 3
    requires log[2 * lane].sequence != log[2 * lane + 1].sequence
    ensures var r := LogRead(log, lane);
      var other := if r == log[2 * lane] then log[2 * lane + 1] else log[2 * lane];
      LabelIndex.IncSeq(other.sequence) == r.sequence
  {
    LogGetOldFollowsCycle(log[2 * lane], log[2 * lane + 1]);
  }

  // ---------------------------------------------------------------------
  // Log entry checks
  // ---------------------------------------------------------------------

  /** Lane `l`'s two sequence numbers are distinct and at most 3. */
  predicate LaneSeqsOk(a: Arena, l: nat)
    requires Mapped(a) && l < a.nfree
  {
    var s0, s1 := a.log[2 * l].sequence, a.log[2 * l + 1].sequence;
    s0 != s1 && s0 <= 3 && s1 <= 3
  }

  predicate SeqsOk(a: Arena)
    requires Mapped(a)
  {
    forall l :: 0 <= l < a.nfree ==> LaneSeqsOk(a, l)
  }

  /** Lane `l`'s newer entry names an external and two internal blocks in range. */
  predicate LaneInBounds(a: Arena, l: nat)
    requires Mapped(a) && l < a.nfree
  {
    var e := LogRead(a.log, l);
    e.lba < a.externalNlba && e.oldMap < a.internalNlba && e.newMap < a.internalNlba
  }

  predicate EntriesInBounds(a: Arena)
    requires Mapped(a)
  {
    forall l :: 0 <= l < a.nfree ==> LaneInBounds(a, l)
  }

  /** Lane `l` is the first whose sequence numbers fail. */
  predicate FirstBadSeqLane(a: Arena, l: nat)
    requires Mapped(a)
  {
    l < a.nfree && !LaneSeqsOk(a, l) && forall m :: 0 <= m < l ==> LaneSeqsOk(a, m)
  }

  /** Lane `l` is the first whose newer entry is out of bounds. */
  predicate FirstOutOfBoundsLane(a: Arena, l: nat)
    requires Mapped(a)
  {
    l < a.nfree && !LaneInBounds(a, l) && forall m :: 0 <= m < l ==> LaneInBounds(a, m)
  }

  /** The code the first out-of-bounds lane gives: the external block first, then the old, then the new internal block. */
  function BoundsCode(a: Arena, l: nat): int
    requires Mapped(a) && l < a.nfree
  {
    var e := LogRead(a.log, l);
    if e.lba >= a.externalNlba then BTT_LOG_OOB_LBA
    else if e.oldMap >= a.internalNlba then BTT_LOG_OOB_OLD
    else BTT_LOG_OOB_NEW
  }

  /**
   * Every lane's sequence numbers are checked before any entry's bounds; the
   * first failing lane decides the code.
   */
  method CheckLogEntries(a: Arena) returns (r: int)
    requires Mapped(a)
    ensures r == BTT_OK <==> SeqsOk(a) && EntriesInBounds(a)
    ensures r in {BTT_OK, BTT_LOG_EQL_SEQ, BTT_LOG_OOB_SEQ, BTT_LOG_OOB_LBA, BTT_LOG_OOB_OLD, BTT_LOG_OOB_NEW}
    ensures r == BTT_LOG_EQL_SEQ ==> exists l :: 0 <= l < a.nfree && a.log[2 * l].sequence == a.log[2 * l + 1].sequence
    ensures r == BTT_LOG_OOB_SEQ ==> exists l :: 0 <= l < a.nfree && (a.log[2 * l].sequence > 3 || a.log[2 * l + 1].sequence > 3)
    ensures r in {BTT_LOG_OOB_LBA, BTT_LOG_OOB_OLD, BTT_LOG_OOB_NEW} ==> SeqsOk(a) && !EntriesInBounds(a)
    ensures forall l :: FirstBadSeqLane(a, l) ==>
      r == if a.log[2 * l].sequence == a.log[2 * l + 1].sequence then BTT_LOG_EQL_SEQ else BTT_LOG_OOB_SEQ
    ensures SeqsOk(a) ==> forall l :: FirstOutOfBoundsLane(a, l) ==> r == BoundsCode(a, l)
  {
    var i := 0;
    while i < a.nfree
      invariant i <= a.nfree
      invariant forall l :: 0 <= l < i ==> LaneSeqsOk(a, l)
    {
      assert LaneSeqsOk(a, i) <==> a.log[2 * i].sequence != a.log[2 * i + 1].sequence
                                   && a.log[2 * i].sequence <= 3 && a.log[2 * i + 1].sequence <= 3;
      if a.log[2 * i].sequence == a.log[2 * i + 1].sequence {
        return BTT_LOG_EQL_SEQ;
      }
      if a.log[2 * i].sequence > 3 || a.log[2 * i + 1].sequence > 3 {
        return BTT_LOG_OOB_SEQ;
      }
      i := i + 1;
    }
    i := 0;
    while i < a.nfree
      invariant i <= a.nfree
      invariant forall l :: 0 <= l < i ==> LaneInBounds(a, l)
    {
      var e := LogRead(a.log, i);
      assert LaneInBounds(a, i) <==> e.lba < a.externalNlba && e.oldMap < a.internalNlba && e.newMap < a.internalNlba;
      if e.lba >= a.externalNlba {
        return BTT_LOG_OOB_LBA;
      }
      if e.oldMap >= a.internalNlba {
        return BTT_LOG_OOB_OLD;
      }
      if e.newMap >= a.internalNlba {
        return BTT_LOG_OOB_NEW;
      }
      i := i + 1;
    }
    return BTT_OK;
  }

  // ---------------------------------------------------------------------
  // Map entry check
  // ---------------------------------------------------------------------

  predicate MapInBounds(a: Arena)
    requires Mapped(a)
  {
    forall i :: 0 <= i < a.externalNlba ==> MapLookup(a.entries, i) < a.internalNlba
  }

  /** Fails with BTT_MAP_OOB iff some external block maps outside the internal space. */
  method CheckMapEntries(a: Arena) returns (r: int)
    requires Mapped(a)
    ensures r == BTT_OK <==> MapInBounds(a)
    ensures r == BTT_OK || r == BTT_MAP_OOB
  {
    var i := 0;
    while i < a.externalNlba
      invariant i <= a.externalNlba
      invariant forall j :: 0 <= j < i ==> MapLookup(a.entries, j) < a.internalNlba
    {
      if MapLookup(a.entries, i) >= a.internalNlba {
        return BTT_MAP_OOB;
      }
      i := i + 1;
    }
    return BTT_OK;
  }

  // ---------------------------------------------------------------------
  // Bitmap check
  // ---------------------------------------------------------------------

  /** The internal blocks the map references, in external block order. */
  function MapRefs(a: Arena): (r: seq<nat>)
    requires Mapped(a)
    ensures |r| == a.externalNlba
    ensures forall i :: 0 <= i < |r| ==> r[i] == MapLookup(a.entries, i)
  {
    seq(a.externalNlba, i requires 0 <= i < a.externalNlba && Mapped(a) => MapLookup(a.entries, i))
  }

  /** The free blocks the flog holds: each lane's newer entry's old mapping. */
  function LogRefs(a: Arena): (r: seq<nat>)
    requires Mapped(a)
    ensures |r| == a.nfree
    ensures forall l :: 0 <= l < |r| ==> r[l] == LogRead(a.log, l).oldMap
  {
    seq(a.nfree, l requires 0 <= l < a.nfree && Mapped(a) => LogRead(a.log, l).oldMap)
  }

  function Refs(a: Arena): seq<nat>
    requires Mapped(a)
  {
    MapRefs(a) + LogRefs(a)
  }

  predicate Distinct(s: seq<nat>)
  {
    forall i, j :: 0 <= i < j < |s| ==> s[i] != s[j]
  }

  /** Every internal block is referenced, and none twice, by the map and the flog together. */
  predicate ExactlyOnce(a: Arena)
    requires Mapped(a)
  {
    Distinct(Refs(a)) && forall b :: 0 <= b < a.internalNlba ==> b in Refs(a)
  }

  /** Every reference names an internal block: what the log and map checks establish first. */
  predicate RefsInBounds(a: Arena)
    requires Mapped(a)
  {
    forall x :: x in Refs(a) ==> x < a.internalNlba
  }

  /** Arenas that passed the log and map checks can be given to the bitmap check. */
  lemma ChecksEstablishRefsInBounds(a: Arena)
    requires Mapped(a) && EntriesInBounds(a) && MapInBounds(a)
    ensures RefsInBounds(a)
  {
    var refs := Refs(a);
    forall x | x in refs
      ensures x < a.internalNlba
    {
      var k :| 0 <= k < |refs| && refs[k] == x;
      if k < a.externalNlba {
        assert x == MapLookup(a.entries, k);
      } else {
        assert x == LogRead(a.log, k - a.externalNlba).oldMap;
        assert LaneInBounds(a, k - a.externalNlba);
      }
    }
  }

  /** A prefix holding a repeated value makes the whole sequence non-distinct. */
  lemma RepeatBreaksDistinct(s: seq<nat>, k: nat)
    requires k < |s| && s[k] in s[..k]
    ensures !Distinct(s)
  {
    var j :| 0 <= j < k && s[..k][j] == s[k];
    assert s[j] == s[k];
  }

  /**
   * Marks the references of `refs[from..to]` in `bm`, stopping at the first
   * block already marked. Returns whether a repeat was found.
   */
  method MarkRefs(refs: seq<nat>, from: nat, to: nat, bm0: seq<bool>) returns (dup: bool, bm: seq<bool>)
    requires from <= to <= |refs|
    requires forall x :: x in refs ==> x < |bm0|
    requires forall b :: 0 <= b < |bm0| ==> (bm0[b] <==> b in refs[..from])
    requires Distinct(refs[..from])
    ensures dup ==> !Distinct(refs)
    ensures !dup ==> |bm| == |bm0| && Distinct(refs[..to])
    ensures !dup ==> forall b :: 0 <= b < |bm| ==> (bm[b] <==> b in refs[..to])
  {
    bm := bm0;
    var k := from;
    while k < to
      invariant from <= k <= to && |bm| == |bm0|
      invariant forall b :: 0 <= b < |bm| ==> (bm[b] <==> b in refs[..k])
      invariant Distinct(refs[..k])
    {
      var m := refs[k];
      assert m in refs;
      if bm[m] {
        RepeatBreaksDistinct(refs, k);
        return true, bm;
      }
      assert refs[..k + 1] == refs[..k] + [m];
      bm := bm[m := true];
      k := k + 1;
    }
    return false, bm;
  }

  /** `refs[..n]` of a whole sequence is the sequence. */
  lemma FullPrefix(s: seq<nat>)
    ensures s[..|s|] == s
  {
  }

  /**
   * The bitmap check as the source writes it: the status starts as
   * BTT_BITMAP_ERROR and only reading a flog lane resets it, so an arena
   * without free blocks fails even when its map is perfect.
   */
  method CheckBitmap(a: Arena) returns (r: int)
    requires Mapped(a) && RefsInBounds(a)
    ensures r == BTT_OK <==> a.nfree >= 1 && ExactlyOnce(a)
    ensures r == BTT_OK || r == BTT_BITMAP_ERROR
  {
    var rc := BTT_BITMAP_ERROR;
    var refs := Refs(a);
    var bm := seq(a.internalNlba, _ => false);
    var dup;
    dup, bm := MarkRefs(refs, 0, a.externalNlba, bm);
    if dup {
      return rc;
    }
    if a.nfree >= 1 {
      // Reading a lane's log entry returns 0.
      rc := BTT_OK;
    }
    dup, bm := MarkRefs(refs, a.externalNlba, |refs|, bm);
    if dup {
      return BTT_BITMAP_ERROR;
    }
    FullPrefix(refs);
    if !(forall b :: 0 <= b < |bm| ==> bm[b]) {
      rc := BTT_BITMAP_ERROR;
    }
    return rc;
  }

  /** The bitmap check with the status starting at BTT_OK, so it judges only the references. */
  method CheckBitmapFixed(a: Arena) returns (r: int)
    requires Mapped(a) && RefsInBounds(a)
    ensures r == BTT_OK <==> ExactlyOnce(a)
    ensures r == BTT_OK || r == BTT_BITMAP_ERROR
  {
    var refs := Refs(a);
    var bm := seq(a.internalNlba, _ => false);
    var dup;
    dup, bm := MarkRefs(refs, 0, |refs|, bm);
    if dup {
      return BTT_BITMAP_ERROR;
    }
    FullPrefix(refs);
    if !(forall b :: 0 <= b < |bm| ==> bm[b]) {
      return BTT_BITMAP_ERROR;
    }
    return BTT_OK;
  }

  /** One external block mapped to itself and no free blocks: a perfect map the as-written check rejects. */
  lemma PerfectMapWithoutFreeBlocks()
    ensures var a := Arena(1, 1, 0, [0], []);
      Mapped(a) && RefsInBounds(a) && ExactlyOnce(a) && a.nfree == 0
  {
    var a := Arena(1, 1, 0, [0], []);
    assert MapLookup(a.entries, 0) == 0;
    assert Refs(a) == [0];
  }

  // ---------------------------------------------------------------------
  // Info block parsing
  // ---------------------------------------------------------------------

  /** The info block fields the parser reads, decoded from little-endian. */
  datatype InfoBlock = InfoBlock(
    flags: Word32,
    versionMajor: Word16,
    versionMinor: Word16,
    externalLbasize: Word32,
    externalNlba: Word32,
    internalLbasize: Word32,
    internalNlba: Word32,
    nfree: Word32,
    nextoff: Word64,
    dataoff: Word64,
    mapoff: Word64,
    logoff: Word64,
    info2off: Word64)

  /** An arena's geometry, with offsets relative to the start of the raw namespace. */
  datatype ArenaInfo = ArenaInfo(
    size: Word64,
    internalNlba: Word32,
    internalLbasize: Word32,
    externalNlba: Word32,
    externalLbasize: Word32,
    nfree: Word32,
    versionMajor: Word16,
    versionMinor: Word16,
    nextoff: Word64,
    infooff: Word64,
    dataoff: Word64,
    mapoff: Word64,
    logoff: Word64,
    info2off: Word64,
    flags: Word32)

  /** The info block's geometry and offsets; rejects an inconsistent block or one whose error flag is set. */
  function ParseMeta(sb: InfoBlock, arenaOff: Word64): (r: Result<ArenaInfo>)
    ensures r.Ok? <==> Wrap32(sb.internalNlba - sb.externalNlba) == sb.nfree
                       && sb.internalLbasize == sb.externalLbasize
                       && sb.flags % 2 == 0
    ensures r.Err? ==> r.code == -ENXIO
    ensures r.Ok? ==> r.value.infooff == arenaOff && r.value.nfree == sb.nfree
                      && r.value.internalNlba == sb.internalNlba && r.value.externalNlba == sb.externalNlba
                      && r.value.versionMajor == sb.versionMajor && r.value.versionMinor == sb.versionMinor
  {
    if Wrap32(sb.internalNlba - sb.externalNlba) != sb.nfree then Err(-ENXIO)
    else if sb.internalLbasize != sb.externalLbasize then Err(-ENXIO)
    else
      var info2off := Wrap64(arenaOff + sb.info2off);
      var info := ArenaInfo(
        size := if sb.nextoff > 0 then sb.nextoff else Wrap64(info2off - arenaOff + BTT_INFO_SIZE),
        internalNlba := sb.internalNlba,
        internalLbasize := sb.internalLbasize,
        externalNlba := sb.externalNlba,
        externalLbasize := sb.externalLbasize,
        nfree := sb.nfree,
        versionMajor := sb.versionMajor,
        versionMinor := sb.versionMinor,
        nextoff := if sb.nextoff == 0 then 0 else Wrap64(arenaOff + sb.nextoff),
        infooff := arenaOff,
        dataoff := Wrap64(arenaOff + sb.dataoff),
        mapoff := Wrap64(arenaOff + sb.mapoff),
        logoff := Wrap64(arenaOff + sb.logoff),
        info2off := info2off,
        flags := sb.flags);
      assert And(sb.flags, IB_FLAG_ERROR_MASK) == sb.flags % 2 by {
        AndLowMask(sb.flags, 1);
      }
      if And(sb.flags, IB_FLAG_ERROR_MASK) != 0 then Err(-ENXIO) else Ok(info)
  }

  /**
   * When the arena lies below 2^64, parsing recovers each relative offset
   * from the absolute one, the size is the next arena's offset or else runs
   * to the end of the backup info block, and internal blocks are external
   * blocks plus free blocks.
   */
  lemma ParseMetaGeometry(sb: InfoBlock, arenaOff: Word64)
    requires ParseMeta(sb, arenaOff).Ok?
    requires sb.internalNlba >= sb.externalNlba
    requires arenaOff + sb.nextoff < U64 && arenaOff + sb.dataoff < U64 && arenaOff + sb.mapoff < U64
    requires arenaOff + sb.logoff < U64 && arenaOff + sb.info2off + BTT_INFO_SIZE < U64
    ensures var a := ParseMeta(sb, arenaOff).value;
      a.internalNlba == a.externalNlba + a.nfree
      && a.dataoff - a.infooff == sb.dataoff && a.mapoff - a.infooff == sb.mapoff
      && a.logoff - a.infooff == sb.logoff && a.info2off - a.infooff == sb.info2off
      && (sb.nextoff == 0 ==> a.nextoff == 0 && a.size == sb.info2off + BTT_INFO_SIZE)
      && (sb.nextoff != 0 ==> a.nextoff - a.infooff == sb.nextoff && a.size == sb.nextoff)
  {
  }

  /**
   * Where the first info block of a BTT of the given version starts: 4096
   * for version 1.1, 0 for 2.0, and -ENXIO for any other version.
   */
  function ExpectedOffset(versionMajor: Word16, versionMinor: Word16): (r: int)
    ensures r >= 0 <==> (versionMajor, versionMinor) in {(1, 1), (2, 0)}
    ensures r < 0 ==> r == -ENXIO
    ensures r >= 0 ==> r == if versionMajor == 1 then BTT1_START_OFFSET else BTT2_START_OFFSET
  {
    if versionMajor == 1 && versionMinor == 1 then BTT1_START_OFFSET
    else if versionMajor == 2 && versionMinor == 0 then BTT2_START_OFFSET
    else -ENXIO
  }
}
