/**
 * The namespace label index of an NVDIMM's configuration (label) area: two
 * index blocks followed by an array of 128-byte labels. The blocks carry a
 * two-bit sequence number that cycles 1 -> 2 -> 3 -> 1; the newer of two valid
 * blocks is the active one. The configuration area is a byte sequence whose
 * length is the configuration size.
 */
module LabelIndex {
  import opened Machine
  import Fletcher

  const NSINDEX_SIG_LEN: nat := 16
  const NSINDEX_ALIGN: nat := 256
  const NSINDEX_SEQ_MASK: nat := 3
  /** sizeof(struct namespace_index) up to its flexible free bitmap. */
  const SIZEOF_INDEX: nat := 72
  /** sizeof(struct namespace_label). */
  const SIZEOF_LABEL: nat := 128
  /** Bits in an unsigned long: the bitmap is sized in whole longs. */
  const BITS_PER_LONG: nat := 64

  // Byte offsets of the fields of struct namespace_index.
  const OFF_FLAGS: nat := 16
  const OFF_SEQ: nat := 20
  const OFF_MYOFF: nat := 24
  const OFF_MYSIZE: nat := 32
  const OFF_OTHEROFF: nat := 40
  const OFF_LABELOFF: nat := 48
  const OFF_NSLOT: nat := 56
  const OFF_MAJOR: nat := 60
  const OFF_MINOR: nat := 62
  const OFF_CHECKSUM: nat := 64
  const OFF_FREE: nat := 72

  /** "NAMESPACE_INDEX" followed by its terminating zero byte. */
  const SIGNATURE: seq<Byte> := [78, 65, 77, 69, 83, 80, 65, 67, 69, 95, 73, 78, 68, 69, 88, 0]

  // ---------------------------------------------------------------------
  // Sequence numbers
  // ---------------------------------------------------------------------

  /** The successor of a sequence number, looking only at its low two bits. */
  function IncSeq(s: nat): (r: nat)
    ensures r < 4
  {
    [0, 2, 3, 1][s % 4]
  }

  /** Sequence numbers 1, 2 and 3 form a cycle and 0 is a fixed point. */
  lemma IncSeqCycle(s: nat)
    ensures IncSeq(s) == IncSeq(s % 4)
    ensures s % 4 == 0 <==> IncSeq(s) == 0
    ensures s % 4 != 0 ==> IncSeq(s) != s % 4 && IncSeq(IncSeq(IncSeq(s))) == s % 4
  {
  }

  /** Of two sequence numbers (low two bits only), the newer one. */
  function BestSeq(a: nat, b: nat): (r: nat)
    ensures r == a % 4 || r == b % 4
    ensures a % 4 == 0 ==> r == b % 4
    ensures b % 4 == 0 ==> r == a % 4
    ensures a % 4 != 0 && b % 4 != 0 && a % 4 != b % 4 ==> (r == b % 4 <==> IncSeq(a) == b % 4)
  {
    var a := a % 4;
    var b := b % 4;
    if a == 0 || a == b then b
    else if b == 0 then a
    else if IncSeq(a) == b then b
    else a
  }

  /** Between two live, different sequence numbers the choice does not depend on the order. */
  lemma BestSeqSymmetric(a: nat, b: nat)
    requires a % 4 != 0 && b % 4 != 0
    ensures BestSeq(a, b) == BestSeq(b, a)
  {
  }

  // ---------------------------------------------------------------------
  // Sizing
  // ---------------------------------------------------------------------

  /**
   * Bytes per index block for a configuration area of `configSize` bytes: one
   * byte of bitmap per label rounded to whole 256-byte units; the label count
   * configSize / 129 is held in a u32.
   */
  function IndexSize(configSize: nat): nat
  {
    ((configSize / 129) % U32 / (NSINDEX_ALIGN * 2)) * NSINDEX_ALIGN
  }

  /** Number of label slots of a configuration area. */
  function NumLabelSlots(configSize: nat): nat
  {
    configSize / 129
  }

  /**
   * The index size through the per-DIMM cache: a nonzero cached value is
   * returned as is, otherwise the size is computed and cached.
   */
  function SizeofNamespaceIndex(cached: nat, configSize: nat): (r: (nat, nat))
    ensures r.0 == r.1
    ensures cached != 0 ==> r.1 == cached
    ensures cached == 0 ==> r.0 % NSINDEX_ALIGN == 0
  {
    if cached != 0 then (cached, cached)
    else var s := IndexSize(configSize); (s, s)
  }

  /** A second query through the cache returns what the first one computed. */
  lemma SizeCacheStable(configSize: nat, other: nat)
    ensures var (s, c) := SizeofNamespaceIndex(0, configSize);
            SizeofNamespaceIndex(c, other).0 == s || s == 0
  {
  }

  /** Two index blocks and every label slot fit in the configuration area. */
  lemma LayoutFits(configSize: nat)
    requires configSize / 129 < U32
    ensures NumLabelSlots(configSize) * SIZEOF_LABEL + 2 * IndexSize(configSize) <= configSize
    ensures IndexSize(configSize) >= NSINDEX_ALIGN <==> configSize >= 129 * 512
  {
    var q := configSize / 129;
    assert 2 * IndexSize(configSize) == (q / 512) * 512;
    assert (q / 512) * 512 <= q;
  }

  // ---------------------------------------------------------------------
  // Validation
  // ---------------------------------------------------------------------

  /**
   * The bytes of index block `i` that validation reads: its `size` bytes, and
   * at least the fixed header (when the size is zero both blocks sit at offset 0).
   */
  function View(data: seq<Byte>, i: nat, size: nat): (v: seq<Byte>)
    ensures |v| >= SIZEOF_INDEX
  {
    Slice(data, i * size, if size < SIZEOF_INDEX then SIZEOF_INDEX else size)
  }

  /** The checksum the block should carry: fletcher64 of its `size` bytes with the checksum field zeroed. */
  function ExpectedChecksum(view: seq<Byte>, size: nat): nat
  {
    Fletcher.Checksum(Slice(WriteLe(view, OFF_CHECKSUM, 8, 0), 0, size), size, true, true)
  }

  /** Every check index block `i` must pass to be usable. */
  predicate IndexValid(data: seq<Byte>, i: nat, size: nat)
  {
    var v := View(data, i, size);
    var mysize := ReadLe(v, OFF_MYSIZE, 8);
    v[..NSINDEX_SIG_LEN] == SIGNATURE
    && ExpectedChecksum(v, size) == ReadLe(v, OFF_CHECKSUM, 8)
    && ReadLe(v, OFF_SEQ, 4) % 4 != 0
    && ReadLe(v, OFF_MYOFF, 8) == i * size
    && ReadLe(v, OFF_OTHEROFF, 8) == (1 - i) * size
    && SIZEOF_INDEX <= mysize <= size
    && ReadLe(v, OFF_NSLOT, 4) * SIZEOF_LABEL + 2 * size <= |data|
  }

  function SeqOf(data: seq<Byte>, i: nat, size: nat): nat
  {
    ReadLe(View(data, i, size), OFF_SEQ, 4)
  }

  /**
   * The active index block: -1 when neither is valid, the valid one when only
   * one is, and the one holding the newer sequence number when both are.
   */
  function LabelValidate(data: seq<Byte>): (r: int)
    ensures -1 <= r <= 1
    ensures r == -1 <==> !IndexValid(data, 0, IndexSize(|data|)) && !IndexValid(data, 1, IndexSize(|data|))
    ensures r >= 0 ==> IndexValid(data, r, IndexSize(|data|))
    ensures IndexValid(data, 0, IndexSize(|data|)) && IndexValid(data, 1, IndexSize(|data|)) ==>
              (r == 1 <==> BestSeq(SeqOf(data, 0, IndexSize(|data|)), SeqOf(data, 1, IndexSize(|data|)))
                           == SeqOf(data, 1, IndexSize(|data|)) % 4)
  {
    var size := IndexSize(|data|);
    var valid0 := IndexValid(data, 0, size);
    var valid1 := IndexValid(data, 1, size);
    if valid0 && valid1 then
      var s := BestSeq(SeqOf(data, 0, size), SeqOf(data, 1, size));
      if s == SeqOf(data, 1, size) % 4 then 1 else 0
    else if valid0 then 0
    else if valid1 then 1
    else -1
  }

  /**
   * Validation zeroes the checksum field to recompute it and then stores the
   * saved value back, which leaves the buffer exactly as it was.
   */
  lemma ChecksumProbeRestores(data: seq<Byte>, i: nat, size: nat)
    requires i * size + SIZEOF_INDEX <= |data|
    ensures var off := i * size + OFF_CHECKSUM;
            WriteLe(WriteLe(data, off, 8, 0), off, 8, ReadLe(data, off, 8)) == data
  {
    var off := i * size + OFF_CHECKSUM;
    WriteWrite(data, off, 8, 0, ReadLe(data, off, 8));
    WriteReadSame(data, off, 8);
  }

  /** The index block after `i`: -1 for a negative index, otherwise the other of the pair. */
  function LabelNextNsindex(i: int): (r: int)
    ensures i < 0 ==> r == -1
    ensures i >= 0 ==> r == 1 - i % 2
  {
    if i < 0 then -1 else (i + 1) % 2
  }

  lemma NextNsindexToggles(i: int)
    requires i == 0 || i == 1
    ensures LabelNextNsindex(LabelNextNsindex(i)) == i
    ensures LabelNextNsindex(i) != i
  {
  }

  // ---------------------------------------------------------------------
  // Writing an index block
  // ---------------------------------------------------------------------

  /** The little-endian encoding of the 16-bit value 1. */
  const ONE16: seq<Byte> := [1, 0]

  /** The fixed 72-byte header of an index block. */
  function Header(s: nat, myoff: nat, mysize: nat, otheroff: nat, labeloff: nat, nslot: nat): (h: seq<Byte>)
    ensures |h| == SIZEOF_INDEX
  {
    SIGNATURE + Zeros(4) + LeEncode(s, 4) + LeEncode(myoff, 8) + LeEncode(mysize, 8)
    + LeEncode(otheroff, 8) + LeEncode(labeloff, 8) + LeEncode(nslot, 4)
    + ONE16 + ONE16 + Zeros(8)
  }

  /** Bytes of free bitmap: one bit per slot, rounded up to whole unsigned longs. */
  function BitmapBytes(nslot: nat): nat
  {
    ((nslot + BITS_PER_LONG - 1) / BITS_PER_LONG) * BITS_PER_LONG / 8
  }

  /**
   * The block `index` before its checksum is filled in: the current bytes of
   * its slot overwritten by the header and an all-free bitmap, within the
   * block's `size` bytes.
   */
  function UnsummedBlock(data: seq<Byte>, index: nat, s: nat): (b: seq<Byte>)
    requires index < 2
    ensures |b| == IndexSize(|data|)
  {
    var size := IndexSize(|data|);
    var nslot := NumLabelSlots(|data|) % U32;
    var other := LabelNextNsindex(index) as nat;
    var h := Header(s % U32, index * size, size, other * size, 2 * size, nslot);
    var bitmap := seq<Byte>(BitmapBytes(nslot), _ => 0xff);
    Store(Store(Slice(data, index * size, size), 0, h), OFF_FREE, bitmap)
  }

  /**
   * The block `label_write_index` sends to the device for index `index` with
   * sequence number `s`: the unsummed block with its fletcher64 stored in the
   * checksum field.
   */
  function IndexBlock(data: seq<Byte>, index: nat, s: nat): (b: seq<Byte>)
    requires index < 2
    ensures |b| == IndexSize(|data|)
  {
    var u := UnsummedBlock(data, index, s);
    WriteLe(u, OFF_CHECKSUM, 8, Fletcher.Checksum(u, |u|, true, true))
  }

  /** The configuration area after `label_write_index(index, s)`. */
  function LabelWriteIndex(data: seq<Byte>, index: nat, s: nat): (r: seq<Byte>)
    requires index < 2
    ensures |r| == |data|
  {
    Store(data, index * IndexSize(|data|), IndexBlock(data, index, s))
  }

  /** The label-area initialisation: index 0 with sequence 0, then index 1 with sequence 2. */
  function InitLabels(data: seq<Byte>): (r: seq<Byte>)
    ensures |r| == |data|
  {
    LabelWriteIndex(LabelWriteIndex(data, 0, 0), 1, 2)
  }

  // ---------------------------------------------------------------------
  // Properties of written blocks
  // ---------------------------------------------------------------------

  lemma SliceOfConcat(a: seq<Byte>, b: seq<Byte>, off: nat, n: nat)
    requires off == |a| && n == |b|
    ensures Slice(a + b, off, n) == b
  {
  }

  /** A field whose bytes are the encoding of `v` reads back as `v` modulo its width. */
  lemma FieldAt(h: seq<Byte>, off: nat, n: nat, v: nat)
    requires off + n <= |h| && h[off..off + n] == LeEncode(v, n)
    ensures ReadLe(h, off, n) == v % Pow256(n)
  {
    LeRoundTrip(v, n);
  }

  /** A field encoded in the middle of a byte sequence reads back from its offset. */
  lemma FieldInConcat(h: seq<Byte>, pre: seq<Byte>, v: nat, n: nat, post: seq<Byte>)
    requires h == pre + LeEncode(v, n) + post
    ensures ReadLe(h, |pre|, n) == v % Pow256(n)
  {
    assert h[|pre|..|pre| + n] == LeEncode(v, n);
    FieldAt(h, |pre|, n, v);
  }

  lemma FieldBytes(h: seq<Byte>, pre: seq<Byte>, f: seq<Byte>, post: seq<Byte>)
    requires h == pre + f + post
    ensures ReadLe(h, |pre|, |f|) == LeDecode(f)
  {
    assert h[|pre|..|pre| + |f|] == f;
  }

  lemma HeaderFieldsLow(s: nat, myoff: nat, mysize: nat, otheroff: nat, labeloff: nat, nslot: nat)
    ensures var h := Header(s, myoff, mysize, otheroff, labeloff, nslot);
      && h[..NSINDEX_SIG_LEN] == SIGNATURE
      && ReadLe(h, OFF_SEQ, 4) == s % Pow256(4)
      && ReadLe(h, OFF_MYOFF, 8) == myoff % Pow256(8)
  {
    var h := Header(s, myoff, mysize, otheroff, labeloff, nslot);
    var tail := h[32..];
    var e0 := Zeros(4);
    assert h == SIGNATURE + e0 + LeEncode(s, 4) + LeEncode(myoff, 8) + tail;
    FieldInConcat(h, SIGNATURE + e0, s, 4, LeEncode(myoff, 8) + tail);
    FieldInConcat(h, SIGNATURE + e0 + LeEncode(s, 4), myoff, 8, tail);
  }

  lemma HeaderFieldsMid(s: nat, myoff: nat, mysize: nat, otheroff: nat, labeloff: nat, nslot: nat)
    ensures var h := Header(s, myoff, mysize, otheroff, labeloff, nslot);
      && ReadLe(h, OFF_MYSIZE, 8) == mysize % Pow256(8)
      && ReadLe(h, OFF_OTHEROFF, 8) == otheroff % Pow256(8)
      && ReadLe(h, OFF_LABELOFF, 8) == labeloff % Pow256(8)
  {
    var h := Header(s, myoff, mysize, otheroff, labeloff, nslot);
    var head := h[..32];
    var tail := h[56..];
    var ez := LeEncode(mysize, 8);
    var eo := LeEncode(otheroff, 8);
    var el := LeEncode(labeloff, 8);
    assert h == head + ez + eo + el + tail;
    FieldInConcat(h, head, mysize, 8, eo + el + tail);
    FieldInConcat(h, head + ez, otheroff, 8, el + tail);
    FieldInConcat(h, head + ez + eo, labeloff, 8, tail);
  }

  lemma HeaderFieldsHigh(s: nat, myoff: nat, mysize: nat, otheroff: nat, labeloff: nat, nslot: nat)
    ensures var h := Header(s, myoff, mysize, otheroff, labeloff, nslot);
      && ReadLe(h, OFF_NSLOT, 4) == nslot % Pow256(4)
      && ReadLe(h, OFF_MAJOR, 2) == 1
      && ReadLe(h, OFF_MINOR, 2) == 1
      && ReadLe(h, OFF_CHECKSUM, 8) == 0
  {
    var h := Header(s, myoff, mysize, otheroff, labeloff, nslot);
    var head := h[..56];
    var en := LeEncode(nslot, 4);
    var ec := Zeros(8);
    assert h == head + en + ONE16 + ONE16 + ec;
    FieldInConcat(h, head, nslot, 4, ONE16 + ONE16 + ec);
    FieldBytes(h, head + en, ONE16, ONE16 + ec);
    FieldBytes(h, head + en + ONE16, ONE16, ec);
    FieldBytes(h, head + en + ONE16 + ONE16, ec, []);
    ZerosDecode(8);
  }

  /** A prefix fixes every field that lies inside it. */
  lemma PrefixField(u: seq<Byte>, h: seq<Byte>, off: nat, n: nat)
    requires |h| <= |u| && u[..|h|] == h && off + n <= |h|
    ensures ReadLe(u, off, n) == ReadLe(h, off, n)
  {
    forall k | off <= k < off + n
      ensures u[k] == h[k]
    {
      assert u[k] == u[..|h|][k];
    }
    assert u[off..off + n] == h[off..off + n];
  }

  /** The header occupies the first 72 bytes of an unsummed block. */
  lemma UnsummedHeader(data: seq<Byte>, index: nat, s: nat)
    requires index < 2 && IndexSize(|data|) >= SIZEOF_INDEX
    ensures var size := IndexSize(|data|);
            UnsummedBlock(data, index, s)[..SIZEOF_INDEX]
            == Header(s % U32, index * size, size, (LabelNextNsindex(index) as nat) * size, 2 * size,
                      NumLabelSlots(|data|) % U32)
  {
  }

  /** Storing the checksum of a block whose checksum field is zero makes it self-consistent. */
  lemma ChecksumRoundTrip(u: seq<Byte>, size: nat)
    requires |u| == size && size >= SIZEOF_INDEX && ReadLe(u, OFF_CHECKSUM, 8) == 0
    ensures var b := WriteLe(u, OFF_CHECKSUM, 8, Fletcher.Checksum(u, size, true, true));
            ExpectedChecksum(b, size) == ReadLe(b, OFF_CHECKSUM, 8)
  {
    var c := Fletcher.Checksum(u, size, true, true);
    var b := WriteLe(u, OFF_CHECKSUM, 8, c);
    calc {
      ExpectedChecksum(b, size);
      Fletcher.Checksum(Slice(WriteLe(b, OFF_CHECKSUM, 8, 0), 0, size), size, true, true);
      { WriteWrite(u, OFF_CHECKSUM, 8, c, 0);
        WriteReadSame(u, OFF_CHECKSUM, 8); }
      Fletcher.Checksum(Slice(u, 0, size), size, true, true);
      { assert Slice(u, 0, size) == u; }
      c;
      { ReadWriteSame(u, OFF_CHECKSUM, 8, c);
        Pow256Widths();
        ModSmall(c, U64); }
      ReadLe(b, OFF_CHECKSUM, 8);
    }
  }

  /** Every header field other than the checksum survives storing the checksum. */
  lemma FieldsSurviveChecksum(u: seq<Byte>, h: seq<Byte>, c: nat)
    requires |h| == SIZEOF_INDEX && |u| >= SIZEOF_INDEX && u[..SIZEOF_INDEX] == h
    ensures var b := WriteLe(u, OFF_CHECKSUM, 8, c);
            && b[..NSINDEX_SIG_LEN] == h[..NSINDEX_SIG_LEN]
            && ReadLe(b, OFF_SEQ, 4) == ReadLe(h, OFF_SEQ, 4)
            && ReadLe(b, OFF_MYOFF, 8) == ReadLe(h, OFF_MYOFF, 8)
            && ReadLe(b, OFF_MYSIZE, 8) == ReadLe(h, OFF_MYSIZE, 8)
            && ReadLe(b, OFF_OTHEROFF, 8) == ReadLe(h, OFF_OTHEROFF, 8)
            && ReadLe(b, OFF_LABELOFF, 8) == ReadLe(h, OFF_LABELOFF, 8)
            && ReadLe(b, OFF_NSLOT, 4) == ReadLe(h, OFF_NSLOT, 4)
            && ReadLe(b, OFF_MAJOR, 2) == ReadLe(h, OFF_MAJOR, 2)
            && ReadLe(b, OFF_MINOR, 2) == ReadLe(h, OFF_MINOR, 2)
  {
    PrefixField(u, h, OFF_SEQ, 4);
    ReadWriteOther(u, OFF_CHECKSUM, 8, c, OFF_SEQ, 4);
    PrefixField(u, h, OFF_MYOFF, 8);
    ReadWriteOther(u, OFF_CHECKSUM, 8, c, OFF_MYOFF, 8);
    PrefixField(u, h, OFF_MYSIZE, 8);
    ReadWriteOther(u, OFF_CHECKSUM, 8, c, OFF_MYSIZE, 8);
    PrefixField(u, h, OFF_OTHEROFF, 8);
    ReadWriteOther(u, OFF_CHECKSUM, 8, c, OFF_OTHEROFF, 8);
    PrefixField(u, h, OFF_LABELOFF, 8);
    ReadWriteOther(u, OFF_CHECKSUM, 8, c, OFF_LABELOFF, 8);
    PrefixField(u, h, OFF_NSLOT, 4);
    ReadWriteOther(u, OFF_CHECKSUM, 8, c, OFF_NSLOT, 4);
    PrefixField(u, h, OFF_MAJOR, 2);
    ReadWriteOther(u, OFF_CHECKSUM, 8, c, OFF_MAJOR, 2);
    PrefixField(u, h, OFF_MINOR, 2);
    ReadWriteOther(u, OFF_CHECKSUM, 8, c, OFF_MINOR, 2);
  }

  /** The stored checksum is the fletcher64 of the block with that field zeroed. */
  lemma IndexBlockChecksum(data: seq<Byte>, index: nat, s: nat)
    requires index < 2 && IndexSize(|data|) >= SIZEOF_INDEX
    ensures var b := IndexBlock(data, index, s);
            ExpectedChecksum(b, IndexSize(|data|)) == ReadLe(b, OFF_CHECKSUM, 8)
  {
    var size := IndexSize(|data|);
    var u := UnsummedBlock(data, index, s);
    var other := LabelNextNsindex(index) as nat;
    var nslot := NumLabelSlots(|data|) % U32;
    var h := Header(s % U32, index * size, size, other * size, 2 * size, nslot);
    UnsummedHeader(data, index, s);
    HeaderFieldsHigh(s % U32, index * size, size, other * size, 2 * size, nslot);
    PrefixField(u, h, OFF_CHECKSUM, 8);
    ChecksumRoundTrip(u, size);
  }

  /** What `label_write_index` leaves in the block's header, read back from the block. */
  lemma IndexBlockFields(data: seq<Byte>, index: nat, s: nat)
    requires index < 2 && IndexSize(|data|) >= SIZEOF_INDEX && |data| < U64
    ensures var b := IndexBlock(data, index, s);
            var size := IndexSize(|data|);
            && b[..NSINDEX_SIG_LEN] == SIGNATURE
            && ReadLe(b, OFF_SEQ, 4) == s % U32
            && ReadLe(b, OFF_MYOFF, 8) == index * size
            && ReadLe(b, OFF_MYSIZE, 8) == size
            && ReadLe(b, OFF_OTHEROFF, 8) == (1 - index) * size
            && ReadLe(b, OFF_LABELOFF, 8) == 2 * size
            && ReadLe(b, OFF_NSLOT, 4) == NumLabelSlots(|data|) % U32
            && ReadLe(b, OFF_MAJOR, 2) == 1
            && ReadLe(b, OFF_MINOR, 2) == 1
  {
    var size := IndexSize(|data|);
    var u := UnsummedBlock(data, index, s);
    var c := Fletcher.Checksum(u, |u|, true, true);
    var other := LabelNextNsindex(index) as nat;
    var nslot := NumLabelSlots(|data|) % U32;
    var h := Header(s % U32, index * size, size, other * size, 2 * size, nslot);
    assert u[..SIZEOF_INDEX] == h by {
      UnsummedHeader(data, index, s);
    }
    FieldsSurviveChecksum(u, h, c);
    assert 2 * size <= |data| by {
      LayoutBound(|data|);
    }
    var myoff := index * size;
    var otheroff := other * size;
    OffsetsOfBlocks(index, other, size);
    HeaderValues(s % U32, myoff, size, otheroff, 2 * size, nslot);
  }

  /** The two blocks sit at offsets 0 and `size`, each naming the other. */
  lemma OffsetsOfBlocks(index: nat, other: nat, size: nat)
    requires index < 2 && other == LabelNextNsindex(index) as nat
    ensures index * size <= size && other * size <= size && other * size == (1 - index) * size
  {
    if index == 0 {
      assert other == 1;
    } else {
      assert other == 0;
    }
  }

  /** A header whose values fit their fields reads back each value. */
  lemma HeaderValues(s: nat, myoff: nat, mysize: nat, otheroff: nat, labeloff: nat, nslot: nat)
    requires s < U32 && nslot < U32
    requires myoff < U64 && mysize < U64 && otheroff < U64 && labeloff < U64
    ensures var h := Header(s, myoff, mysize, otheroff, labeloff, nslot);
      && h[..NSINDEX_SIG_LEN] == SIGNATURE
      && ReadLe(h, OFF_SEQ, 4) == s
      && ReadLe(h, OFF_MYOFF, 8) == myoff
      && ReadLe(h, OFF_MYSIZE, 8) == mysize
      && ReadLe(h, OFF_OTHEROFF, 8) == otheroff
      && ReadLe(h, OFF_LABELOFF, 8) == labeloff
      && ReadLe(h, OFF_NSLOT, 4) == nslot
      && ReadLe(h, OFF_MAJOR, 2) == 1
      && ReadLe(h, OFF_MINOR, 2) == 1
  {
    HeaderFieldsLow(s, myoff, mysize, otheroff, labeloff, nslot);
    HeaderFieldsMid(s, myoff, mysize, otheroff, labeloff, nslot);
    HeaderFieldsHigh(s, myoff, mysize, otheroff, labeloff, nslot);
    Pow256Widths();
    ModSmall(s, U32);
    ModSmall(nslot, U32);
    ModSmall(myoff, U64);
    ModSmall(mysize, U64);
    ModSmall(otheroff, U64);
    ModSmall(labeloff, U64);
  }

  /** Truncating to 32 bits keeps the two sequence bits. */
  lemma LowBitsSurviveWrap(s: nat)
    ensures (s % U32) % 4 == s % 4
  {
    var q := s / U32;
    var r := s % U32;
    assert s == 4 * (q * 0x4000_0000 + r / 4) + r % 4;
    DivModUnique(s, 4, q * 0x4000_0000 + r / 4, r % 4);
  }

  lemma LayoutBound(configSize: nat)
    ensures 2 * IndexSize(configSize) <= configSize
  {
    var q := (configSize / 129) % U32;
    assert q <= configSize / 129;
    assert 2 * IndexSize(configSize) == (q / 512) * 512;
  }

  /** The written block is what the configuration area holds at the block's place afterwards. */
  lemma WrittenBlockInPlace(data: seq<Byte>, index: nat, s: nat)
    requires index < 2 && IndexSize(|data|) >= SIZEOF_INDEX
    ensures View(LabelWriteIndex(data, index, s), index, IndexSize(|data|)) == IndexBlock(data, index, s)
  {
    LayoutBound(|data|);
  }

  /** Writing one block leaves the other block's bytes alone. */
  lemma OtherBlockUntouched(data: seq<Byte>, index: nat, s: nat)
    requires index < 2 && IndexSize(|data|) >= SIZEOF_INDEX
    ensures View(LabelWriteIndex(data, index, s), 1 - index, IndexSize(|data|))
            == View(data, 1 - index, IndexSize(|data|))
  {
    LayoutBound(|data|);
  }

  /** The validation checks, stated on a block whose header fields are known. */
  lemma ValidFromFields(d: seq<Byte>, index: nat, size: nat, b: seq<Byte>, s: nat)
    requires index < 2 && size >= SIZEOF_INDEX && View(d, index, size) == b
    requires b[..NSINDEX_SIG_LEN] == SIGNATURE
    requires ExpectedChecksum(b, size) == ReadLe(b, OFF_CHECKSUM, 8)
    requires ReadLe(b, OFF_SEQ, 4) == s && s % 4 != 0
    requires ReadLe(b, OFF_MYOFF, 8) == index * size
    requires ReadLe(b, OFF_OTHEROFF, 8) == (1 - index) * size
    requires ReadLe(b, OFF_MYSIZE, 8) == size
    requires ReadLe(b, OFF_NSLOT, 4) * SIZEOF_LABEL + 2 * size <= |d|
    ensures IndexValid(d, index, size)
  {
  }

  /**
   * A block written with a live sequence number passes every validation
   * check, provided the area is large enough to hold a nonzero index.
   */
  lemma WrittenIndexValid(data: seq<Byte>, index: nat, s: nat)
    requires index < 2 && s % 4 != 0
    requires 129 * 512 <= |data| && |data| / 129 < U32
    ensures IndexValid(LabelWriteIndex(data, index, s), index, IndexSize(|data|))
  {
    var size := IndexSize(|data|);
    var d := LabelWriteIndex(data, index, s);
    var b := IndexBlock(data, index, s);
    assert size >= NSINDEX_ALIGN && NumLabelSlots(|data|) * SIZEOF_LABEL + 2 * size <= |data| by {
      LayoutFits(|data|);
    }
    assert View(d, index, size) == b by {
      WrittenBlockInPlace(data, index, s);
    }
    IndexBlockChecksum(data, index, s);
    IndexBlockFields(data, index, s);
    LowBitsSurviveWrap(s);
    ModSmall(NumLabelSlots(|data|), U32);
    ValidFromFields(d, index, size, b, s % U32);
  }

  /** Initialisation leaves index 1 (sequence 2) active; index 0 (sequence 0) never validates. */
  lemma InitSelectsIndexOne(data: seq<Byte>)
    requires 129 * 512 <= |data| && |data| / 129 < U32
    ensures !IndexValid(InitLabels(data), 0, IndexSize(|data|))
    ensures LabelValidate(InitLabels(data)) == 1
  {
    var size := IndexSize(|data|);
    LayoutFits(|data|);
    var d1 := LabelWriteIndex(data, 0, 0);
    WrittenBlockInPlace(data, 0, 0);
    IndexBlockFields(data, 0, 0);
    OtherBlockUntouched(d1, 1, 2);
    WrittenIndexValid(d1, 1, 2);
  }
}
