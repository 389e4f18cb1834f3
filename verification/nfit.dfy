/**
 * The create-nfit builder: a list of system-physical-address ranges given
 * as "size,offset" arguments, turned into an NVDIMM Firmware Interface
 * Table (section 5.2.25 of the ACPI 6 specification) made of a 40-byte
 * header and one 56-byte SPA range structure per range, with the header
 * checksum of section 5.2.6 filled in last.
 */
module Nfit {
  import opened Machine
  import opened Wrappers
  import opened CStr
  import Size
  import Errno

  /** One `--add-spa` range: both values come from the size parser. */
  datatype Spa = Spa(size: Word64, offset: Word64)

  const HEADER_SIZE: nat := 40
  const SPA_SIZE: nat := 56

  // ---------------------------------------------------------------------
  // Argument parsing
  // ---------------------------------------------------------------------

  /** Position of the first comma, if any. */
  function FirstComma(s: string): (r: Option<nat>)
    ensures r.Some? ==> r.value < |s| && s[r.value] == ',' && ',' !in s[..r.value]
    ensures r.None? ==> ',' !in s
  {
    if ',' !in s then None
    else
      var i := CommaFrom(s, 0);
      Some(i)
  }

  function CommaFrom(s: string, i: nat): (j: nat)
    requires i <= |s| && ',' in s[i..]
    ensures i <= j < |s| && s[j] == ','
    ensures forall k :: i <= k < j ==> s[k] != ','
    decreases |s| - i
  {
    if s[i] == ',' then i
    else
      assert s[i..] == [s[i]] + s[i + 1..];
      CommaFrom(s, i + 1)
  }

  /**
   * `--add-spa=size,offset`: the text before the first comma is the size,
   * the text after it the offset; a missing comma or an unparsable part
   * gives -EINVAL and leaves the list alone, otherwise one range is
   * appended at the tail.
   */
  function ParseAddSpa(arg: string, spas: seq<Spa>): (r: Result<seq<Spa>>)
    ensures r.Err? ==> r.code == -Errno.EINVAL
    ensures r.Ok? ==> |r.value| == |spas| + 1 && r.value[..|spas|] == spas
    ensures ',' !in arg ==> r.Err?
  {
    match FirstComma(arg)
    case None => Err(-Errno.EINVAL)
    case Some(i) =>
      var size := Size.ParseSize64(arg[..i]);
      if size == ULLONG_MAX then Err(-Errno.EINVAL)
      else
        var offset := Size.ParseSize64(arg[i + 1..]);
        if offset == ULLONG_MAX then Err(-Errno.EINVAL)
        else Ok(spas + [Spa(size, offset)])
  }

  /** "size,offset" written as decimal numerals parses back to the range. */
  lemma ParseAddSpaRoundTrip(size: nat, offset: nat, spas: seq<Spa>)
    requires size < ULLONG_MAX && offset < ULLONG_MAX
    ensures ParseAddSpa(Decimal(size) + "," + Decimal(offset), spas) == Ok(spas + [Spa(size, offset)])
  {
    var a := Decimal(size);
    var arg := a + "," + Decimal(offset);
    DecimalShape(size);
    assert ',' !in a;
    assert arg[|a|] == ',';
    assert arg[..|a|] == a;
    assert ',' !in arg[..|a|];
    assert FirstComma(arg) == Some(|a|);
    assert arg[|a| + 1..] == Decimal(offset);
    Size.PlainNumeral(size);
    Size.PlainNumeral(offset);
  }

  // ---------------------------------------------------------------------
  // Checksum
  // ---------------------------------------------------------------------

  /** The plain sum of the bytes. */
  function ByteSum(s: seq<Byte>): nat
  {
    if |s| == 0 then 0 else ByteSum(s[..|s| - 1]) + s[|s| - 1]
  }

  lemma {:induction false} ByteSumAppend(a: seq<Byte>, b: seq<Byte>)
    ensures ByteSum(a + b) == ByteSum(a) + ByteSum(b)
    decreases |b|
  {
    if |b| == 0 {
      assert a + b == a;
    } else {
      assert (a + b)[..|a + b| - 1] == a + b[..|b| - 1];
      ByteSumAppend(a, b[..|b| - 1]);
    }
  }

  /**
   * The table checksum: an unsigned-char running sum, negated. The byte
   * returned brings the sum of all bytes to 0 modulo 256.
   */
  method NfitChecksum(buf: seq<Byte>) returns (c: Byte)
    ensures (ByteSum(buf) + c) % 256 == 0
  {
    var sum: Byte := 0;
    var i := 0;
    while i < |buf|
      invariant i <= |buf|
      invariant sum == ByteSum(buf[..i]) % 256
    {
      assert buf[..i + 1][..i] == buf[..i];
      sum := (sum + buf[i]) % 256;
      i := i + 1;
    }
    assert buf[..i] == buf;
    c := (256 - sum) % 256;
  }

  /** The checksum byte as a value. */
  function Checksum(buf: seq<Byte>): (c: Byte)
    ensures (ByteSum(buf) + c) % 256 == 0
  {
    (256 - ByteSum(buf) % 256) % 256
  }

  // ---------------------------------------------------------------------
  // Table layout
  // ---------------------------------------------------------------------

  const SIGNATURE: seq<Byte> := [0x4E, 0x46, 0x49, 0x54]     // "NFIT"
  const OEM_ID: seq<Byte> := [0x4C, 0x4F, 0x43, 0x41, 0x4C, 0]  // "LOCAL"
  const LE32_ONE: seq<Byte> := [1, 0, 0, 0]
  const CREATOR_ID: seq<Byte> := [0x00, 0x00, 0x86, 0x80]    // 0x80860000
  /** The persistent-memory range type GUID 66f0d379-b4f3-4074-ac43-0d3318b78cdb, in memory order. */
  const PM_UUID: seq<Byte> :=
    [0x79, 0xD3, 0xF0, 0x66, 0xF3, 0xB4, 0x74, 0x40, 0xAC, 0x43, 0x0D, 0x33, 0x18, 0xB7, 0x8C, 0xDB]

  /** Header bytes 0..8: signature, length, revision 1. */
  function HeaderHead(length: nat): (h: seq<Byte>)
    ensures |h| == 9
  {
    SIGNATURE + LeEncode(length, 4) + [1]
  }

  /** Header bytes 10..39: OEM id, OEM table id 1, OEM revision 1, creator id and revision, reserved. */
  function HeaderTail(): (h: seq<Byte>)
    ensures |h| == 30
  {
    OEM_ID + [1, 0] + Zeros(6) + LE32_ONE + CREATOR_ID + LE32_ONE + Zeros(4)
  }

  function Header(length: nat, checksum: Byte): (h: seq<Byte>)
    ensures |h| == HEADER_SIZE
  {
    HeaderHead(length) + [checksum] + HeaderTail()
  }

  /** The SPA range structure with range index `index` (stored as 16 bits). */
  function SpaEntry(index: nat, s: Spa): (e: seq<Byte>)
    ensures |e| == SPA_SIZE
  {
    [0, 0] + [56, 0] + LeEncode(index, 2) + Zeros(2) + Zeros(4) + Zeros(4)
    + PM_UUID + LeEncode(s.offset, 8) + LeEncode(s.size, 8) + Zeros(8)
  }

  /** The entries for `spas`, numbered from `first` in list order. */
  function Entries(spas: seq<Spa>, first: nat): (e: seq<Byte>)
    ensures |e| == SPA_SIZE * |spas|
  {
    if |spas| == 0 then [] else SpaEntry(first, spas[0]) + Entries(spas[1..], first + 1)
  }

  function TableSize(n: nat): nat
  {
    HEADER_SIZE + SPA_SIZE * n
  }

  function Table(spas: seq<Spa>, checksum: Byte): (t: seq<Byte>)
    ensures |t| == TableSize(|spas|)
  {
    Header(TableSize(|spas|), checksum) + Entries(spas, 1)
  }

  /**
   * The table create-nfit writes: built with a zero checksum byte, whose
   * checksum is then stored at byte 9.
   */
  function CreateNfit(spas: seq<Spa>): (t: seq<Byte>)
    ensures |t| == TableSize(|spas|)
  {
    Table(spas, Checksum(Table(spas, 0)))
  }

  // ---------------------------------------------------------------------
  // Properties of the table
  // ---------------------------------------------------------------------

  /** The finished table differs from the zero-checksum one only at byte 9, which holds the checksum. */
  lemma ChecksumOnlyAtByte9(spas: seq<Spa>)
    ensures var t := CreateNfit(spas);
      var z := Table(spas, 0);
      t[..9] == z[..9] && t[9] == Checksum(z) && t[10..] == z[10..]
  {
    var c := Checksum(Table(spas, 0));
    var hh := HeaderHead(TableSize(|spas|));
    var rest := HeaderTail() + Entries(spas, 1);
    assert Table(spas, c) == hh + [c] + rest;
    assert Table(spas, 0) == hh + [0] + rest;
  }

  /** Changing the checksum byte changes the byte sum by exactly that much. */
  lemma TableSum(spas: seq<Spa>, c: Byte)
    ensures ByteSum(Table(spas, c)) == ByteSum(Table(spas, 0)) + c
  {
    var hh := HeaderHead(TableSize(|spas|));
    var e := Entries(spas, 1);
    ByteSumAppend(hh + [c] + HeaderTail(), e);
    ByteSumAppend(hh + [c], HeaderTail());
    ByteSumAppend(hh, [c]);
    ByteSumAppend(hh + [0] + HeaderTail(), e);
    ByteSumAppend(hh + [0], HeaderTail());
    ByteSumAppend(hh, [0]);
    assert ByteSum([c]) == c by {
      assert [c][..0] == [];
    }
    assert ByteSum([0 as Byte]) == 0 by {
      assert [0 as Byte][..0] == [];
    }
  }

  /** Every byte of the finished table sums to 0 modulo 256. */
  lemma TableChecksums(spas: seq<Spa>)
    ensures ByteSum(CreateNfit(spas)) % 256 == 0
  {
    TableSum(spas, Checksum(Table(spas, 0)));
  }

  /** The length field holds the table size, truncated to 32 bits. */
  lemma LengthField(spas: seq<Spa>)
    ensures ReadLe(CreateNfit(spas), 4, 4) == TableSize(|spas|) % U32
  {
    var t := CreateNfit(spas);
    assert Slice(t, 4, 4) == LeEncode(TableSize(|spas|), 4);
    LeRoundTrip(TableSize(|spas|), 4);
    assert Pow256(4) == U32 by {
      assert Pow256(1) == 256;
      assert Pow256(2) == 256 * 256;
    }
  }

  /** Entry `k` of the entry list is the structure for `spas[k]`, numbered `first + k`. */
  lemma {:induction false} EntryAt(spas: seq<Spa>, first: nat, k: nat)
    requires k < |spas|
    ensures Entries(spas, first)[SPA_SIZE * k..SPA_SIZE * k + SPA_SIZE] == SpaEntry(first + k, spas[k])
    decreases k
  {
    var e := Entries(spas, first);
    if k > 0 {
      EntryAt(spas[1..], first + 1, k - 1);
      var rest := Entries(spas[1..], first + 1);
      assert e == SpaEntry(first, spas[0]) + rest;
      assert e[SPA_SIZE * k..SPA_SIZE * k + SPA_SIZE]
          == rest[SPA_SIZE * (k - 1)..SPA_SIZE * (k - 1) + SPA_SIZE];
    }
  }

  /** The SPA structure for `spas[k]` sits at 40 + 56k. */
  lemma SpaAt(spas: seq<Spa>, k: nat)
    requires k < |spas|
    ensures var off := HEADER_SIZE + SPA_SIZE * k;
      CreateNfit(spas)[off..off + SPA_SIZE] == SpaEntry(k + 1, spas[k])
  {
    var c := Checksum(Table(spas, 0));
    var h := Header(TableSize(|spas|), c);
    var e := Entries(spas, 1);
    var t := h + e;
    assert CreateNfit(spas) == t;
    EntryAt(spas, 1, k);
    var off := HEADER_SIZE + SPA_SIZE * k;
    assert t[off..off + SPA_SIZE] == e[SPA_SIZE * k..SPA_SIZE * k + SPA_SIZE];
  }

  /** A field inside an embedded structure reads the same through the enclosing buffer. */
  lemma ReadInside(t: seq<Byte>, off: nat, e: seq<Byte>, j: nat, n: nat)
    requires off + |e| <= |t| && t[off..off + |e|] == e && j + n <= |e|
    ensures ReadLe(t, off + j, n) == ReadLe(e, j, n)
  {
    var a := t[off + j..off + j + n];
    var b := e[j..j + n];
    forall i | 0 <= i < n
      ensures a[i] == b[i]
    {
      assert t[off..off + |e|][j + i] == t[off + j + i];
    }
    assert a == b;
  }

  /** The fields of one SPA range structure. */
  lemma SpaEntryFields(index: nat, s: Spa)
    ensures var e := SpaEntry(index, s);
      && ReadLe(e, 0, 2) == 0
      && ReadLe(e, 2, 2) == SPA_SIZE
      && ReadLe(e, 4, 2) == index % U16
      && ReadLe(e, 32, 8) == s.offset
      && ReadLe(e, 40, 8) == s.size
  {
    var e := SpaEntry(index, s);
    var mid := Zeros(2) + Zeros(4) + Zeros(4) + PM_UUID;
    assert e == [0, 0, 56, 0] + LeEncode(index, 2) + mid + LeEncode(s.offset, 8) + LeEncode(s.size, 8) + Zeros(8);
    assert e[0..2] == [0, 0];
    assert e[2..4] == [56, 0];
    assert LeDecode([0, 0]) == 0;
    assert LeDecode([56, 0]) == 56;
    assert e[4..6] == LeEncode(index, 2);
    assert e[32..40] == LeEncode(s.offset, 8);
    assert e[40..48] == LeEncode(s.size, 8);
    assert Pow256(2) == U16 by {
      assert Pow256(1) == 256;
    }
    LeRoundTrip(index, 2);
    LeRoundTrip(s.offset, 8);
    LeRoundTrip(s.size, 8);
    Pow256Widths();
    ModSmall(s.offset, U64);
    ModSmall(s.size, U64);
  }

  /**
   * Range structure `k` has type 0 and length 56, its range index is k + 1
   * (16 bits), and its base and length are the range's offset and size.
   */
  lemma SpaFields(spas: seq<Spa>, k: nat)
    requires k < |spas|
    ensures var off := HEADER_SIZE + SPA_SIZE * k;
      var t := CreateNfit(spas);
      && ReadLe(t, off, 2) == 0
      && ReadLe(t, off + 2, 2) == SPA_SIZE
      && ReadLe(t, off + 4, 2) == (k + 1) % U16
      && ReadLe(t, off + 32, 8) == spas[k].offset
      && ReadLe(t, off + 40, 8) == spas[k].size
  {
    SpaHeadAt(spas, k);
    SpaRangeAt(spas, k);
  }

  lemma SpaHeadAt(spas: seq<Spa>, k: nat)
    requires k < |spas|
    ensures var off := HEADER_SIZE + SPA_SIZE * k;
      var t := CreateNfit(spas);
      && ReadLe(t, off, 2) == 0
      && ReadLe(t, off + 2, 2) == SPA_SIZE
      && ReadLe(t, off + 4, 2) == (k + 1) % U16
  {
    var off := HEADER_SIZE + SPA_SIZE * k;
    var t := CreateNfit(spas);
    var e := SpaEntry(k + 1, spas[k]);
    SpaAt(spas, k);
    SpaEntryFields(k + 1, spas[k]);
    ReadInside(t, off, e, 0, 2);
    ReadInside(t, off, e, 2, 2);
    ReadInside(t, off, e, 4, 2);
  }

  lemma SpaRangeAt(spas: seq<Spa>, k: nat)
    requires k < |spas|
    ensures var off := HEADER_SIZE + SPA_SIZE * k;
      var t := CreateNfit(spas);
      && ReadLe(t, off + 32, 8) == spas[k].offset
      && ReadLe(t, off + 40, 8) == spas[k].size
  {
    var off := HEADER_SIZE + SPA_SIZE * k;
    var t := CreateNfit(spas);
    var e := SpaEntry(k + 1, spas[k]);
    SpaAt(spas, k);
    SpaEntryFields(k + 1, spas[k]);
    ReadInside(t, off, e, 32, 8);
    ReadInside(t, off, e, 40, 8);
  }

}
