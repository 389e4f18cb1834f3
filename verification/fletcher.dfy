/**
 * The Fletcher-64 checksum used by the namespace label index: a wrapping
 * 32-bit sum of the buffer's 32-bit words (lo32) and a 64-bit sum of the
 * running lo32 values (hi32), combined as hi32 << 32 | lo32.
 */
module Fletcher {
  import opened Machine

  /**
   * Word `i` of `buf`. With `le` set the word is converted from little-endian;
   * otherwise the raw host word is used, whose byte order `hostLittle` gives.
   */
  function Word(buf: seq<Byte>, i: nat, le: bool, hostLittle: bool): (w: nat)
    ensures w < U32
  {
    var bytes := Slice(buf, 4 * i, 4);
    LeDecodeBound(bytes);
    BeIsReversedLe(bytes);
    LeDecodeBound(Reverse(bytes));
    if le || hostLittle then LeDecode(bytes) else BeDecode(bytes)
  }

  /** Number of whole words in `len` bytes: trailing bytes are never read. */
  function WordCount(len: nat): nat
  {
    len / 4
  }

  /** Unbounded sum of the first `n` words. */
  function WordSum(buf: seq<Byte>, n: nat, le: bool, hostLittle: bool): nat
  {
    if n == 0 then 0 else WordSum(buf, n - 1, le, hostLittle) + Word(buf, n - 1, le, hostLittle)
  }

  /** Unbounded sum of the running 32-bit sums after each of the first `n` words. */
  function RunningSum(buf: seq<Byte>, n: nat, le: bool, hostLittle: bool): nat
  {
    if n == 0 then 0
    else RunningSum(buf, n - 1, le, hostLittle) + WordSum(buf, n, le, hostLittle) % U32
  }

  /**
   * The checksum in closed form: the low half is the word sum modulo 2^32 and
   * the high half is the sum of running sums, of which the 64-bit shift by 32
   * keeps only the low 32 bits.
   */
  function Checksum(buf: seq<Byte>, len: nat, le: bool, hostLittle: bool): (r: nat)
    ensures r < U64
  {
    var n := WordCount(len);
    (RunningSum(buf, n, le, hostLittle) % U32) * U32 + WordSum(buf, n, le, hostLittle) % U32
  }

  /** `x << k | y` equals `x * 2^k + y` when y fits in k bits. */
  lemma {:induction false} OrShifted(x: nat, y: nat, k: nat)
    requires y < Pow2(k)
    ensures Or(x * Pow2(k), y) == x * Pow2(k) + y
    decreases k
  {
    if k > 0 && x != 0 && y != 0 {
      var p := Pow2(k - 1);
      assert x * Pow2(k) == 2 * (x * p);
      OrShifted(x, y / 2, k - 1);
    }
  }

  /** The u64 shift `hi << 32` keeps the low 32 bits of hi. */
  lemma ShiftWrap(hi: nat)
    ensures (hi * U32) % U64 == (hi % U32) * U32
  {
    var q := hi / U32;
    var r := hi % U32;
    assert hi * U32 == U64 * q + r * U32;
    DivModUnique(hi * U32, U64, q, r * U32);
  }

  lemma AddMod(a: nat, w: nat, m: nat)
    requires m > 0
    ensures (a % m + w) % m == (a + w) % m
  {
    var q := a / m;
    assert a + w == m * q + (a % m + w);
    var s := a % m + w;
    DivModUnique(a + w, m, q + s / m, s % m);
  }

  /** One loop step keeps both accumulators equal to the wrapped reference sums. */
  lemma Step(buf: seq<Byte>, i: nat, le: bool, hostLittle: bool, lo32: nat, hi32: nat)
    requires lo32 == WordSum(buf, i, le, hostLittle) % U32
    requires hi32 == RunningSum(buf, i, le, hostLittle) % U64
    ensures (lo32 + Word(buf, i, le, hostLittle)) % U32 == WordSum(buf, i + 1, le, hostLittle) % U32
    ensures (hi32 + WordSum(buf, i + 1, le, hostLittle) % U32) % U64
            == RunningSum(buf, i + 1, le, hostLittle) % U64
  {
    AddMod(WordSum(buf, i, le, hostLittle), Word(buf, i, le, hostLittle), U32);
    AddMod(RunningSum(buf, i, le, hostLittle), WordSum(buf, i + 1, le, hostLittle) % U32, U64);
  }

  /** `hi32 << 32 | lo32` on u64 values is the closed-form combination. */
  lemma Combine(hi: nat, hi32: nat, lo32: nat)
    requires hi32 == hi % U64 && lo32 < U32
    ensures Or((hi32 * U32) % U64, lo32) == (hi % U32) * U32 + lo32
  {
    ShiftWrap(hi32);
    ModMod(hi);
    Pow2Of32();
    OrShifted(hi32 % U32, lo32, 32);
  }

  /**
   * The source's loop: lo32 wraps at 2^32 and hi32 at 2^64; only floor(len/4)
   * words are read and the result is hi32 << 32 | lo32.
   */
  method Fletcher64(buf: seq<Byte>, len: nat, le: bool, hostLittle: bool) returns (r: nat)
    requires len <= |buf|
    ensures r == Checksum(buf, len, le, hostLittle)
  {
    var lo32: nat := 0;
    var hi32: nat := 0;
    var i: nat := 0;
    while i < len / 4
      invariant i <= len / 4
      invariant lo32 == WordSum(buf, i, le, hostLittle) % U32
      invariant hi32 == RunningSum(buf, i, le, hostLittle) % U64
    {
      Step(buf, i, le, hostLittle, lo32, hi32);
      lo32 := (lo32 + Word(buf, i, le, hostLittle)) % U32;
      hi32 := (hi32 + lo32) % U64;
      i := i + 1;
    }
    Combine(RunningSum(buf, i, le, hostLittle), hi32, lo32);
    r := Or((hi32 * U32) % U64, lo32);
  }

  lemma ModMod(x: nat)
    ensures (x % U64) % U32 == x % U32
  {
    var q := x / U64;
    assert x == U32 * (q * U32) + x % U64;
    DivModUnique(x, U32, q * U32 + (x % U64) / U32, (x % U64) % U32);
  }

  /** Fewer than four bytes hold no whole word, so the checksum is zero. */
  lemma ShortInputIsZero(buf: seq<Byte>, len: nat, le: bool, hostLittle: bool)
    requires len < 4
    ensures Checksum(buf, len, le, hostLittle) == 0
  {
  }

  /** Bytes beyond the last whole word never influence the checksum. */
  lemma {:induction false} TrailingBytesIgnored(buf: seq<Byte>, len: nat, tail: seq<Byte>, le: bool, hostLittle: bool)
    requires len <= |buf|
    ensures Checksum(buf[..len / 4 * 4] + tail, len, le, hostLittle) == Checksum(buf, len, le, hostLittle)
  {
    var b2 := buf[..len / 4 * 4] + tail;
    forall i | 0 <= i < len / 4
      ensures Word(b2, i, le, hostLittle) == Word(buf, i, le, hostLittle)
    {
      assert Slice(b2, 4 * i, 4) == Slice(buf, 4 * i, 4);
    }
    SumsAgree(b2, le, hostLittle, buf, le, hostLittle, len / 4);
  }

  /** Buffers whose first `n` words agree have the same sums over them. */
  lemma {:induction false} SumsAgree(a: seq<Byte>, le1: bool, h1: bool, b: seq<Byte>, le2: bool, h2: bool, n: nat)
    requires forall i :: 0 <= i < n ==> Word(a, i, le1, h1) == Word(b, i, le2, h2)
    ensures WordSum(a, n, le1, h1) == WordSum(b, n, le2, h2)
    ensures RunningSum(a, n, le1, h1) == RunningSum(b, n, le2, h2)
  {
    if n > 0 {
      SumsAgree(a, le1, h1, b, le2, h2, n - 1);
    }
  }

  /** On a little-endian host the raw and the converted reads agree. */
  lemma LittleEndianHost(buf: seq<Byte>, len: nat)
    ensures Checksum(buf, len, false, true) == Checksum(buf, len, true, false)
  {
    SumsAgree(buf, false, true, buf, true, false, len / 4);
  }
}
