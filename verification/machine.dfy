/**
 * Machine-level arithmetic used throughout the model: bytes, the wrap-around
 * of C's fixed-width unsigned integers, little-endian field codecs and the
 * bitwise operators on naturals.
 */
module Machine {

  type Byte = x: int | 0 <= x < 256

  const U8: nat := 0x100
  const U16: nat := 0x1_0000
  const U32: nat := 0x1_0000_0000
  const U64: nat := 0x1_0000_0000_0000_0000

  /** ULLONG_MAX / UINT_MAX: the all-ones values C returns as error markers. */
  const ULLONG_MAX: nat := U64 - 1
  const UINT_MAX: nat := U32 - 1

  /** Values of C's fixed-width unsigned types. */
  type Word16 = x: int | 0 <= x < 0x1_0000
  type Word32 = x: int | 0 <= x < 0x1_0000_0000
  type Word64 = x: int | 0 <= x < 0x1_0000_0000_0000_0000

  predicate IsU32(x: int) { 0 <= x < U32 }
  predicate IsU64(x: int) { 0 <= x < U64 }

  /** C unsigned 32-bit and 64-bit arithmetic: the mathematical value modulo 2^w. */
  function Wrap32(x: int): (r: nat)
    ensures IsU32(r)
    ensures IsU32(x) ==> r == x
  {
    x % U32
  }

  function Wrap64(x: int): (r: nat)
    ensures IsU64(r)
    ensures IsU64(x) ==> r == x
  {
    x % U64
  }

  function Pow2(n: nat): (r: nat)
    ensures r >= 1
  {
    if n == 0 then 1 else 2 * Pow2(n - 1)
  }

  function Pow256(n: nat): (r: nat)
    ensures r >= 1
  {
    if n == 0 then 1 else 256 * Pow256(n - 1)
  }

  /** The widths of the C integer types in bytes, as powers of 256. */
  lemma Pow256Widths()
    ensures Pow256(4) == U32 && Pow256(8) == U64
  {
    assert Pow256(2) == 0x1_0000 by {
      assert Pow256(1) == 256;
    }
    assert Pow256(4) == 0x1_0000_0000 by {
      assert Pow256(3) == 0x100_0000;
    }
    assert Pow256(6) == 0x1_0000_0000_0000 by {
      assert Pow256(5) == 0x100_0000_0000;
    }
    assert Pow256(7) == 0x100_0000_0000_0000;
  }

  // ---------------------------------------------------------------------
  // Little-endian and big-endian codecs
  // ---------------------------------------------------------------------

  /** The unsigned value of `s` read least-significant byte first. */
  function LeDecode(s: seq<Byte>): nat
  {
    if |s| == 0 then 0 else s[0] + 256 * LeDecode(s[1..])
  }

  /** The low `n` bytes of `v`, least-significant byte first. */
  function LeEncode(v: nat, n: nat): (r: seq<Byte>)
    ensures |r| == n
  {
    if n == 0 then [] else [v % 256] + LeEncode(v / 256, n - 1)
  }

  /** The unsigned value of `s` read most-significant byte first. */
  function BeDecode(s: seq<Byte>): nat
  {
    if |s| == 0 then 0 else BeDecode(s[..|s| - 1]) * 256 + s[|s| - 1]
  }

  function Reverse<T>(s: seq<T>): (r: seq<T>)
    ensures |r| == |s|
    ensures forall k :: 0 <= k < |s| ==> r[k] == s[|s| - 1 - k]
  {
    if |s| == 0 then [] else Reverse(s[1..]) + [s[0]]
  }

  lemma {:induction false} LeDecodeBound(s: seq<Byte>)
    ensures LeDecode(s) < Pow256(|s|)
  {
    if |s| > 0 {
      LeDecodeBound(s[1..]);
    }
  }

  lemma {:induction false} ModStep(v: nat, p: nat)
    requires p >= 1
    ensures v % (256 * p) == v % 256 + 256 * ((v / 256) % p)
  {
    var q := v / 256;
    var r := v % 256;
    assert v == 256 * q + r;
    var q2 := q / p;
    var r2 := q % p;
    assert q == p * q2 + r2;
    assert v == (256 * p) * q2 + (256 * r2 + r);
    assert 0 <= 256 * r2 + r < 256 * p;
    DivModUnique(v, 256 * p, q2, 256 * r2 + r);
  }

  /** Multiplication by a natural preserves order. */
  lemma {:induction false} MulMono(a: int, b: int, c: nat)
    requires a <= b
    ensures a * c <= b * c
    decreases c
  {
    if c > 0 {
      MulMono(a, b, c - 1);
      assert a * c == a * (c - 1) + a;
      assert b * c == b * (c - 1) + b;
    }
  }

  lemma MulAtLeast(d: int, k: int)
    requires d >= 0
    ensures k >= 1 ==> d * k >= d
    ensures k <= -1 ==> d * k <= -d
  {
    if k >= 1 {
      MulMono(1, k, d);
    } else if k <= -1 {
      MulMono(k, -1, d);
    }
  }

  /** Euclidean division is unique: the quotient and remainder are determined. */
  lemma DivModUnique(x: int, d: int, q: int, r: int)
    requires d > 0 && 0 <= r < d && x == d * q + r
    ensures x / d == q && x % d == r
  {
    var q0 := x / d;
    var r0 := x % d;
    assert x == d * q0 + r0;
    assert d * (q - q0) == r0 - r;
    MulAtLeast(d, q - q0);
  }

  /** A product is a multiple of each factor. */
  lemma MulIsMultiple(a: nat, b: nat)
    requires b > 0
    ensures (a * b) % b == 0 && (a * b) / b == a
  {
    DivModUnique(a * b, b, a, 0);
  }

  /** Dividing a multiple and multiplying back gives the number. */
  lemma DivExact(n: nat, d: nat)
    requires d > 0 && n % d == 0
    ensures (n / d) * d == n
  {
    assert n == d * (n / d) + n % d;
  }

  /** Divisibility is transitive. */
  lemma DividesTrans(n: nat, m: nat, d: nat)
    requires d > 0 && m > 0 && m % d == 0 && n % m == 0
    ensures n % d == 0
  {
    var a := m / d;
    var b := n / m;
    assert m == d * a;
    assert n == m * b;
    assert n == d * (a * b);
    DivModUnique(n, d, a * b, 0);
  }

  /** Decoding an encoding gives back the value modulo the width. */
  lemma {:induction false} LeRoundTrip(v: nat, n: nat)
    ensures LeDecode(LeEncode(v, n)) == v % Pow256(n)
  {
    if n > 0 {
      var e := LeEncode(v, n);
      assert e[1..] == LeEncode(v / 256, n - 1);
      LeRoundTrip(v / 256, n - 1);
      ModStep(v, Pow256(n - 1));
    }
  }

  /** Encoding a decoded field gives back the same bytes. */
  lemma {:induction false} LeEncodeDecode(s: seq<Byte>)
    ensures LeEncode(LeDecode(s), |s|) == s
  {
    if |s| > 0 {
      var v := LeDecode(s);
      assert v % 256 == s[0];
      assert v / 256 == LeDecode(s[1..]);
      LeEncodeDecode(s[1..]);
    }
  }

  /** Big-endian decoding is little-endian decoding of the reversed bytes. */
  lemma {:induction false} BeIsReversedLe(s: seq<Byte>)
    ensures BeDecode(s) == LeDecode(Reverse(s))
  {
    if |s| > 0 {
      var init := s[..|s| - 1];
      BeIsReversedLe(init);
      assert Reverse(s) == [s[|s| - 1]] + Reverse(init);
      assert Reverse(s)[1..] == Reverse(init);
    }
  }

  // ---------------------------------------------------------------------
  // Byte buffers
  // ---------------------------------------------------------------------

  /** Byte `k` of `data`; bytes past the end read as zero. */
  function ByteAt(data: seq<Byte>, k: nat): Byte
  {
    if k < |data| then data[k] else 0
  }

  /** `n` zero bytes. */
  function Zeros(n: nat): (z: seq<Byte>)
    ensures |z| == n
  {
    seq(n, _ => 0)
  }

  lemma {:induction false} ZerosDecode(n: nat)
    ensures LeDecode(Zeros(n)) == 0
  {
    if n > 0 {
      assert Zeros(n)[1..] == Zeros(n - 1);
      ZerosDecode(n - 1);
    }
  }

  /** The `n` bytes of `data` starting at `off`. */
  function Slice(data: seq<Byte>, off: nat, n: nat): (r: seq<Byte>)
    ensures |r| == n
    ensures off + n <= |data| ==> r == data[off..off + n]
  {
    if off + n <= |data| then data[off..off + n]
    else seq<Byte>(n, k requires 0 <= k < n => ByteAt(data, off + k))
  }

  /** The little-endian field of width `n` at `off`. */
  function ReadLe(data: seq<Byte>, off: nat, n: nat): nat
  {
    LeDecode(Slice(data, off, n))
  }

  /** `data` with `bytes` stored from `off`; bytes that would land past the end are dropped. */
  function Store(data: seq<Byte>, off: nat, bytes: seq<Byte>): (r: seq<Byte>)
    ensures |r| == |data|
    ensures forall k {:trigger r[k]} :: 0 <= k < |data| && !(off <= k < off + |bytes|) ==> r[k] == data[k]
    ensures forall k {:trigger r[k]} :: off <= k < off + |bytes| && k < |data| ==> r[k] == bytes[k - off]
  {
    seq<Byte>(|data|, k requires 0 <= k < |data| =>
      if off <= k < off + |bytes| then bytes[k - off] else data[k])
  }

  function WriteLe(data: seq<Byte>, off: nat, n: nat, v: nat): (r: seq<Byte>)
    ensures |r| == |data|
  {
    Store(data, off, LeEncode(v, n))
  }

  /** A field written and read back at the same place yields the value modulo its width. */
  lemma ReadWriteSame(data: seq<Byte>, off: nat, n: nat, v: nat)
    requires off + n <= |data|
    ensures ReadLe(WriteLe(data, off, n, v), off, n) == v % Pow256(n)
  {
    assert Slice(WriteLe(data, off, n, v), off, n) == LeEncode(v, n);
    LeRoundTrip(v, n);
  }

  /** Writing a field leaves a field elsewhere unchanged. */
  lemma ReadWriteOther(data: seq<Byte>, off: nat, n: nat, v: nat, off2: nat, n2: nat)
    requires off + n <= off2 || off2 + n2 <= off
    ensures ReadLe(WriteLe(data, off, n, v), off2, n2) == ReadLe(data, off2, n2)
  {
    var w := WriteLe(data, off, n, v);
    forall k | 0 <= k < n2
      ensures Slice(w, off2, n2)[k] == Slice(data, off2, n2)[k]
    {
      assert ByteAt(w, off2 + k) == ByteAt(data, off2 + k);
    }
    assert Slice(w, off2, n2) == Slice(data, off2, n2);
  }

  /** Writing back the value a field already holds changes nothing. */
  lemma WriteReadSame(data: seq<Byte>, off: nat, n: nat)
    requires off + n <= |data|
    ensures WriteLe(data, off, n, ReadLe(data, off, n)) == data
  {
    LeEncodeDecode(data[off..off + n]);
    assert LeEncode(ReadLe(data, off, n), n) == data[off..off + n];
  }

  /** A second write to the same field hides the first. */
  lemma WriteWrite(data: seq<Byte>, off: nat, n: nat, a: nat, b: nat)
    ensures WriteLe(WriteLe(data, off, n, a), off, n, b) == WriteLe(data, off, n, b)
  {
  }

  // ---------------------------------------------------------------------
  // Bitwise operators on naturals
  // ---------------------------------------------------------------------

  /** C's `&` on non-negative values. */
  function And(x: nat, y: nat): nat
  {
    if x == 0 || y == 0 then 0 else 2 * And(x / 2, y / 2) + (x % 2) * (y % 2)
  }

  /** C's `|` on non-negative values. */
  function Or(x: nat, y: nat): nat
  {
    if x == 0 then y
    else if y == 0 then x
    else 2 * Or(x / 2, y / 2) + (if x % 2 == 1 || y % 2 == 1 then 1 else 0)
  }

  /** Bit `i` of `x` is set. */
  predicate Bit(x: nat, i: nat)
  {
    if i == 0 then x % 2 == 1 else Bit(x / 2, i - 1)
  }

  lemma {:induction false} BitAnd(x: nat, y: nat, i: nat)
    ensures Bit(And(x, y), i) <==> Bit(x, i) && Bit(y, i)
    decreases i
  {
    if x == 0 || y == 0 {
      ZeroBit(i);
    } else if i == 0 {
    } else {
      BitAnd(x / 2, y / 2, i - 1);
    }
  }

  lemma {:induction false} BitOr(x: nat, y: nat, i: nat)
    ensures Bit(Or(x, y), i) <==> Bit(x, i) || Bit(y, i)
    decreases i
  {
    if x == 0 {
      ZeroBit(i);
    } else if y == 0 {
      ZeroBit(i);
    } else if i == 0 {
    } else {
      BitOr(x / 2, y / 2, i - 1);
    }
  }

  lemma {:induction false} ZeroBit(i: nat)
    ensures !Bit(0, i)
  {
    if i > 0 {
      ZeroBit(i - 1);
    }
  }

  /** The only bit of 2^c is bit c. */
  lemma {:induction false} BitPow2(c: nat, i: nat)
    ensures Bit(Pow2(c), i) <==> i == c
    decreases c
  {
    if c == 0 {
      if i > 0 {
        ZeroBit(i - 1);
      }
    } else if i == 0 {
    } else {
      assert Pow2(c) / 2 == Pow2(c - 1);
      BitPow2(c - 1, i - 1);
    }
  }

  lemma ModDouble(x: nat, p: nat)
    requires p >= 1
    ensures x % (2 * p) == 2 * ((x / 2) % p) + x % 2
  {
    var q := x / 2;
    var r := x % 2;
    var q2 := q / p;
    var r2 := q % p;
    assert x == (2 * p) * q2 + (2 * r2 + r);
    DivModUnique(x, 2 * p, q2, 2 * r2 + r);
  }

  /** Masking with 2^k - 1 keeps the low k bits. */
  lemma {:induction false} AndLowMask(x: nat, k: nat)
    ensures And(x, Pow2(k) - 1) == x % Pow2(k)
    decreases k
  {
    if k == 0 {
      assert Pow2(k) - 1 == 0;
    } else if x == 0 {
      assert x % Pow2(k) == 0;
    } else {
      AndLowMask(x / 2, k - 1);
      AndLowMaskStep(x, k);
    }
  }

  /** One step of the induction for AndLowMask: from the low k-1 bits of x / 2 to the low k bits of x. */
  lemma AndLowMaskStep(x: nat, k: nat)
    requires k > 0 && x != 0
    requires And(x / 2, Pow2(k - 1) - 1) == (x / 2) % Pow2(k - 1)
    ensures And(x, Pow2(k) - 1) == x % Pow2(k)
  {
    var p := Pow2(k - 1);
    MaskHalf(k);
    calc {
      And(x, Pow2(k) - 1);
      { AndOdd(x, Pow2(k) - 1); }
      2 * And(x / 2, p - 1) + x % 2;
      2 * ((x / 2) % p) + x % 2;
      { ModDouble(x, p); }
      x % Pow2(k);
    }
  }

  /** The mask 2^k - 1 is odd, and halving it gives the mask one bit shorter. */
  lemma MaskHalf(k: nat)
    requires k > 0
    ensures (Pow2(k) - 1) % 2 == 1 && (Pow2(k) - 1) / 2 == Pow2(k - 1) - 1 && Pow2(k) == 2 * Pow2(k - 1)
  {
  }

  /** Masking with an odd value keeps the lowest bit and masks the rest with the halved value. */
  lemma AndOdd(x: nat, m: nat)
    requires x != 0 && m % 2 == 1
    ensures And(x, m) == 2 * And(x / 2, m / 2) + x % 2
  {
  }

  /** The union of two values is a multiple of 2^k iff both are. */
  lemma {:induction false} OrMultiple(x: nat, y: nat, k: nat)
    ensures Or(x, y) % Pow2(k) == 0 <==> x % Pow2(k) == 0 && y % Pow2(k) == 0
    decreases k
  {
    if k == 0 {
      assert Pow2(0) == 1;
    } else if x == 0 {
      assert Or(x, y) == y;
    } else if y == 0 {
      assert Or(x, y) == x;
    } else {
      var p := Pow2(k - 1);
      var o := Or(x, y);
      var h := Or(x / 2, y / 2);
      assert Pow2(k) == 2 * p;
      assert o == 2 * h + (if x % 2 == 1 || y % 2 == 1 then 1 else 0);
      assert o / 2 == h && (o % 2 == 0 <==> x % 2 == 0 && y % 2 == 0);
      OrMultiple(x / 2, y / 2, k - 1);
      ModDouble(x, p);
      ModDouble(y, p);
      ModDouble(o, p);
      assert o % (2 * p) == 2 * (h % p) + o % 2;
      assert x % (2 * p) == 2 * ((x / 2) % p) + x % 2;
      assert y % (2 * p) == 2 * ((y / 2) % p) + y % 2;
    }
  }

  lemma {:induction false} AndSelf(x: nat)
    ensures And(x, x) == x
  {
    if x != 0 {
      AndSelf(x / 2);
    }
  }

  lemma DivDiv(x: nat, a: nat, b: nat)
    requires a > 0 && b > 0
    ensures x / a / b == x / (a * b)
  {
    var q := x / a;
    var r := x % a;
    var q2 := q / b;
    var r2 := q % b;
    assert x == (a * b) * q2 + (a * r2 + r);
    assert a * r2 + r < a * b by {
      MulMono(r2, b - 1, a);
    }
    DivModUnique(x, a * b, q2, a * r2 + r);
  }

  lemma ModSmall(x: nat, m: nat)
    requires x < m
    ensures x % m == x
  {
  }

  lemma {:induction false} Pow2Mono(k: nat, n: nat)
    requires k <= n
    ensures Pow2(k) <= Pow2(n)
    decreases n
  {
    if k < n {
      Pow2Mono(k, n - 1);
    }
  }

  /** The mask with bits k..n-1 set: `2^n - 2^k`. */
  function HighMask(n: nat, k: nat): (m: nat)
    requires k <= n
    ensures m + Pow2(k) == Pow2(n)
  {
    Pow2Mono(k, n);
    Pow2(n) - Pow2(k)
  }

  /** Masking an n-bit value with bits k..n-1 clears its low k bits. */
  lemma {:induction false} AndHighMask(x: nat, n: nat, k: nat)
    requires k <= n && x < Pow2(n)
    ensures And(x, HighMask(n, k)) == x - x % Pow2(k)
    decreases k
  {
    if k == 0 {
      AndLowMask(x, n);
      assert HighMask(n, 0) == Pow2(n) - 1;
      ModSmall(x, Pow2(n));
      assert Pow2(k) == 1;
    } else if x == 0 {
      var m := HighMask(n, k);
      assert And(x, m) == 0;
      ModSmall(x, Pow2(k));
    } else if k == n {
      var m := HighMask(n, k);
      assert m == 0;
      assert And(x, m) == 0;
      ModSmall(x, Pow2(n));
    } else {
      AndHighMaskStep(x, n, k);
    }
  }

  lemma {:induction false} AndHighMaskStep(x: nat, n: nat, k: nat)
    requires 0 < k < n && 0 < x < Pow2(n)
    ensures And(x, HighMask(n, k)) == x - x % Pow2(k)
    decreases k, 0
  {
    var p := Pow2(k - 1);
    var m := HighMask(n, k);
    var h := HighMask(n - 1, k - 1);
    assert m == 2 * h;
    assert m / 2 == h && m % 2 == 0;
    assert m != 0 by {
      Pow2Mono(k, n - 1);
    }
    assert And(x, m) == 2 * And(x / 2, h);
    assert x / 2 < Pow2(n - 1);
    assert And(x / 2, h) == x / 2 - (x / 2) % p by {
      AndHighMask(x / 2, n - 1, k - 1);
    }
    ModDouble(x, p);
  }

  /** 2^16 as a power of two. */
  lemma Pow2Of16()
    ensures Pow2(16) == 0x1_0000
  {
    assert Pow2(8) == 256;
    assert Pow2(16) == Pow2(8) * 256 by {
      Pow2Add(8, 8);
    }
  }

  lemma Pow2Of32()
    ensures Pow2(32) == U32
  {
    Pow2Of16();
    assert Pow2(32) == Pow2(16) * 65536 by {
      Pow2Add(16, 16);
    }
  }

  lemma {:induction false} Pow2Add(a: nat, b: nat)
    ensures Pow2(a + b) == Pow2(a) * Pow2(b)
    decreases b
  {
    if b > 0 {
      Pow2Add(a, b - 1);
      assert Pow2(a + b) == 2 * Pow2(a + b - 1);
    }
  }

  lemma Pow2Of30()
    ensures Pow2(30) == 0x4000_0000
  {
    assert Pow2(8) == 256;
    assert Pow2(16) == 65536 by {
      assert Pow2(16) == Pow2(8) * 256;
    }
    assert Pow2(30) == Pow2(16) * 16384 by {
      Pow2Add(16, 14);
    }
  }
}
