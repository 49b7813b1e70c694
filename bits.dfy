/** Bit addressing over a byte buffer, most-significant bit first (`bit_at` in
    src/decode.rs), and the inverse operation: packing a sequence of bits into bytes,
    as the symbol demodulator does. */
module Bits {

  /** Rust `u8`. */
  type Byte = b: int | 0 <= b < 256

  /** One binary digit. */
  type Bit = b: int | 0 <= b <= 1

  function Pow2(n: nat): (p: nat)
    ensures p >= 1
  {
    if n == 0 then 1 else 2 * Pow2(n - 1)
  }

  lemma Pow2Values()
    ensures Pow2(4) == 16 && Pow2(8) == 256 && Pow2(16) == 0x10000
  {
  }

  lemma {:induction false} Pow2Monotone(a: nat, b: nat)
    requires a <= b
    ensures Pow2(a) <= Pow2(b)
  {
    if a < b {
      Pow2Monotone(a, b - 1);
    }
  }

  /** Logical shift right by `n` places. */
  function Shr(b: nat, n: nat): (r: nat)
    ensures r <= b
  {
    if n == 0 then b else Shr(b / 2, n - 1)
  }

  /** Shifting right by `n` places divides by `2^n`. */
  lemma {:induction false} ShrDiv(b: nat, n: nat)
    ensures Shr(b, n) == b / Pow2(n)
  {
    if n > 0 {
      ShrDiv(b / 2, n - 1);
      DivHalf(b, Pow2(n - 1));
    }
  }

  /** Bit `i` of `buf`, counting from the most significant bit of the first byte: within
      the first byte it is bit `7 - i`; past it, bit `i - 8` of the remaining bytes.
      `BitAtIndex` shows this is `(buf[i / 8] >> (7 - i % 8)) & 1`. */
  function BitAt(buf: seq<Byte>, i: nat): (b: Byte)
    requires i / 8 < |buf|
    ensures b <= 1
  {
    if i < 8 then Shr(buf[0], 7 - i) % 2 else BitAt(buf[1..], i - 8)
  }

  /** The bit addressed by `i` sits in byte `i / 8`, at `7 - i % 8` places from its low end. */
  lemma {:induction false} BitAtIndex(buf: seq<Byte>, i: nat)
    requires i / 8 < |buf|
    ensures BitAt(buf, i) == Shr(buf[i / 8], 7 - i % 8) % 2
  {
    if i >= 8 {
      BitAtIndex(buf[1..], i - 8);
      assert (i - 8) / 8 == i / 8 - 1 && (i - 8) % 8 == i % 8;
    }
  }

  /** The bits `lo .. hi-1` of `buf`, in order. */
  function BitSeq(buf: seq<Byte>, lo: nat, hi: nat): (s: seq<Bit>)
    requires lo <= hi <= 8 * |buf|
    ensures |s| == hi - lo
    decreases hi - lo
  {
    if lo == hi then [] else BitSeq(buf, lo, hi - 1) + [BitAt(buf, hi - 1)]
  }

  /** Entry `k - lo` of `BitSeq(buf, lo, hi)` is bit `k` of `buf`. */
  lemma {:induction false} BitSeqIndex(buf: seq<Byte>, lo: nat, hi: nat, k: nat)
    requires lo <= k < hi <= 8 * |buf|
    ensures BitSeq(buf, lo, hi)[k - lo] == BitAt(buf, k)
    decreases hi - lo
  {
    if k < hi - 1 {
      BitSeqIndex(buf, lo, hi - 1, k);
    }
  }

  /** A slice of the bits of `buf` is the bits of the corresponding range. */
  lemma BitSeqSlice(buf: seq<Byte>, lo: nat, a: nat, b: nat, hi: nat)
    requires lo <= a <= b <= hi <= 8 * |buf|
    ensures BitSeq(buf, lo, hi)[a - lo .. b - lo] == BitSeq(buf, a, b)
  {
    var s, t := BitSeq(buf, lo, hi)[a - lo .. b - lo], BitSeq(buf, a, b);
    forall k | 0 <= k < b - a
      ensures s[k] == t[k]
    {
      BitSeqIndex(buf, lo, hi, a + k);
      BitSeqIndex(buf, a, b, a + k);
    }
  }

  /** The number whose binary digits, most significant first, are `s`. */
  function BitsToNat(s: seq<Bit>): (n: nat)
    ensures n < Pow2(|s|)
  {
    if s == [] then 0 else 2 * BitsToNat(s[..|s| - 1]) + s[|s| - 1]
  }

  /** One byte made of eight bits, most significant first. */
  function ByteOf(s: seq<Bit>): Byte
    requires |s| == 8
  {
    Pow2Values();
    BitsToNat(s)
  }

  /** Bits packed eight to a byte, most significant first: bit `k` lands in byte `k / 8`. */
  function Pack(bits: seq<Bit>): (p: seq<Byte>)
    requires |bits| % 8 == 0
    ensures |p| == |bits| / 8
  {
    seq(|bits| / 8, j requires 0 <= j < |bits| / 8 => ByteOf(bits[8 * j .. 8 * j + 8]))
  }

  lemma DivUnique(n: int, d: int, a: int, c: int)
    requires d > 0 && n == a * d + c && 0 <= c < d
    ensures n / d == a
  {
    var q, r := n / d, n % d;
    assert (q - a) * d == c - r;
    MulSmall(q - a, d);
  }

  lemma MulSmall(x: int, d: int)
    requires d > 0 && -d < x * d < d
    ensures x == 0
  {
  }

  /** Dividing by `2 * p` is dividing by `p` and by 2, in either order. */
  lemma DivHalf(n: nat, p: nat)
    requires p >= 1
    ensures n / (2 * p) == (n / p) / 2 == (n / 2) / p
  {
    var q, r := n / p, n % p;
    var q2, s := q / 2, q % 2;
    assert n == q2 * (2 * p) + (s * p + r) by {
      assert n == q * p + r;
      assert q == 2 * q2 + s;
    }
    DivUnique(n, 2 * p, q2, s * p + r);
    var h, t := n / 2, n % 2;
    var h2, u := h / p, h % p;
    assert n == h2 * (2 * p) + (2 * u + t) by {
      assert n == 2 * h + t;
      assert h == h2 * p + u;
    }
    DivUnique(n, 2 * p, h2, 2 * u + t);
  }

  /** Digit `m` of a bit string is recovered by shifting its value right and masking. */
  lemma {:induction false} BitOfValue(s: seq<Bit>, m: nat)
    requires m < |s|
    ensures (BitsToNat(s) / Pow2(|s| - 1 - m)) % 2 == s[m]
  {
    var p, x := s[..|s| - 1], s[|s| - 1];
    var v := BitsToNat(p);
    assert BitsToNat(s) == 2 * v + x;
    if m < |s| - 1 {
      var e := |p| - 1 - m;
      assert Pow2(|s| - 1 - m) == 2 * Pow2(e);
      DivHalf(2 * v + x, Pow2(e));
      assert (2 * v + x) / 2 == v;
      BitOfValue(p, m);
    }
  }

  /** Packing then addressing bit `k` gives bit `k` back: `BitAt` reads the bits in the
      order `Pack` writes them. */
  lemma PackBitAt(bits: seq<Bit>, k: nat)
    requires |bits| % 8 == 0 && k < |bits|
    ensures BitAt(Pack(bits), k) == bits[k]
  {
    var j, m := k / 8, k % 8;
    var chunk := bits[8 * j .. 8 * j + 8];
    assert Pack(bits)[j] == BitsToNat(chunk);
    BitAtIndex(Pack(bits), k);
    ShrDiv(BitsToNat(chunk), 7 - m);
    BitOfValue(chunk, m);
    assert chunk[m] == bits[k];
  }

  /** The first `m` bits of byte `k`, read with `BitAt`, are its top `m` bits. */
  lemma {:induction false} BytePrefix(buf: seq<Byte>, k: nat, m: nat)
    requires k < |buf| && m <= 8
    ensures BitsToNat(BitSeq(buf, 8 * k, 8 * k + m)) == buf[k] / Pow2(8 - m)
  {
    if m == 0 {
      Pow2Values();
      assert BitSeq(buf, 8 * k, 8 * k) == [];
    } else {
      var x := buf[k] / Pow2(8 - m);
      BytePrefix(buf, k, m - 1);
      assert Pow2(9 - m) == 2 * Pow2(8 - m);
      DivHalf(buf[k], Pow2(8 - m));
      BitSeqSnoc(buf, 8 * k, 8 * k + m - 1);
      LastBitOfPrefix(buf, k, m);
      assert BitsToNat(BitSeq(buf, 8 * k, 8 * k + m)) == 2 * (x / 2) + x % 2;
    }
  }

  /** The `m`-th bit of byte `k` is the low bit of its top `m` bits. */
  lemma LastBitOfPrefix(buf: seq<Byte>, k: nat, m: nat)
    requires k < |buf| && 1 <= m <= 8
    ensures BitAt(buf, 8 * k + m - 1) == (buf[k] / Pow2(8 - m)) % 2
  {
    BitAtIndex(buf, 8 * k + m - 1);
    assert (8 * k + m - 1) / 8 == k && (8 * k + m - 1) % 8 == m - 1;
    ShrDiv(buf[k], 8 - m);
  }

  /** Reading every bit of a buffer with `BitAt` and packing them again gives the buffer
      back: `BitAt` numbers bits most significant first within each byte. */
  lemma UnpackPack(buf: seq<Byte>)
    ensures Pack(BitSeq(buf, 0, 8 * |buf|)) == buf
  {
    WholeBytes(BitSeq(buf, 0, 8 * |buf|), |buf|);
    var p := Pack(BitSeq(buf, 0, 8 * |buf|));
    forall j | 0 <= j < |buf|
      ensures p[j] == buf[j]
    {
      UnpackByte(buf, j);
    }
  }

  /** `8 * n` bits make exactly `n` bytes. */
  lemma WholeBytes(bits: seq<Bit>, n: nat)
    requires |bits| == 8 * n
    ensures |bits| % 8 == 0 && |bits| / 8 == n
  {
    DivUnique(|bits|, 8, n, 0);
  }

  /** Byte `j` of the repacked bits is byte `j` of the buffer. */
  lemma UnpackByte(buf: seq<Byte>, j: nat)
    requires j < |buf|
    ensures Pack(BitSeq(buf, 0, 8 * |buf|))[j] == buf[j]
  {
    var bits := BitSeq(buf, 0, 8 * |buf|);
    WholeBytes(bits, |buf|);
    PackIndex(bits, j);
    ByteChunk(buf, j);
  }

  /** Bits `8 * j .. 8 * j + 7` of a buffer, read as a number, are byte `j`. */
  lemma ByteChunk(buf: seq<Byte>, j: nat)
    requires j < |buf|
    ensures BitsToNat(BitSeq(buf, 0, 8 * |buf|)[8 * j .. 8 * j + 8]) == buf[j]
  {
    var lo, hi := 8 * j, 8 * |buf|;
    BitSeqSlice(buf, 0, lo, lo + 8, hi);
    BytePrefix(buf, j, 8);
    assert Pow2(8 - 8) == 1;
  }

  /** Byte `j` of a packing is made of bits `8 * j .. 8 * j + 7`. */
  lemma PackIndex(bits: seq<Bit>, j: nat)
    requires |bits| % 8 == 0 && j < |bits| / 8
    ensures 8 * j + 8 <= |bits| && Pack(bits)[j] == BitsToNat(bits[8 * j .. 8 * j + 8])
  {
  }

  /** Reading one more bit appends a least significant digit. */
  lemma BitSeqSnoc(buf: seq<Byte>, lo: nat, hi: nat)
    requires lo <= hi < 8 * |buf|
    ensures BitsToNat(BitSeq(buf, lo, hi + 1)) == 2 * BitsToNat(BitSeq(buf, lo, hi)) + BitAt(buf, hi)
  {
    var s := BitSeq(buf, lo, hi + 1);
    assert s[..|s| - 1] == BitSeq(buf, lo, hi);
  }

  /** Splitting off the most significant digit. */
  lemma {:induction false} BitsToNatFirst(s: seq<Bit>)
    requires |s| >= 1
    ensures BitsToNat(s) == (if s[0] == 1 then Pow2(|s| - 1) else 0) + BitsToNat(s[1..])
  {
    if |s| > 1 {
      var p := s[..|s| - 1];
      BitsToNatFirst(p);
      assert s[1..][..|s| - 2] == p[1..];
    }
  }

  /** Every bit of `s` is a one (checked from the end, one bit at a time). */
  predicate AllOnes(s: seq<Bit>)
  {
    s == [] || (s[|s| - 1] == 1 && AllOnes(s[..|s| - 1]))
  }

  /** `AllOnes` says what its name says: each entry is 1. */
  lemma {:induction false} AllOnesEvery(s: seq<Bit>)
    ensures AllOnes(s) <==> forall k :: 0 <= k < |s| ==> s[k] == 1
  {
    if s != [] {
      var p := s[..|s| - 1];
      AllOnesEvery(p);
      assert forall k :: 0 <= k < |p| ==> p[k] == s[k];
    }
  }

  /** A bit string reads as the largest number of its width exactly when it is all ones. */
  lemma {:induction false} AllOnesValue(s: seq<Bit>)
    ensures BitsToNat(s) == Pow2(|s|) - 1 <==> AllOnes(s)
  {
    if s != [] {
      AllOnesValue(s[..|s| - 1]);
    }
  }
}
