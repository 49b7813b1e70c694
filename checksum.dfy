/** The packet checksum (`sum_checksum` in src/decode.rs): bytes 0 to 6 of the 8-byte packet
    added with 8-bit wrap-around; byte 7 carries the sum the sender computed. */
module Checksums {
  import opened Bits

  /** Bytes covered by the checksum. */
  const Covered: nat := 7

  /** The plain (unbounded) sum of a sequence of bytes. */
  function Sum(s: seq<Byte>): nat
  {
    if s == [] then 0 else Sum(s[..|s| - 1]) + s[|s| - 1]
  }

  /** The checksum of a packet: the sum of its first seven bytes, modulo 256. */
  function Checksum(packet: seq<Byte>): Byte
    requires |packet| == 8
  {
    Sum(packet[..Covered]) % 256
  }

  /** Adding one more byte to the sum. */
  lemma SumSnoc(s: seq<Byte>, i: nat)
    requires i < |s|
    ensures Sum(s[..i + 1]) == Sum(s[..i]) + s[i]
  {
    assert s[..i + 1][..i] == s[..i];
  }

  /** An 8-bit wrapping add of one byte to an 8-bit accumulator is the sum modulo 256. */
  lemma WrappingAdd(total: nat, b: Byte)
    ensures (total % 256 + b) % 256 == (total + b) % 256
  {
    var q := total / 256;
    assert total == 256 * q + total % 256;
    assert total + b == 256 * q + (total % 256 + b);
  }

  /** `sum_checksum`: fold the first seven bytes into a `u8` with `wrapping_add`. */
  method SumChecksum(packet: seq<Byte>) returns (acc: Byte)
    requires |packet| == 8
    ensures acc == Checksum(packet)
  {
    acc := 0;
    for i := 0 to Covered
      invariant acc == Sum(packet[..i]) % 256
    {
      SumSnoc(packet, i);
      WrappingAdd(Sum(packet[..i]), packet[i]);
      acc := (acc + packet[i]) % 256;
    }
  }

  /** Byte 7 plays no part in the checksum: packets that agree on bytes 0 to 6 have the
      same checksum. */
  lemma ChecksumIgnoresLast(p: seq<Byte>, q: seq<Byte>)
    requires |p| == |q| == 8
    requires forall k :: 0 <= k < Covered ==> p[k] == q[k]
    ensures Checksum(p) == Checksum(q)
  {
    assert p[..Covered] == q[..Covered];
  }

  /** Changing one byte of a sequence changes its sum by the difference of the two values. */
  lemma {:induction false} SumUpdate(s: seq<Byte>, j: nat, b: Byte)
    requires j < |s|
    ensures Sum(s[j := b]) + s[j] == Sum(s) + b
  {
    var t := s[j := b];
    if j < |s| - 1 {
      SumUpdate(s[..|s| - 1], j, b);
      assert t[..|t| - 1] == s[..|s| - 1][j := b];
    } else {
      assert t[..|t| - 1] == s[..|s| - 1];
    }
  }

  /** Two numbers less than 256 apart, and not equal, leave different remainders mod 256. */
  lemma DistinctResidues(x: int, y: int)
    requires x != y && -256 < y - x < 256
    ensures x % 256 != y % 256
  {
    assert x == 256 * (x / 256) + x % 256;
    assert y == 256 * (y / 256) + y % 256;
  }

  /** Corrupting any single one of bytes 0 to 6 always changes the checksum. */
  lemma SingleByteChangeDetected(p: seq<Byte>, j: nat, b: Byte)
    requires |p| == 8 && j < Covered && b != p[j]
    ensures Checksum(p[j := b]) != Checksum(p)
  {
    assert p[j := b][..Covered] == p[..Covered][j := b];
    SumUpdate(p[..Covered], j, b);
    DistinctResidues(Sum(p[..Covered]), Sum(p[..Covered][j := b]));
  }
}
