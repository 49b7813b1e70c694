/** The sync locator (`find_sync` in src/decode.rs): the first 16-bit window of ones,
    found with a rolling shift register, that starts no earlier than the preamble's end.
    The specification speaks of the received bit string `bits`, the first `bitLen` bits of
    the buffer (`BitSeq(buf, 0, bitLen)`); the method reads the buffer with `BitAt`. */
module Sync {
  import opened Bits
  import opened Outcomes

  /** Width of the sync marker in bits. */
  const SyncBits: nat := 16

  /** The marker: sixteen ones. */
  const SyncWord: nat := 0xFFFF

  /** The sixteen bits ending just before `e` are all ones. */
  predicate SyncAt(bits: seq<Bit>, e: nat)
  {
    SyncBits <= e <= |bits| && AllOnes(bits[e - SyncBits..e])
  }

  /** `SyncAt` spelled out bit by bit: bits `e - 16` to `e - 1` exist and are all ones. */
  lemma SyncAtOnes(bits: seq<Bit>, e: nat)
    ensures SyncAt(bits, e) <==> SyncBits <= e <= |bits| && forall k :: e - SyncBits <= k < e ==> bits[k] == 1
  {
    if SyncBits <= e <= |bits| {
      AllOnesEvery(bits[e - SyncBits..e]);
    }
  }

  /** The least `e` at or after `from` where the marker ends, if any. */
  function FirstSync(bits: seq<Bit>, from: nat): (r: Option<nat>)
    ensures r.Some? ==> from <= r.value && SyncAt(bits, r.value)
    ensures r.Some? ==> forall e :: from <= e < r.value ==> !SyncAt(bits, e)
    ensures r.None? ==> forall e :: from <= e ==> !SyncAt(bits, e)
    decreases |bits| + 1 - from
  {
    if from > |bits| then None
    else if SyncAt(bits, from) then Some(from)
    else FirstSync(bits, from + 1)
  }

  /** What the locator reports when it starts reading at `start`: the offset just past the
      first all-ones window that lies wholly at or after `start`. */
  function SyncSpec(bits: seq<Bit>, start: nat): (r: Option<nat>)
    ensures r.Some? ==> start + SyncBits <= r.value <= |bits| && SyncAt(bits, r.value)
    ensures r.Some? ==> forall e :: start + SyncBits <= e < r.value ==> !SyncAt(bits, e)
    ensures r.None? <==> forall e :: start + SyncBits <= e ==> !SyncAt(bits, e)
  {
    FirstSync(bits, start + SyncBits)
  }

  /** The first bit the shift register still holds after reading bits `start .. idx-1`. */
  function WindowLo(start: nat, idx: nat): nat
  {
    if idx >= start + SyncBits then idx - SyncBits else start
  }

  /** Shifting one more bit into the register keeps it equal to the value of the last
      (at most) sixteen bits read. */
  lemma WindowShift(bits: seq<Bit>, start: nat, idx: nat, window: nat, bit: Bit)
    requires start <= idx < |bits|
    requires window == BitsToNat(bits[WindowLo(start, idx)..idx]) && bit == bits[idx]
    ensures (window * 2 + bit) % 0x10000 == BitsToNat(bits[WindowLo(start, idx + 1)..idx + 1])
  {
    if idx + 1 <= start + SyncBits {
      assert WindowLo(start, idx) == start == WindowLo(start, idx + 1);
      ShortShift(bits, start, idx);
    } else {
      var lo := idx - SyncBits;
      assert WindowLo(start, idx) == lo && WindowLo(start, idx + 1) == lo + 1;
      FullShift(bits, lo, idx);
    }
  }

  /** While the register is not yet full, nothing is masked off. */
  lemma ShortShift(bits: seq<Bit>, lo: nat, idx: nat)
    requires lo <= idx < |bits| && idx + 1 <= lo + SyncBits
    ensures BitsToNat(bits[lo..idx + 1]) == (BitsToNat(bits[lo..idx]) * 2 + bits[idx]) % 0x10000
  {
    Pow2Values();
    var s := bits[lo..idx + 1];
    assert s[..|s| - 1] == bits[lo..idx];
    Pow2Monotone(|s|, 16);
  }

  /** Once the register is full, shifting drops the oldest bit. */
  lemma FullShift(bits: seq<Bit>, lo: nat, idx: nat)
    requires lo + SyncBits == idx < |bits|
    ensures BitsToNat(bits[lo + 1..idx + 1]) == (BitsToNat(bits[lo..idx]) * 2 + bits[idx]) % 0x10000
  {
    var s := bits[lo..idx + 1];
    assert s[..|s| - 1] == bits[lo..idx];
    DropOldest(s);
    assert s[1..] == bits[lo + 1..idx + 1];
  }

  /** Once the register is full, the bit shifted out at the top is lost by the 16-bit mask. */
  lemma DropOldest(s: seq<Bit>)
    requires |s| == SyncBits + 1
    ensures BitsToNat(s) % 0x10000 == BitsToNat(s[1..])
  {
    Pow2Values();
    BitsToNatFirst(s);
  }

  /** A full register reads 0xFFFF exactly when its sixteen bits are the marker. */
  lemma WindowFull(bits: seq<Bit>, start: nat, e: nat)
    requires start + SyncBits <= e <= |bits|
    ensures BitsToNat(bits[WindowLo(start, e)..e]) == SyncWord <==> SyncAt(bits, e)
  {
    Pow2Values();
    AllOnesValue(bits[e - SyncBits..e]);
  }

  /** The first marker end the locator has not yet examined after reading bits
      `start .. idx-1`. */
  function Pending(start: nat, idx: nat): nat
  {
    if idx + 1 < start + SyncBits then start + SyncBits else idx + 1
  }

  /** A marker ending at `e` is the first one from `e`. */
  lemma FirstSyncHit(bits: seq<Bit>, e: nat)
    requires SyncAt(bits, e)
    ensures FirstSync(bits, e) == Some(e)
  {
  }

  /** Where no marker ends at `e`, the search from `e` goes on from `e + 1`. */
  lemma FirstSyncSkip(bits: seq<Bit>, e: nat)
    requires e <= |bits| && !SyncAt(bits, e)
    ensures FirstSync(bits, e) == FirstSync(bits, e + 1)
  {
  }

  /** One turn of the locator's loop, once the register is full: it reads 0xFFFF exactly
      when a marker ends at `idx + 1`, which is then the first marker end from
      `Pending(start, idx)`; otherwise the search moves on. */
  lemma SyncStep(bits: seq<Bit>, start: nat, idx: nat, window: nat)
    requires start + SyncBits <= idx + 1 <= |bits|
    requires window == BitsToNat(bits[WindowLo(start, idx + 1)..idx + 1])
    ensures window == SyncWord ==> FirstSync(bits, Pending(start, idx)) == Some(idx + 1)
    ensures window != SyncWord ==> FirstSync(bits, Pending(start, idx)) == FirstSync(bits, Pending(start, idx + 1))
  {
    WindowFull(bits, start, idx + 1);
    assert Pending(start, idx) == idx + 1 && Pending(start, idx + 1) == idx + 2;
    if window == SyncWord {
      FirstSyncHit(bits, idx + 1);
    } else {
      FirstSyncSkip(bits, idx + 1);
    }
  }

  /** One turn of the locator's loop on the received bits: shifting in bit `idx` keeps the
      register equal to the last (at most) sixteen bits read; once it is full, 0xFFFF marks
      the first marker end, and any other value moves the search on. */
  lemma SyncTurn(buf: seq<Byte>, bitLen: nat, start: nat, idx: nat, window: nat)
    requires bitLen <= 8 * |buf| && start <= idx < bitLen
    requires window == BitsToNat(BitSeq(buf, 0, bitLen)[WindowLo(start, idx)..idx])
    ensures (window * 2 + BitAt(buf, idx)) % 0x10000
         == BitsToNat(BitSeq(buf, 0, bitLen)[WindowLo(start, idx + 1)..idx + 1])
    ensures idx + 1 >= start + SyncBits && (window * 2 + BitAt(buf, idx)) % 0x10000 == SyncWord ==>
      FirstSync(BitSeq(buf, 0, bitLen), Pending(start, idx)) == Some(idx + 1)
    ensures !(idx + 1 >= start + SyncBits && (window * 2 + BitAt(buf, idx)) % 0x10000 == SyncWord) ==>
      FirstSync(BitSeq(buf, 0, bitLen), Pending(start, idx))
      == FirstSync(BitSeq(buf, 0, bitLen), Pending(start, idx + 1))
  {
    var bits, bit := BitSeq(buf, 0, bitLen), BitAt(buf, idx);
    BitSeqIndex(buf, 0, bitLen, idx);
    WindowShift(bits, start, idx, window, bit);
    if idx + 1 >= start + SyncBits {
      SyncStep(bits, start, idx, (window * 2 + bit) % 0x10000);
    } else {
      assert Pending(start, idx) == Pending(start, idx + 1);
    }
  }

  /** `find_sync`: shift the bits from `start` one at a time into a 16-bit register and stop
      at the first point where the register holds sixteen freshly read ones. */
  method FindSync(buf: seq<Byte>, start: nat, bitLen: nat) returns (r: Option<nat>)
    requires bitLen <= 8 * |buf|
    ensures bitLen < SyncBits || start >= bitLen - (SyncBits - 1) ==> r.None?
    ensures r == SyncSpec(BitSeq(buf, 0, bitLen), start)
  {
    ghost var bits := BitSeq(buf, 0, bitLen);
    if bitLen < SyncBits || start >= bitLen - (SyncBits - 1) {
      return None;
    }
    var window: nat := 0;
    for idx := start to bitLen
      invariant window < 0x10000
      invariant window == BitsToNat(bits[WindowLo(start, idx)..idx])
      invariant FirstSync(bits, Pending(start, idx)) == SyncSpec(bits, start)
    {
      SyncTurn(buf, bitLen, start, idx, window);
      window := (window * 2 + BitAt(buf, idx)) % 0x10000;
      if idx + 1 >= start + SyncBits && window == SyncWord {
        return Some(idx + 1);
      }
    }
    return None;
  }
}
