/** The symbol demodulator (`demodulate_symbols` in src/decode.rs): after the sync marker,
    each symbol is a run of zeros followed by a run of ones; it decodes to 0 when the zeros
    last at least as long as the ones and to 1 otherwise, and 64 symbols are packed most
    significant bit first into an 8-byte packet. */
module Demod {
  import opened Bits
  import opened Outcomes

  /** Symbols in one packet. */
  const Symbols: nat := 64

  /** Bytes in one packet. */
  const PacketBytes: nat := 8

  /** The length of the run of bits equal to `v` that starts at offset `i` of `bits`. */
  function Run(bits: seq<Bit>, i: nat, v: Bit): (n: nat)
    ensures i + n <= if n == 0 then i else |bits|
    decreases |bits| - i
  {
    if i < |bits| && bits[i] == v then 1 + Run(bits, i + 1, v) else 0
  }

  /** `Run` measures a maximal run: every bit in it equals `v`, and the bit after it, if
      any, does not. */
  lemma {:induction false} RunMaximal(bits: seq<Bit>, i: nat, v: Bit)
    ensures forall k :: i <= k < i + Run(bits, i, v) ==> bits[k] == v
    ensures i + Run(bits, i, v) < |bits| ==> bits[i + Run(bits, i, v)] != v
    decreases |bits| - i
  {
    if i < |bits| && bits[i] == v {
      RunMaximal(bits, i + 1, v);
    }
  }

  /** Unfolding `Run` over the received bits once, in the terms of the demodulator's inner
      loop guards, which read the buffer with `BitAt`. */
  lemma RunStep(buf: seq<Byte>, bitLen: nat, i: nat, v: Bit)
    requires bitLen <= 8 * |buf|
    ensures Run(BitSeq(buf, 0, bitLen), i, v)
         == if i < bitLen && BitAt(buf, i) == v then 1 + Run(BitSeq(buf, 0, bitLen), i + 1, v) else 0
  {
    if i < bitLen {
      BitSeqIndex(buf, 0, bitLen, i);
    }
  }

  /** One symbol on the air: a run of zeros and the run of ones after it. */
  datatype Pulse = Pulse(zeros: nat, ones: nat)

  /** The bit a symbol stands for. */
  function SymbolBit(p: Pulse): (b: Bit)
    ensures b == 0 <==> p.zeros >= p.ones
  {
    if p.zeros >= p.ones then 0 else 1
  }

  /** The symbols read from some offset on, and the offset where reading stopped. */
  datatype Train = Train(pulses: seq<Pulse>, end: nat)

  /** Read up to `n` symbols from bit `i`: stop after `n` of them, at `|bits|`, or at the
      first symbol whose zero run or one run is empty (having stepped over both runs, in
      `ReadSymbol`). */
  function ReadPulses(bits: seq<Bit>, i: nat, n: nat): (t: Train)
    ensures |t.pulses| <= n
    ensures i + 2 * |t.pulses| <= t.end
    ensures i <= |bits| ==> t.end <= |bits|
    decreases n, 1
  {
    if n == 0 || i >= |bits| then Train([], i) else ReadSymbol(bits, i, n)
  }

  /** Read the symbol at bit `i`, then up to `n - 1` more after it. */
  function ReadSymbol(bits: seq<Bit>, i: nat, n: nat): (t: Train)
    requires n > 0 && i < |bits|
    ensures |t.pulses| <= n
    ensures i + 2 * |t.pulses| <= t.end
    ensures t.end <= |bits|
    decreases n, 0
  {
    var z := Run(bits, i, 0);
    var o := Run(bits, i + z, 1);
    if z == 0 || o == 0 then Train([], i + z + o)
    else
      var rest := ReadPulses(bits, i + z + o, n - 1);
      Train([Pulse(z, o)] + rest.pulses, rest.end)
  }

  /** Every symbol read has a non-empty zero run and a non-empty one run. */
  lemma {:induction false} PulsesPositive(bits: seq<Bit>, i: nat, n: nat)
    ensures forall k :: 0 <= k < |ReadPulses(bits, i, n).pulses| ==>
      ReadPulses(bits, i, n).pulses[k].zeros > 0 && ReadPulses(bits, i, n).pulses[k].ones > 0
    decreases n
  {
    if n > 0 && i < |bits| {
      var z := Run(bits, i, 0);
      var o := Run(bits, i + z, 1);
      if z > 0 && o > 0 {
        PulsesPositive(bits, i + z + o, n - 1);
        ReadPulsesCons(bits, i, n, z, o);
      }
    }
  }

  /** `n` copies of the bit `v`. */
  function Repeat(v: Bit, n: nat): (s: seq<Bit>)
    ensures |s| == n && forall k :: 0 <= k < n ==> s[k] == v
  {
    seq(n, _ => v)
  }

  /** The number of bits a sequence of symbols spans. */
  function Width(pulses: seq<Pulse>): nat
  {
    if pulses == [] then 0 else pulses[0].zeros + pulses[0].ones + Width(pulses[1..])
  }

  /** The bits a sequence of symbols is sent as: each symbol's zeros, then its ones. */
  function Encode(pulses: seq<Pulse>): (s: seq<Bit>)
    ensures |s| == Width(pulses)
  {
    if pulses == [] then [] else Repeat(0, pulses[0].zeros) + Repeat(1, pulses[0].ones) + Encode(pulses[1..])
  }

  /** The encoding of a leading symbol. */
  lemma EncodeCons(p: Pulse, rest: seq<Pulse>)
    ensures Encode([p] + rest) == Repeat(0, p.zeros) + Repeat(1, p.ones) + Encode(rest)
  {
    assert ([p] + rest)[1..] == rest;
  }

  /** The width of a leading symbol. */
  lemma WidthCons(p: Pulse, rest: seq<Pulse>)
    ensures Width([p] + rest) == p.zeros + p.ones + Width(rest)
  {
    assert ([p] + rest)[1..] == rest;
  }

  /** Reading from `i` when a complete symbol starts there: that symbol, then the rest. */
  lemma ReadPulsesCons(bits: seq<Bit>, i: nat, n: nat, z: nat, o: nat)
    requires n > 0 && i < |bits| && z == Run(bits, i, 0) && o == Run(bits, i + z, 1)
    requires z > 0 && o > 0
    ensures ReadPulses(bits, i, n) == Then([Pulse(z, o)], ReadPulses(bits, i + z + o, n - 1))
  {
  }

  /** Reading from `i` when no complete symbol starts there, or nothing is left to read. */
  lemma ReadPulsesNone(bits: seq<Bit>, i: nat, n: nat)
    requires n == 0 || i >= |bits| || Run(bits, i, 0) == 0 || Run(bits, i + Run(bits, i, 0), 1) == 0
    ensures ReadPulses(bits, i, n).pulses == []
    ensures ReadPulses(bits, i, n).end
         == if n == 0 then i else i + Run(bits, i, 0) + Run(bits, i + Run(bits, i, 0), 1)
  {
  }

  /** A run, cut out of the bits, is that many copies of its bit. */
  lemma RunSlice(bits: seq<Bit>, i: nat, v: Bit)
    requires i <= |bits|
    ensures i + Run(bits, i, v) <= |bits| && bits[i..i + Run(bits, i, v)] == Repeat(v, Run(bits, i, v))
  {
    RunMaximal(bits, i, v);
  }

  /** A zero run, then a one run, then the encoding of more symbols, is the encoding of
      the symbol made of the two runs followed by those symbols. */
  lemma CodeStep(bits: seq<Bit>, i: nat, z: nat, o: nat, e: nat, rest: seq<Pulse>)
    requires i + z + o <= e <= |bits|
    requires bits[i..i + z] == Repeat(0, z) && bits[i + z..i + z + o] == Repeat(1, o)
    requires bits[i + z + o..e] == Encode(rest)
    ensures bits[i..e] == Encode([Pulse(z, o)] + rest)
  {
    EncodeCons(Pulse(z, o), rest);
    assert bits[i..e] == bits[i..i + z] + bits[i + z..i + z + o] + bits[i + z + o..e];
  }

  /** `CodeStep` for the zero run at `i` and the one run after it. */
  lemma RunsCode(bits: seq<Bit>, i: nat, z: nat, o: nat, e: nat, rest: seq<Pulse>)
    requires z == Run(bits, i, 0) && o == Run(bits, i + z, 1)
    requires i + z + o <= e <= |bits|
    requires bits[i + z + o..e] == Encode(rest)
    ensures bits[i..e] == Encode([Pulse(z, o)] + rest)
  {
    RunSlice(bits, i, 0);
    RunSlice(bits, i + z, 1);
    CodeStep(bits, i, z, o, e, rest);
  }

  /** The symbols read from `i` are consecutive zero-then-one runs of `bits` from `i`:
      sending them again gives back the bits they were read from. `t` is the reading from
      `i` and `e` the offset just past its symbols. */
  lemma {:induction false} ReadPulsesCode(bits: seq<Bit>, i: nat, n: nat, t: Train, e: nat)
    requires t == ReadPulses(bits, i, n) && e == i + Width(t.pulses)
    ensures i <= |bits| ==> e <= |bits| && bits[i..e] == Encode(t.pulses)
    decreases n
  {
    var z := Run(bits, i, 0);
    var o := Run(bits, i + z, 1);
    if n > 0 && i < |bits| && z > 0 && o > 0 {
      var rest := ReadPulses(bits, i + z + o, n - 1);
      ReadPulsesCons(bits, i, n, z, o);
      Shift(t, rest, i, z, o, e);
      ReadPulsesCode(bits, i + z + o, n - 1, rest, e);
      RunsCode(bits, i, z, o, e, rest.pulses);
    } else {
      ReadPulsesNone(bits, i, n);
      assert Width([]) == 0 && Encode([]) == [];
    }
  }

  /** Each symbol's runs are maximal: the last one run read from `i` is followed by a zero
      or by the end of the bits (within the symbols, the next zero run follows). `t` is the
      reading from `i` and `e` the offset just past its symbols. */
  lemma {:induction false} LastRunMaximal(bits: seq<Bit>, i: nat, n: nat, t: Train, e: nat)
    requires t == ReadPulses(bits, i, n) && e == i + Width(t.pulses)
    ensures t.pulses != [] && e < |bits| ==> bits[e] == 0
    decreases n
  {
    var z := Run(bits, i, 0);
    var o := Run(bits, i + z, 1);
    if n > 0 && i < |bits| && z > 0 && o > 0 {
      var rest := ReadPulses(bits, i + z + o, n - 1);
      ReadPulsesCons(bits, i, n, z, o);
      Shift(t, rest, i, z, o, e);
      if rest.pulses == [] {
        assert Width([]) == 0;
        RunMaximal(bits, i + z, 1);
      } else {
        LastRunMaximal(bits, i + z + o, n - 1, rest, e);
      }
    } else {
      ReadPulsesNone(bits, i, n);
    }
  }

  /** Fewer than `n` symbols come back only when the zero run or the one run right after
      the symbols read is empty (at the end of the bits both are). `t` is the reading from
      `i` and `e` the offset just past its symbols. */
  lemma {:induction false} ReadPulsesStop(bits: seq<Bit>, i: nat, n: nat, t: Train, e: nat)
    requires t == ReadPulses(bits, i, n) && e == i + Width(t.pulses)
    ensures |t.pulses| < n ==> Run(bits, e, 0) == 0 || Run(bits, e + Run(bits, e, 0), 1) == 0
    decreases n
  {
    var z := Run(bits, i, 0);
    var o := Run(bits, i + z, 1);
    if n > 0 && i < |bits| && z > 0 && o > 0 {
      var rest := ReadPulses(bits, i + z + o, n - 1);
      ReadPulsesCons(bits, i, n, z, o);
      Shift(t, rest, i, z, o, e);
      ReadPulsesStop(bits, i + z + o, n - 1, rest, e);
    } else {
      ReadPulsesNone(bits, i, n);
      assert Width([]) == 0;
    }
  }

  /** A reading `t` that starts with the symbol `Pulse(z, o)` and goes on as `rest`: the
      offset past its symbols, seen from the end of that first symbol. */
  lemma Shift(t: Train, rest: Train, i: nat, z: nat, o: nat, e: nat)
    requires t.pulses == [Pulse(z, o)] + rest.pulses && e == i + Width(t.pulses)
    ensures e == (i + z + o) + Width(rest.pulses)
    ensures |t.pulses| == |rest.pulses| + 1
  {
    WidthCons(Pulse(z, o), rest.pulses);
  }

  /** One more symbol in front of a reading keeps its stopping point. */
  lemma EndStep(bits: seq<Bit>, n: nat, t: Train, rest: Train, e: nat)
    requires n > 0 && |t.pulses| == |rest.pulses| + 1 && t.end == rest.end
    requires rest.end == if |rest.pulses| == n - 1 then e else e + Run(bits, e, 0) + Run(bits, e + Run(bits, e, 0), 1)
    ensures t.end == if |t.pulses| == n then e else e + Run(bits, e, 0) + Run(bits, e + Run(bits, e, 0), 1)
  {
  }

  /** Where reading stops: right after the last symbol once `n` are in; otherwise just past
      the (partly empty) zero and one runs that follow the symbols read. `t` is the reading
      from `i` and `e` the offset just past its symbols. */
  lemma {:induction false} ReadPulsesEnd(bits: seq<Bit>, i: nat, n: nat, t: Train, e: nat)
    requires t == ReadPulses(bits, i, n) && e == i + Width(t.pulses)
    ensures t.end == if |t.pulses| == n then e else e + Run(bits, e, 0) + Run(bits, e + Run(bits, e, 0), 1)
    decreases n
  {
    var z := Run(bits, i, 0);
    var o := Run(bits, i + z, 1);
    if n > 0 && i < |bits| && z > 0 && o > 0 {
      var rest := ReadPulses(bits, i + z + o, n - 1);
      ReadPulsesCons(bits, i, n, z, o);
      Shift(t, rest, i, z, o, e);
      ReadPulsesEnd(bits, i + z + o, n - 1, rest, e);
      EndStep(bits, n, t, rest, e);
    } else {
      ReadPulsesNone(bits, i, n);
      assert Width([]) == 0;
    }
  }

  /** The symbols read so far followed by those still to come. */
  function Then(pulses: seq<Pulse>, t: Train): Train
  {
    Train(pulses + t.pulses, t.end)
  }

  /** The bits the symbols stand for, in order. */
  function Decoded(pulses: seq<Pulse>): (bits: seq<Bit>)
    ensures |bits| == |pulses|
    ensures forall k :: 0 <= k < |pulses| ==> bits[k] == SymbolBit(pulses[k])
  {
    seq(|pulses|, k requires 0 <= k < |pulses| => SymbolBit(pulses[k]))
  }

  /** The bits of the first `64` symbols, clipped to the `j`-th byte of the packet. */
  function Slot(bits: seq<Bit>, j: nat): (s: seq<Bit>)
    requires |bits| <= Symbols && j < PacketBytes
    ensures |s| <= 8
  {
    var lo := if 8 * j < |bits| then 8 * j else |bits|;
    var hi := if 8 * j + 8 < |bits| then 8 * j + 8 else |bits|;
    bits[lo..hi]
  }

  /** The packet once the demodulator has shifted `bits` into it: each byte holds, in its low
      end, the bits that landed in it so far. */
  function PacketAfter(bits: seq<Bit>): (p: seq<Byte>)
    requires |bits| <= Symbols
    ensures |p| == PacketBytes
  {
    seq(PacketBytes, j requires 0 <= j < PacketBytes => SlotValue(bits, j))
  }

  /** The value of one clipped slot; it fits in a byte. */
  function SlotValue(bits: seq<Bit>, j: nat): (b: Byte)
    requires |bits| <= Symbols && j < PacketBytes
    ensures b == BitsToNat(Slot(bits, j))
  {
    Pow2Values();
    Pow2Monotone(|Slot(bits, j)|, 8);
    BitsToNat(Slot(bits, j))
  }

  /** Before any symbol, the packet is all zeros. */
  lemma PacketAfterEmpty()
    ensures PacketAfter([]) == seq(PacketBytes, _ => 0)
  {
    forall j | 0 <= j < PacketBytes
      ensures PacketAfter([])[j] == 0
    {
      assert Slot([], j) == [];
    }
  }

  /** `(byte << 1) | bit` on a `u8`: the top bit falls off, the new bit enters at the bottom. */
  function ShiftIn(byte: Byte, bit: Bit): (r: Byte)
    ensures r % 2 == bit && r / 2 == byte % 128
    ensures byte < 128 ==> r == 2 * byte + bit
  {
    (byte * 2) % 256 + bit
  }

  /** One more bit lands at the end of slot `|bits| / 8`; every other slot keeps its bits. */
  lemma SlotSnoc(bits: seq<Bit>, b: Bit, j: nat)
    requires |bits| < Symbols && j < PacketBytes
    ensures Slot(bits + [b], j) == if j == |bits| / 8 then Slot(bits, j) + [b] else Slot(bits, j)
  {
    var c, longer := |bits| / 8, bits + [b];
    if j < c {
      assert Slot(longer, j) == longer[8 * j..8 * j + 8] == bits[8 * j..8 * j + 8];
    } else if j == c {
      assert Slot(bits, j) == bits[8 * j..];
      assert Slot(longer, j) == longer[8 * j..] == bits[8 * j..] + [b];
    } else {
      assert Slot(bits, j) == [] == Slot(longer, j);
    }
  }

  /** Shifting one more bit in: byte `|bits| / 8` takes the bit at its low end; no other
      byte changes. */
  lemma PacketAfterSnoc(bits: seq<Bit>, b: Bit)
    requires |bits| < Symbols
    ensures PacketAfter(bits + [b])
         == PacketAfter(bits)[|bits| / 8 := ShiftIn(PacketAfter(bits)[|bits| / 8], b)]
  {
    var c := |bits| / 8;
    var longer := bits + [b];
    forall j | 0 <= j < PacketBytes
      ensures PacketAfter(longer)[j]
           == PacketAfter(bits)[c := ShiftIn(PacketAfter(bits)[c], b)][j]
    {
      SlotSnoc(bits, b, j);
      if j == c {
        var s := Slot(bits, c);
        assert (s + [b])[..|s|] == s;
        Pow2Monotone(|s|, 7);
        assert Pow2(7) == 128;
      }
    }
  }

  /** After all 64 bits, the packet is exactly the bits packed eight to a byte. */
  lemma PacketAfterFull(bits: seq<Bit>)
    requires |bits| == Symbols
    ensures PacketAfter(bits) == Pack(bits)
  {
    forall j | 0 <= j < PacketBytes
      ensures PacketAfter(bits)[j] == Pack(bits)[j]
    {
      assert Slot(bits, j) == bits[8 * j .. 8 * j + 8];
    }
  }

  /** The packet 64 symbols make: their bits packed eight to a byte. */
  function PacketOf(pulses: seq<Pulse>): (p: seq<Byte>)
    requires |pulses| == Symbols
    ensures |p| == PacketBytes
  {
    Pack(Decoded(pulses))
  }

  /** The demodulated packet and the offset just past its last symbol. */
  datatype Demodulated = Demodulated(packet: seq<Byte>, end: nat)

  /** What the demodulator reports from bit `start`: the 64 symbols packed into 8 bytes, or
      nothing when fewer than 64 complete symbols could be read. */
  function DemodSpec(bits: seq<Bit>, start: nat): (r: Option<Demodulated>)
    ensures r.Some? <==> |ReadPulses(bits, start, Symbols).pulses| == Symbols
    ensures r.Some? ==> |r.value.packet| == PacketBytes
    ensures r.Some? ==> start + 2 * Symbols <= r.value.end
    ensures r.Some? && start <= |bits| ==> r.value.end <= |bits|
  {
    var t := ReadPulses(bits, start, Symbols);
    if |t.pulses| < Symbols then None else Some(Demodulated(PacketOf(t.pulses), t.end))
  }

  /** Symbol `k` of a packet is bit `7 - k % 8` of byte `k / 8`, and it is 0 exactly when
      the symbol's zero run is at least as long as its one run. */
  lemma PacketBits(pulses: seq<Pulse>, k: nat)
    requires |pulses| == Symbols && k < Symbols
    ensures BitAt(PacketOf(pulses), k) == 0 <==> pulses[k].zeros >= pulses[k].ones
  {
    PackBitAt(Decoded(pulses), k);
  }

  /** Reading symbols one after another is associative. */
  lemma ThenAssoc(pulses: seq<Pulse>, p: Pulse, t: Train)
    ensures Then(pulses + [p], t) == Then(pulses, Then([p], t))
  {
    assert pulses + [p] + t.pulses == pulses + ([p] + t.pulses);
  }

  /** The reading as the demodulator's loop performs it: `pulses` have been read and reading
      goes on from `i`, until 64 symbols are in, the bits run out, or a run comes up empty. */
  function ReadFrom(bits: seq<Bit>, i: nat, pulses: seq<Pulse>): (t: Train)
    requires |pulses| <= Symbols
    decreases Symbols - |pulses|
  {
    if |pulses| == Symbols || i >= |bits| then Train(pulses, i)
    else
      var z := Run(bits, i, 0);
      var o := Run(bits, i + z, 1);
      if z == 0 || o == 0 then Train(pulses, i + z + o)
      else ReadFrom(bits, i + z + o, pulses + [Pulse(z, o)])
  }

  /** The loop's reading continues the symbols read so far with `ReadPulses`' reading of the
      rest. */
  lemma {:induction false} ReadFromThen(bits: seq<Bit>, i: nat, pulses: seq<Pulse>)
    requires |pulses| <= Symbols
    ensures ReadFrom(bits, i, pulses) == Then(pulses, ReadPulses(bits, i, Symbols - |pulses|))
    decreases Symbols - |pulses|
  {
    if |pulses| < Symbols && i < |bits| {
      var z := Run(bits, i, 0);
      var o := Run(bits, i + z, 1);
      if z > 0 && o > 0 {
        ReadFromThen(bits, i + z + o, pulses + [Pulse(z, o)]);
        ThenAssoc(pulses, Pulse(z, o), ReadPulses(bits, i + z + o, Symbols - |pulses| - 1));
      }
    }
  }

  /** One turn of the demodulator's loop: a complete symbol is consumed; an incomplete one
      ends the reading at `next`, just past both runs. */
  lemma ReadOn(bits: seq<Bit>, i: nat, pulses: seq<Pulse>, z: nat, o: nat, next: nat)
    requires |pulses| < Symbols && i < |bits|
    requires z == Run(bits, i, 0) && o == Run(bits, i + z, 1) && next == i + z + o
    ensures z > 0 && o > 0 ==> ReadFrom(bits, i, pulses) == ReadFrom(bits, next, pulses + [Pulse(z, o)])
    ensures z == 0 || o == 0 ==> ReadFrom(bits, i, pulses) == Train(pulses, next)
  {
  }

  /** The reading stops once 64 symbols are in or the bits have run out. */
  lemma ReadStop(bits: seq<Bit>, i: nat, pulses: seq<Pulse>)
    requires |pulses| <= Symbols
    requires |pulses| == Symbols || i >= |bits|
    ensures ReadFrom(bits, i, pulses) == Train(pulses, i)
  {
  }

  /** The packet after one more symbol. */
  lemma PacketStep(pulses: seq<Pulse>, p: Pulse)
    requires |pulses| < Symbols
    ensures PacketAfter(Decoded(pulses + [p]))
         == PacketAfter(Decoded(pulses))[|pulses| / 8 := ShiftIn(PacketAfter(Decoded(pulses))[|pulses| / 8], SymbolBit(p))]
  {
    assert Decoded(pulses + [p]) == Decoded(pulses) + [SymbolBit(p)];
    PacketAfterSnoc(Decoded(pulses), SymbolBit(p));
  }

  /** When the loop's reading from `start` has produced `pulses` and stopped at `index`, the
      demodulator's answer is `DemodSpec`'s. */
  lemma Finish(bits: seq<Bit>, start: nat, pulses: seq<Pulse>, index: nat, packet: seq<Byte>)
    requires |pulses| <= Symbols
    requires ReadFrom(bits, start, []) == Train(pulses, index)
    requires packet == PacketAfter(Decoded(pulses))
    ensures DemodSpec(bits, start) == if |pulses| < Symbols then None else Some(Demodulated(packet, index))
  {
    var t := ReadPulses(bits, start, Symbols);
    ReadFromThen(bits, start, []);
    assert [] + t.pulses == t.pulses;
    assert t == Train(pulses, index);
    if |pulses| == Symbols {
      PacketAfterFull(Decoded(pulses));
    }
  }

  /** One of `demodulate_symbols`'s inner loops: count the bits equal to `v` from `index`
      until one differs or the received bits run out. */
  method MeasureRun(buf: seq<Byte>, bitLen: nat, index: nat, v: Bit) returns (n: nat)
    requires bitLen <= 8 * |buf|
    ensures n == Run(BitSeq(buf, 0, bitLen), index, v)
  {
    n := 0;
    var i := index;
    while i < bitLen && BitAt(buf, i) == v
      invariant i == index + n
      invariant Run(BitSeq(buf, 0, bitLen), index, v) == n + Run(BitSeq(buf, 0, bitLen), i, v)
      decreases bitLen - i
    {
      RunStep(buf, bitLen, i, v);
      n := n + 1;
      i := i + 1;
    }
    RunStep(buf, bitLen, i, v);
  }

  /** `demodulate_symbols`: measure each zero run and the one run after it, decode the
      symbol, shift it into the packet, until 64 symbols are in or a run comes up empty. */
  method DemodulateSymbols(buf: seq<Byte>, start: nat, bitLen: nat) returns (r: Option<Demodulated>)
    requires bitLen <= 8 * |buf|
    ensures r == DemodSpec(BitSeq(buf, 0, bitLen), start)
  {
    ghost var bits := BitSeq(buf, 0, bitLen);
    var packet: seq<Byte> := seq(PacketBytes, _ => 0);
    var bitCount := 0;
    var index := start;
    ghost var pulses: seq<Pulse> := [];
    PacketAfterEmpty();
    while index < bitLen && bitCount < Symbols
      invariant bitCount == |pulses| <= Symbols
      invariant packet == PacketAfter(Decoded(pulses))
      invariant ReadFrom(bits, index, pulses) == ReadFrom(bits, start, [])
      decreases bitLen - index
    {
      var i0 := index;
      var zeros := MeasureRun(buf, bitLen, index, 0);
      assert zeros == Run(bits, i0, 0);
      index := index + zeros;
      var ones := MeasureRun(buf, bitLen, index, 1);
      assert ones == Run(bits, i0 + zeros, 1);
      index := index + ones;
      ReadOn(bits, i0, pulses, zeros, ones, index);

      if zeros == 0 || ones == 0 {
        break;
      }

      var bit := if zeros >= ones then 0 else 1;
      var byteIdx := bitCount / 8;
      PacketStep(pulses, Pulse(zeros, ones));
      packet := packet[byteIdx := ShiftIn(packet[byteIdx], bit)];
      pulses := pulses + [Pulse(zeros, ones)];
      bitCount := bitCount + 1;
    }
    if bitCount == Symbols || index >= bitLen {
      ReadStop(bits, index, pulses);
    }
    Finish(bits, start, pulses, index, packet);
    if bitCount < Symbols {
      return None;
    }
    return Some(Demodulated(packet, index));
  }
}
