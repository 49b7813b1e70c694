/** The preamble locator (`find_preamble`, `matches_1100` in src/decode.rs): the first
    bit offset from which at least eight consecutive `1100` quads follow. */
module Preamble {
  import opened Bits
  import opened Outcomes

  /** The preamble needs this many consecutive quads. */
  const MinQuads: nat := 8

  /** Where the preamble ends, and how many quads it had (saturated to a `u8`). */
  datatype PreambleMatch = PreambleMatch(end: nat, quality: Byte)

  /** The four bits from `i` read 1, 1, 0, 0. */
  predicate Matches1100(buf: seq<Byte>, i: nat): (r: bool)
    requires i + 4 <= 8 * |buf|
    ensures r <==> BitSeq(buf, i, i + 4) == [1, 1, 0, 0]
  {
    BitSeqIndex(buf, i, i + 4, i);
    BitSeqIndex(buf, i, i + 4, i + 1);
    BitSeqIndex(buf, i, i + 4, i + 2);
    BitSeqIndex(buf, i, i + 4, i + 3);
    BitAt(buf, i) == 1 && BitAt(buf, i + 1) == 1 && BitAt(buf, i + 2) == 0 && BitAt(buf, i + 3) == 0
  }

  /** `Matches1100` holds exactly when the quad at `i`, read as a 4-bit number, is 0b1100. */
  lemma Matches1100Value(buf: seq<Byte>, i: nat)
    requires i + 4 <= 8 * |buf|
    ensures Matches1100(buf, i) <==> BitsToNat(BitSeq(buf, i, i + 4)) == 12
  {
    var s := BitSeq(buf, i, i + 4);
    BitSeqIndex(buf, i, i + 4, i);
    BitSeqIndex(buf, i, i + 4, i + 1);
    BitSeqIndex(buf, i, i + 4, i + 2);
    BitSeqIndex(buf, i, i + 4, i + 3);
    var b0: int, b1: int, b2: int, b3: int := s[0], s[1], s[2], s[3];
    assert s[..3][..2][..1][..0] == [];
    assert BitsToNat(s[..1]) == b0;
    assert BitsToNat(s[..2]) == 2 * b0 + b1 by { assert s[..2][..1] == s[..1]; }
    assert BitsToNat(s[..3]) == 4 * b0 + 2 * b1 + b2 by { assert s[..3][..2] == s[..2]; }
    assert BitsToNat(s) == 8 * b0 + 4 * b1 + 2 * b2 + b3 by { assert s[..4] == s; }
  }

  /** A `1100` quad starts at bit `p` and lies wholly inside the first `bitLen` bits. */
  predicate QuadAt(buf: seq<Byte>, bitLen: nat, p: nat)
    requires bitLen <= 8 * |buf|
  {
    p + 4 <= bitLen && Matches1100(buf, p)
  }

  /** The `j`-th quad counted from `start` is a `1100` quad. */
  predicate QuadMatch(buf: seq<Byte>, bitLen: nat, start: nat, j: nat)
    requires bitLen <= 8 * |buf|
  {
    QuadAt(buf, bitLen, start + 4 * j)
  }

  /** The number of consecutive in-bounds `1100` quads from bit `start`. */
  function QuadRun(buf: seq<Byte>, bitLen: nat, start: nat): (n: nat)
    requires bitLen <= 8 * |buf|
    ensures start + 4 * n <= if n == 0 then start else bitLen
    decreases bitLen - start
  {
    if QuadAt(buf, bitLen, start) then 1 + QuadRun(buf, bitLen, start + 4) else 0
  }

  /** The run counted by `QuadRun` is exactly the maximal run of `1100` quads from `start`:
      each of its quads matches and the one after it does not. */
  lemma {:induction false} QuadRunMaximal(buf: seq<Byte>, bitLen: nat, start: nat)
    requires bitLen <= 8 * |buf|
    ensures forall j :: 0 <= j < QuadRun(buf, bitLen, start) ==> QuadMatch(buf, bitLen, start, j)
    ensures !QuadMatch(buf, bitLen, start, QuadRun(buf, bitLen, start))
    decreases bitLen - start
  {
    var n := QuadRun(buf, bitLen, start);
    if QuadAt(buf, bitLen, start) {
      QuadRunMaximal(buf, bitLen, start + 4);
      forall j | 1 <= j <= n
        ensures QuadMatch(buf, bitLen, start, j) == QuadMatch(buf, bitLen, start + 4, j - 1)
      {
        assert start + 4 * j == (start + 4) + 4 * (j - 1);
      }
    }
  }

  /** Unfolding `QuadRun` once, in the terms of the locator's inner loop guard. */
  lemma QuadRunStep(buf: seq<Byte>, bitLen: nat, idx: nat)
    requires bitLen <= 8 * |buf|
    ensures QuadRun(buf, bitLen, idx)
         == if idx + 4 <= bitLen && Matches1100(buf, idx) then 1 + QuadRun(buf, bitLen, idx + 4) else 0
  {
  }

  /** A preamble starts at `s`: 32 bits remain from `s` and at least eight quads match there. */
  predicate Qualifies(buf: seq<Byte>, bitLen: nat, s: nat)
    requires bitLen <= 8 * |buf|
  {
    s + 32 <= bitLen && QuadRun(buf, bitLen, s) >= MinQuads
  }

  /** The least start at or after `from` where a preamble begins, if any. */
  function FirstStart(buf: seq<Byte>, bitLen: nat, from: nat): (r: Option<nat>)
    requires bitLen <= 8 * |buf|
    ensures r.Some? ==> from <= r.value && Qualifies(buf, bitLen, r.value)
    ensures r.Some? ==> forall t :: from <= t < r.value ==> !Qualifies(buf, bitLen, t)
    ensures r.None? ==> forall t :: from <= t ==> !Qualifies(buf, bitLen, t)
    decreases bitLen - from
  {
    if from + 32 > bitLen then None
    else if QuadRun(buf, bitLen, from) >= MinQuads then Some(from)
    else FirstStart(buf, bitLen, from + 1)
  }

  /** A `u8` counter bumped `n` times with `saturating_add(1)`: it counts up to 255 and
      then stays there. */
  function Saturate(n: nat): (r: Byte)
    ensures r <= n && (r == n || r == 255)
  {
    if n < 255 then n else 255
  }

  /** What the locator reports: the end of the run of quads at the first qualifying start,
      and the run's length as a saturated `u8`. */
  function PreambleSpec(buf: seq<Byte>, bitLen: nat): (r: Option<PreambleMatch>)
    requires bitLen <= 8 * |buf|
    ensures r.None? <==> forall t :: !Qualifies(buf, bitLen, t)
    ensures r.Some? ==> 32 <= r.value.end <= bitLen && r.value.quality >= MinQuads
  {
    match FirstStart(buf, bitLen, 0)
    case None => None
    case Some(s) =>
      var n := QuadRun(buf, bitLen, s);
      Some(PreambleMatch(s + 4 * n, Saturate(n)))
  }

  /** The locator's answer is fixed by the least qualifying start `s`: the preamble ends
      after the maximal run of quads from `s`, and its quality is that run's length,
      saturated at 255. */
  lemma PreambleAt(buf: seq<Byte>, bitLen: nat, s: nat)
    requires bitLen <= 8 * |buf|
    requires Qualifies(buf, bitLen, s) && forall t :: 0 <= t < s ==> !Qualifies(buf, bitLen, t)
    ensures PreambleSpec(buf, bitLen).Some?
    ensures PreambleSpec(buf, bitLen).value.end == s + 4 * QuadRun(buf, bitLen, s) <= bitLen
    ensures PreambleSpec(buf, bitLen).value.quality == if QuadRun(buf, bitLen, s) < 255 then QuadRun(buf, bitLen, s) else 255
  {
  }

  /** A qualifying start reached with no earlier one left over is the locator's answer. */
  lemma FoundAtStart(buf: seq<Byte>, bitLen: nat, start: nat)
    requires bitLen <= 8 * |buf|
    requires FirstStart(buf, bitLen, start) == FirstStart(buf, bitLen, 0)
    requires start + 32 <= bitLen && QuadRun(buf, bitLen, start) >= MinQuads
    ensures PreambleSpec(buf, bitLen)
         == Some(PreambleMatch(start + 4 * QuadRun(buf, bitLen, start), Saturate(QuadRun(buf, bitLen, start))))
  {
  }

  /** A start with fewer than eight quads can be passed over. */
  lemma SkipStart(buf: seq<Byte>, bitLen: nat, start: nat)
    requires bitLen <= 8 * |buf|
    requires start + 32 <= bitLen && QuadRun(buf, bitLen, start) < MinQuads
    ensures FirstStart(buf, bitLen, start) == FirstStart(buf, bitLen, start + 1)
  {
  }

  /** Once fewer than 32 bits remain, no preamble is left to find. */
  lemma NoStartLeft(buf: seq<Byte>, bitLen: nat, start: nat)
    requires bitLen <= 8 * |buf|
    requires FirstStart(buf, bitLen, start) == FirstStart(buf, bitLen, 0)
    requires start + 32 > bitLen
    ensures PreambleSpec(buf, bitLen) == None
  {
  }

  /** `find_preamble`: try every start offset while 32 bits remain; from each, count
      `1100` quads; accept the first start with at least eight. */
  method FindPreamble(buf: seq<Byte>, bitLen: nat) returns (r: Option<PreambleMatch>)
    requires bitLen <= 8 * |buf|
    ensures r == PreambleSpec(buf, bitLen)
  {
    var start := 0;
    while start + 32 <= bitLen
      invariant FirstStart(buf, bitLen, start) == FirstStart(buf, bitLen, 0)
      decreases bitLen - start
    {
      var idx := start;
      var quality: Byte := 0;
      ghost var count := 0;
      while idx + 4 <= bitLen && Matches1100(buf, idx)
        invariant idx == start + 4 * count
        invariant quality == Saturate(count)
        invariant QuadRun(buf, bitLen, start) == count + QuadRun(buf, bitLen, idx)
        decreases bitLen - idx
      {
        QuadRunStep(buf, bitLen, idx);
        quality := if quality == 255 then 255 else quality + 1;
        idx := idx + 4;
        count := count + 1;
      }
      QuadRunStep(buf, bitLen, idx);
      if quality >= 8 {
        FoundAtStart(buf, bitLen, start);
        return Some(PreambleMatch(idx, quality));
      }
      SkipStart(buf, bitLen, start);
      start := start + 1;
    }
    NoStartLeft(buf, bitLen, start);
    return None;
  }
}
