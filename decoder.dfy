/** The decoder's entry point (`decode_power` in src/decode.rs): validate the byte count,
    then locate the preamble, the sync marker, demodulate 64 symbols, check the checksum and
    read the power word, failing with the first stage that finds nothing. */
module Decoder {
  import opened Bits
  import opened Outcomes
  import opened Preamble
  import opened Sync
  import opened Demod
  import opened Checksums

  /** Size of the receive buffer handed to the decoder. */
  const RxLen: nat := 128

  /** Why decoding failed. */
  datatype DecodeError =
    | NotEnoughData
    | PreambleNotFound
    | SyncNotFound
    | InsufficientSymbols
    | ChecksumMismatch(expected: Byte, actual: Byte)

  /** The integer fields of the power word: a big-endian 16-bit mantissa (bytes 4 and 5)
      and an exponent (byte 6 minus one). */
  datatype PowerWord = PowerWord(mantissa: nat, exponent: int)

  /** A successful decode: the power word, the packet it came from, and the preamble's
      quality figure. */
  datatype DecodeResult = DecodeResult(powerWord: PowerWord, packet: seq<Byte>, qualityMetric: Byte)

  /** The integer part of `decode_word_from_packet`: `u16::from_be_bytes([p[4], p[5]])` and
      `p[6] as i32 - 1`. */
  function DecodeWord(packet: seq<Byte>): (w: PowerWord)
    requires |packet| == 8
    ensures w.mantissa < 0x10000 && w.mantissa / 256 == packet[4] && w.mantissa % 256 == packet[5]
    ensures -1 <= w.exponent < 255 && w.exponent + 1 == packet[6]
  {
    var hi: int, lo: int, exp: int := packet[4], packet[5], packet[6];
    PowerWord(hi * 256 + lo, exp - 1)
  }

  /** The preamble stage's answer on the first `n` bytes of `rx`. */
  function PreambleOf(rx: seq<Byte>, n: nat): Option<PreambleMatch>
    requires 0 < n <= |rx|
  {
    PreambleSpec(rx[..n], n * 8)
  }

  /** The sync stage's answer on the first `n` bytes of `rx`, reading from `from`. */
  function SyncOf(rx: seq<Byte>, n: nat, from: nat): Option<nat>
    requires 0 < n <= |rx|
  {
    SyncSpec(BitSeq(rx[..n], 0, n * 8), from)
  }

  /** The demodulation stage's answer on the first `n` bytes of `rx`, reading from `from`. */
  function DemodOf(rx: seq<Byte>, n: nat, from: nat): Option<Demodulated>
    requires 0 < n <= |rx|
  {
    DemodSpec(BitSeq(rx[..n], 0, n * 8), from)
  }

  /** What the decoder returns for the first `readBytes` bytes of `rx`. */
  function DecodeSpec(rx: seq<Byte>, readBytes: nat): Result<DecodeResult, DecodeError>
    requires |rx| == RxLen
  {
    if readBytes == 0 || readBytes > |rx| then Err(NotEnoughData)
    else
      match PreambleOf(rx, readBytes)
      case None => Err(PreambleNotFound)
      case Some(pm) =>
        match SyncOf(rx, readBytes, pm.end)
        case None => Err(SyncNotFound)
        case Some(syncEnd) =>
          match DemodOf(rx, readBytes, syncEnd)
          case None => Err(InsufficientSymbols)
          case Some(d) =>
            if Checksum(d.packet) != d.packet[7] then Err(ChecksumMismatch(Checksum(d.packet), d.packet[7]))
            else Ok(DecodeResult(DecodeWord(d.packet), d.packet, pm.quality))
  }

  /** `decode_power`: run the stages in order, returning the first failure. */
  method DecodePower(rx: seq<Byte>, readBytes: nat) returns (r: Result<DecodeResult, DecodeError>)
    requires |rx| == RxLen
    ensures r == DecodeSpec(rx, readBytes)
  {
    if readBytes == 0 || readBytes > |rx| {
      return Err(NotEnoughData);
    }
    var bitLen := readBytes * 8;
    var buf := rx[..readBytes];

    var preamble := FindPreamble(buf, bitLen);
    if preamble.None? {
      return Err(PreambleNotFound);
    }
    var quality := preamble.value.quality;

    var syncEnd := FindSync(buf, preamble.value.end, bitLen);
    if syncEnd.None? {
      return Err(SyncNotFound);
    }

    var demod := DemodulateSymbols(buf, syncEnd.value, bitLen);
    if demod.None? {
      return Err(InsufficientSymbols);
    }
    var packet := demod.value.packet;

    var expected := SumChecksum(packet);
    if expected != packet[7] {
      return Err(ChecksumMismatch(expected, packet[7]));
    }
    return Ok(DecodeResult(DecodeWord(packet), packet, quality));
  }

  /** The byte count is rejected exactly when it is zero or exceeds the buffer. */
  lemma NotEnoughDataIff(rx: seq<Byte>, readBytes: nat)
    requires |rx| == RxLen
    ensures DecodeSpec(rx, readBytes) == Err(NotEnoughData) <==> readBytes == 0 || readBytes > RxLen
  {
  }

  /** Each stage's failure has its own error, and a stage is reached only when every stage
      before it succeeded. */
  lemma StageErrors(rx: seq<Byte>, n: nat)
    requires |rx| == RxLen && 0 < n <= RxLen
    ensures DecodeSpec(rx, n) == Err(PreambleNotFound) <==> PreambleOf(rx, n).None?
    ensures DecodeSpec(rx, n) == Err(SyncNotFound)
        <==> PreambleOf(rx, n).Some? && SyncOf(rx, n, PreambleOf(rx, n).value.end).None?
    ensures DecodeSpec(rx, n) == Err(InsufficientSymbols)
        <==> (PreambleOf(rx, n).Some? && SyncOf(rx, n, PreambleOf(rx, n).value.end).Some?
              && DemodOf(rx, n, SyncOf(rx, n, PreambleOf(rx, n).value.end).value).None?)
  {
  }

  /** A checksum mismatch reports the sum computed over the demodulated packet and the
      packet's own checksum byte, and they differ. */
  lemma MismatchReported(rx: seq<Byte>, n: nat, expected: Byte, actual: Byte)
    requires |rx| == RxLen
    requires DecodeSpec(rx, n) == Err(ChecksumMismatch(expected, actual))
    ensures 0 < n <= RxLen && PreambleOf(rx, n).Some?
    ensures SyncOf(rx, n, PreambleOf(rx, n).value.end).Some?
    ensures DemodOf(rx, n, SyncOf(rx, n, PreambleOf(rx, n).value.end).value).Some?
    ensures var packet := DemodOf(rx, n, SyncOf(rx, n, PreambleOf(rx, n).value.end).value).value.packet;
      expected == Checksum(packet) && actual == packet[7] && expected != actual
  {
  }

  /** A successful decode carries a packet whose checksum holds, the power word read from
      that packet, and a quality of at least eight; the stages found their marks in order:
      the sync marker after the preamble, the symbols after the sync marker, all within
      the received bits. */
  lemma OkResult(rx: seq<Byte>, n: nat)
    requires |rx| == RxLen
    requires DecodeSpec(rx, n).Ok?
    ensures var d := DecodeSpec(rx, n).value;
      |d.packet| == PacketBytes && Checksum(d.packet) == d.packet[7]
      && d.powerWord == DecodeWord(d.packet) && d.qualityMetric >= MinQuads
    ensures 0 < n <= RxLen && PreambleOf(rx, n).Some?
    ensures var pm := PreambleOf(rx, n).value;
      && SyncOf(rx, n, pm.end).Some?
      && DemodOf(rx, n, SyncOf(rx, n, pm.end).value).Some?
      && pm.quality == DecodeSpec(rx, n).value.qualityMetric
      && DemodOf(rx, n, SyncOf(rx, n, pm.end).value).value.packet == DecodeSpec(rx, n).value.packet
    ensures var pm := PreambleOf(rx, n).value;
      var syncEnd := SyncOf(rx, n, pm.end).value;
      32 <= pm.end && pm.end + SyncBits <= syncEnd
      && syncEnd + 2 * Symbols <= DemodOf(rx, n, syncEnd).value.end <= n * 8
  {
  }

  /** Only the first `readBytes` bytes of the buffer affect the outcome. */
  lemma OnlyReadBytesMatter(rx1: seq<Byte>, rx2: seq<Byte>, readBytes: nat)
    requires |rx1| == |rx2| == RxLen
    requires forall k :: 0 <= k < readBytes && k < RxLen ==> rx1[k] == rx2[k]
    ensures DecodeSpec(rx1, readBytes) == DecodeSpec(rx2, readBytes)
  {
    if 0 < readBytes <= RxLen {
      assert rx1[..readBytes] == rx2[..readBytes];
    }
  }
}
