# Power-meter packet decoder — a Dafny model

This project models the decoding core of a CC1101-based power-meter receiver
(`src/decode.rs`). The radio hands over up to 128 raw bytes. They are read as a bit stream,
most significant bit of each byte first. The decoder then works in stages:

1. It finds a preamble: at least eight consecutive `1100` quads, starting at the first
   offset that still leaves 32 bits and has them.
2. It finds a sync marker: the first sixteen consecutive ones after the preamble, detected
   with a 16-bit shift register.
3. It demodulates 64 pulse-width symbols. Each symbol is a run of zeros followed by a run
   of ones; the symbol is 0 when the zero run is at least as long as the one run. The 64
   symbols are packed into an 8-byte packet.
4. It checks that byte 7 of the packet equals the 8-bit wrapping sum of bytes 0 to 6.
5. It reads the power word from bytes 4 to 6.

The first stage that fails decides the error.

Modules:

- `Outcomes`: the `Option` and `Result` types.
- `Bits`: `bit_at`. It also defines the bit string `BitSeq` of a buffer, its numeric value
  `BitsToNat`, and packing bits into bytes.
- `Preamble`: `find_preamble` and `matches_1100`.
- `Sync`: `find_sync`.
- `Demod`: `demodulate_symbols`.
- `Checksums`: `sum_checksum`.
- `Decoder`: the error and result types, the integer part of `decode_word_from_packet`,
  and `decode_power`.

Each looping Rust function is a Dafny method with the same loops. Its postcondition equates
its answer with a specification function. That function's own contract, and the lemmas
beside it, state what the answer means:

- the first qualifying offset, and that no earlier one qualifies;
- the maximal run;
- the 64 symbols, and the packet bits they produce.

Rust integer widths are written out explicitly:

- `saturating_add` on the `u8` quality counter;
- `wrapping_add` in the checksum;
- the `u8` shift when a symbol is packed;
- the 16-bit mask on the sync register.

## Model

| member | source | states |
|---|---|---|
| Bits.BitAt | src/decode.rs:142-146 | reading bit `i` of the buffer gives 0 or 1 |
| Bits.BitAtIndex | src/decode.rs:142-146 | bit `i` is `(buf[i / 8] >> (7 - i % 8)) & 1`: byte `i / 8`, most significant bit first |
| Bits.BitSeqIndex | src/decode.rs:142-146 | entry `k - lo` of the bit string of bits `lo .. hi-1` is `bit_at(buf, k)` |
| Bits.BitSeqSlice | src/decode.rs:142-146 | a slice of a buffer's bit string is the bit string of that range |
| Bits.PackBitAt | src/decode.rs:114-116 | packing bits eight to a byte, most significant first, and reading them back with `bit_at` returns every bit |
| Bits.UnpackPack | src/decode.rs:142-146 | packing all of a buffer's bits, as `bit_at` reads them, rebuilds the buffer |
| Bits.BytePrefix | src/decode.rs:142-146 | the first `m` bits of byte `k` are its top `m` bits: value `buf[k] >> (8 - m)` |
| Bits.AllOnesValue | src/decode.rs:81-82 | a bit string reads as `2^n - 1` if and only if all its bits are ones |
| Preamble.Matches1100 | src/decode.rs:67-72 | the four bits from `i` of the buffer's bit string are exactly 1, 1, 0, 0 |
| Preamble.Matches1100Value | src/decode.rs:67-72 | the four bits from `i` read 1, 1, 0, 0 if and only if they form the number 0b1100 |
| Preamble.QuadRunMaximal | src/decode.rs:55-58 | the inner loop's count is a maximal run: every counted quad is an in-bounds `1100` quad, and the next one is not |
| Preamble.Saturate | src/decode.rs:54-56 | the `u8` quality counter after `n` `saturating_add(1)` steps: `n` while `n <= 255`, then it stays at 255 |
| Preamble.FirstStart | src/decode.rs:52-63 | the least offset from `from` that leaves 32 bits and starts eight or more quads; none earlier qualifies; none at all when it finds nothing |
| Preamble.PreambleSpec | src/decode.rs:50-65 | no answer if and only if no offset qualifies; an answer's end lies in `32 .. bitLen` and its quality is at least 8 |
| Preamble.PreambleAt | src/decode.rs:50-65 | for the least qualifying start `s` with `n` quads, the answer is `(s + 4n, min(n, 255))`, and `s + 4n <= bitLen` |
| Preamble.FindPreamble | src/decode.rs:50-65 | the nested loops return exactly `PreambleSpec`; the quality counter saturates at 255 |
| Sync.SyncAtOnes | src/decode.rs:81-83 | a marker ends at `e` if and only if `16 <= e <= bitLen` and bits `e-16 .. e-1` are all ones |
| Sync.FirstSync | src/decode.rs:80-86 | the least marker end from `from`; none earlier; none at all when it finds nothing |
| Sync.SyncSpec | src/decode.rs:74-87 | the answer is the least `e >= start + 16` where sixteen ones end, with `e <= bitLen`; no answer if and only if there is no such `e` |
| Sync.WindowShift | src/decode.rs:81 | shifting a bit into the register and masking with 0xFFFF leaves the value of the last sixteen bits read, or of all bits read if fewer |
| Sync.WindowFull | src/decode.rs:82 | once sixteen bits are in, the register equals 0xFFFF if and only if a marker ends there |
| Sync.SyncStep | src/decode.rs:80-85 | one loop turn with a full register: 0xFFFF means the first marker end is `idx + 1`; any other value moves the search on |
| Sync.SyncTurn | src/decode.rs:80-85 | one turn of the loop on `bit_at`: the masked register holds the last (at most) sixteen bits read; `idx + 1 >= start + 16` with 0xFFFF is the first marker end, anything else moves the search on |
| Sync.FindSync | src/decode.rs:74-87 | no answer when `bitLen < 16` or `start >= bitLen - 15`; otherwise exactly `SyncSpec` |
| Demod.Run | src/decode.rs:98-108 | a run starting at `i` stays within the bits |
| Demod.RunMaximal | src/decode.rs:98-108 | a run covers only bits equal to `v`, and the bit after it, if any, differs |
| Demod.MeasureRun | src/decode.rs:98-108 | the inner counting loop returns the length of the maximal run of `v` from `index` |
| Demod.SymbolBit | src/decode.rs:114 | a symbol is 0 if and only if its zero run is at least as long as its one run |
| Demod.ReadPulses | src/decode.rs:97-113 | reads at most `n` symbols; each consumes at least two bits; reading never passes `bitLen` |
| Demod.ReadSymbol | src/decode.rs:98-112 | one turn of the outer loop yields at most `n` symbols, each spanning at least two bits, and ends within `bitLen`; the stop rule is stated by `Demod.ReadPulsesStop` and `Demod.PulsesPositive` |
| Demod.ReadPulsesCode | src/decode.rs:98-112 | the symbols read from `i`, sent again as zero runs followed by one runs (`Encode`), are exactly the bits from `i` up to the offset `e` just past them |
| Demod.LastRunMaximal | src/decode.rs:105-108 | the last one run read is maximal: the bit at `e`, if any, is a zero |
| Demod.ReadPulsesStop | src/decode.rs:97-112 | fewer than `n` symbols are read only when the zero run or the one run at `e` is empty |
| Demod.ReadPulsesEnd | src/decode.rs:97-123 | the returned index is `e` after `n` symbols; otherwise it lies just past the (partly empty) runs at `e` |
| Demod.PulsesPositive | src/decode.rs:110-112 | every symbol read has a non-empty zero run and a non-empty one run |
| Demod.ReadFromThen | src/decode.rs:97-118 | the loop's state after the symbols read so far, plus the reading that remains, equals reading all 64 from the start |
| Demod.ShiftIn | src/decode.rs:116 | shifting the symbol bit into a `u8` byte: the new low bit is the symbol bit, the upper seven bits are the old low seven, the top bit is lost |
| Demod.PacketAfterSnoc | src/decode.rs:115-116 | one more symbol shifts its bit into byte `bit_count / 8` and leaves every other byte alone |
| Demod.PacketAfterFull | src/decode.rs:94-117 | after 64 symbols the packet is the 64 symbol bits packed most significant first |
| Demod.PacketBits | src/decode.rs:110-117 | bit `k` of the packet (byte `k / 8`, bit `7 - k % 8`) is 0 if and only if symbol `k`'s zero run is at least as long as its one run |
| Demod.DemodSpec | src/decode.rs:89-124 | an answer if and only if 64 symbols were read; the packet has 8 bytes; the end index lies at least 128 bits past the start and within `bitLen` |
| Demod.DemodulateSymbols | src/decode.rs:89-124 | the loop returns exactly `DemodSpec` |
| Checksums.SumChecksum | src/decode.rs:126-132 | the `u8` wrapping sum of bytes 0 to 6 is the plain sum of those bytes modulo 256 |
| Checksums.ChecksumIgnoresLast | src/decode.rs:126-132 | byte 7 does not affect the checksum |
| Checksums.SingleByteChangeDetected | src/decode.rs:126-132 | changing any one of bytes 0 to 6 changes the checksum |
| Decoder.DecodeWord | src/decode.rs:134-136 | the mantissa is bytes 4 and 5 big-endian (high byte `p[4]`, low byte `p[5]`, below 0x10000); the exponent plus one is `p[6]` |
| Decoder.DecodePower | src/decode.rs:19-47 | the decoder returns exactly `DecodeSpec` |
| Decoder.NotEnoughDataIff | src/decode.rs:20-22 | the error is `NotEnoughData` if and only if `read_bytes == 0 or read_bytes > 128` |
| Decoder.StageErrors | src/decode.rs:26-32 | each stage's failure maps to its own error, and a stage runs only after every earlier stage succeeded |
| Decoder.MismatchReported | src/decode.rs:34-41 | a checksum mismatch reports the computed sum as `expected` and `packet[7]` as `actual`, and the two differ |
| Decoder.OkResult | src/decode.rs:42-47 | success means the checksum holds, the power word comes from the packet and the quality is at least 8; the marks come in order: preamble end + 16 <= sync end, sync end + 128 <= demod end <= `bitLen` |
| Decoder.OnlyReadBytesMatter | src/decode.rs:23-24 | buffers that agree on the first `read_bytes` bytes decode alike |

## Left out

- The floating-point power value (`SCALE_KW`, the mantissa ratio and the `2 << exponent`
  factor, `src/decode.rs:1` and `137-138`) is left out. The model has no floating point.
  `DecodeResult` carries the integer mantissa and exponent (`powerWord`) instead of
  `power_kw`.
- Decoder.DecodeWord: the exponent is kept as an unbounded integer. The `2 << exponent`
  shift, whose behaviour for negative or large exponents is specific to Rust's `i32`, is
  not modelled.
- The unit tests' concrete captures (`src/decode.rs:152-223`) are not restated as lemmas.
  Their expected powers are floating point, which the model leaves out. Their integer
  outcomes (`quality_metric >= 8`, `InsufficientSymbols`, `ChecksumMismatch`) would mean
  proving `Decoder.DecodeSpec` on a capture of 41 to 104 bytes. That unfolds the preamble
  search over hundreds of offsets, which is beyond the verifier's budget. For every input,
  `Decoder.OkResult`, `Decoder.StageErrors` and `Decoder.MismatchReported` state what those
  outcomes mean.
- The radio driver, register tables, logging and the program entry point
  (`src/cc1101/*`, `src/main.rs`, `src/debug.rs`) are not part of this model. They are
  hardware I/O, constant tables and logging.
- Rust's bit operators (`>>`, `<<`, `|`, `& 1`, `& 0xFFFF`) are written as arithmetic on
  naturals: division and multiplication by powers of two, and remainders.
  `Bits.BitAtIndex` states the source's formula for `bit_at`.
- Demod.DemodulateSymbols: the packet is a `seq<Byte>` value that the loop reassigns. The
  source's `[u8; 8]` is a `Copy` value, so no aliasing is lost. The two inner counting
  loops are `Demod.MeasureRun`.
- `usize` arithmetic is modelled as unbounded. With at most 128 bytes (1024 bits), no index
  in the source comes near overflow, and `bit_len - 15` is guarded by `bit_len < 16`.
