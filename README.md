# Variable-length integer codec, modelled in Dafny

This project models the varint codec of `include/serialize/detail/variable_length_encoding.h`.

- **Unsigned integers** are written as base-128 groups, least significant group first. Bit 7 of each byte says whether another byte follows (`encode_varint_7` / `decode_varint_7`). The public unsigned `encode_varint` / `decode_varint` forward to that pair.
- **A 6-bit twin** (`encode_varint_6` / `decode_varint_6`) does the same with base-64 groups and the flag in bit 6.
- **Signed integers** get a first byte, written by `encode_varint_firstbyte_6` and read by `decode_varint_firstbyte_6`. Bit 7 of it is the sign, bit 6 says more follows, and bits 0-5 hold `|v| & 63`. The value itself follows through `encode_varint_7`.
- **The bit helpers** `CHECK_BIT`, `SET_BIT` and `RESET_BIT` complete the core.

The model follows the code as written, including three defects. Each defect is shown by a lemma on a concrete input. Module `CorrectedVarint` then states the evidently intended codec and proves its round trip. That module is a correction, not the source.

Modules:

- **`Bits`**: bytes are `uint8`, the integers 0..255. `&` and `|` are `BitAnd` and `BitOr` on naturals, defined one binary digit at a time. This module holds `CHECK_BIT`, plus `SET_BIT` and `RESET_BIT` as methods returning the updated octet. It proves that the masks keep the low bits, and that OR of disjoint bit ranges is addition.
- **`VarintGroups`**: the specification both group codecs are proved against. Parameters are the group width g (6 or 7) and the loop bound w = sizeof(int_t) (1, 2, 4 or 8).
  - `Encoded(g, v)` is the bytes the encoder appends.
  - `Readable` is the exact condition under which the decoder stays inside the input.
  - `Terminator` is the index of the byte that ends the read.
  - `GroupsValue` is the value the first groups build.
  - `Decode` returns the value and the new cursor.
- **`GroupCodec`**: the source's loops as methods, each proved equal to the specification.
  - `EncodeVarint7` and `EncodeVarint6` are the `while` loops with `>>=` and `push_back`.
  - `DecodeVarint7` and `DecodeVarint6` are the `for` loops with `ret |= ... << (g * i)` and the early `break`.
  - The unsigned entry points are `EncodeUnsigned` and `DecodeUnsigned`.
- **`SignedVarint`**: the first-byte helpers and the signed entry points. `DecodeFirstByte6` clears the bits of `input[cursor]` in place on an `array`. The signed decoder works on a fresh copy, as `auto bytes = input` does.
- **`CorrectedVarint`**: the decode loop bound `ceil(8w / 7)`, and a signed scheme that always writes the first byte and shifts the magnitude by 6. Its decoder `FixedSignedDecoded` reports failure (`None`) when the input ends before the value does, or when no byte with bit 7 clear ends the read within `ceil(8w / 7)` groups.

The integers are unbounded. The source's machine widths appear as preconditions: `SignedFits` for signed values and `v < 256^w` for unsigned ones. They also appear as proved bounds on the decoded results, for example `ret < 2^(7w)`.

## Model

| member | source | states |
|---|---|---|
| Bits.CheckBit | include/serialize/detail/variable_length_encoding.h:9-12 | `value & (1 << pos)` is nonzero exactly when digit `pos` of the octet is 1, that is when `(x / 2^pos) % 2 == 1` |
| Bits.SetBit | include/serialize/detail/variable_length_encoding.h:14-17 | `value OR (1 << pos)` has bit `pos` set and every other bit unchanged; the octet grows by 2^pos unless that bit was already set |
| Bits.ResetBit | include/serialize/detail/variable_length_encoding.h:19-22 | `value & ~(1 << pos)` has bit `pos` clear and every other bit unchanged; the octet shrinks by 2^pos if that bit was set |
| Bits.LowMask | include/serialize/detail/variable_length_encoding.h:45 | `a & (2^k - 1)` is `a mod 2^k`, the mask the encoders and decoders apply to take one group |
| Bits.BitOrDisjoint | include/serialize/detail/variable_length_encoding.h:116 | OR-ing a value below 2^k with a multiple of 2^k adds them, so OR-ing each group shifted by 7 * i into `ret` accumulates the groups' sum |
| Bits.BitOrLowBits | include/serialize/detail/variable_length_encoding.h:163 | OR-ing `v mod 2^k` back into v gives v, which is why positive signed values above 63 survive the overlapping OR |
| VarintGroups.Encoded | include/serialize/detail/variable_length_encoding.h:102-108 | the bytes `encode_varint_7` (g = 7) and `encode_varint_6` (g = 6, lines 43-49) append: at least one byte, since the last `push_back` runs even for 0; their shape, length and value are stated by the lemmas below |
| VarintGroups.EncodedShape | include/serialize/detail/variable_length_encoding.h:39-50 | every encoded byte but the last has the flag set and the last has it clear; every byte of the 6-bit codec has bit 7 clear |
| VarintGroups.EncodedLength | include/serialize/detail/variable_length_encoding.h:102-108 | minimality: the encoding of v takes at most n groups exactly when v < 2^(g*n) |
| VarintGroups.EncodedExamples | include/serialize/detail/variable_length_encoding.h:102-108 | 127 takes one byte and 128 two; 16383 takes two and 16384 three; 300 is written `[0xAC, 0x02]` |
| VarintGroups.Decode | include/serialize/detail/variable_length_encoding.h:111-124 | the decoded value is below 2^(g*n), and the cursor either stays or moves forward by 1 to n bytes |
| VarintGroups.DecodeStepBound | include/serialize/detail/variable_length_encoding.h:115-122 | the cursor stays exactly when all w bytes have the flag set, and the value is then the OR of all w groups; otherwise the cursor lands just past the first byte with the flag clear, every byte before it is flagged, and the value is that of the groups read |
| VarintGroups.TerminatorFlagged | include/serialize/detail/variable_length_encoding.h:115-121 | every byte before the terminator has the flag set |
| VarintGroups.EncodedValue | include/serialize/detail/variable_length_encoding.h:102-108 | the groups of an encoding, wherever they sit, add back up to the encoded value |
| VarintGroups.DecodeEncodedAt | include/serialize/detail/variable_length_encoding.h:95-124 | where the encoding of v < 2^(g*n) sits in the input, decoding from its first byte returns v and moves the cursor exactly past it |
| VarintGroups.RoundTrip | include/serialize/detail/variable_length_encoding.h:95-124 | for v < 2^(g*n), decoding `prefix + encode(v) + suffix` at the end of prefix returns v and advances by the encoded length; g = 6 gives the 6-bit codec of lines 39-50 and 80-93 |
| GroupCodec.FlaggedGroup | include/serialize/detail/variable_length_encoding.h:104 | `(uint8_t)(v & 127)` OR 128 is `v mod 2^g` plus the flag: its payload is `v mod 2^g` and it continues |
| GroupCodec.LastGroup | include/serialize/detail/variable_length_encoding.h:108 | `((uint8_t)v) & 127` is `v mod 2^g`, also for a negative v, with the flag clear |
| GroupCodec.GroupBits | include/serialize/detail/variable_length_encoding.h:116 | `input[i] & 127` is the byte's payload |
| GroupCodec.FlagBit | include/serialize/detail/variable_length_encoding.h:118 | `input[i] & 128` is nonzero exactly when the byte says another one follows |
| GroupCodec.EncodedStep | include/serialize/detail/variable_length_encoding.h:102-107 | one pass of the encoder loop: one flagged byte, then the encoding of `v >> g`, is the encoding of v |
| GroupCodec.EncodeVarint7 | include/serialize/detail/variable_length_encoding.h:95-109 | only appends: the new output is the old output followed by `Encoded(7, value)` |
| GroupCodec.EncodeVarint6 | include/serialize/detail/variable_length_encoding.h:39-50 | only appends: the new output is the old output followed by `Encoded(6, value)` |
| GroupCodec.ShiftedGroup | include/serialize/detail/variable_length_encoding.h:116 | the group shifted left by g * i and OR-ed into the first i groups gives the value of i + 1 groups |
| GroupCodec.LoopPosition | include/serialize/detail/variable_length_encoding.h:115-121 | at pass i the byte exists, and it ends the read exactly when i is the terminator |
| GroupCodec.DecodeVarint7 | include/serialize/detail/variable_length_encoding.h:111-124 | the loop returns exactly `Decode(7, input, cursor, w)`: the value and the new cursor |
| GroupCodec.DecodeVarint6 | include/serialize/detail/variable_length_encoding.h:80-93 | the loop returns exactly `Decode(6, input, cursor, w)` |
| GroupCodec.EncodeUnsigned | include/serialize/detail/variable_length_encoding.h:126-131 | the unsigned encoder appends `Encoded(7, value)` |
| GroupCodec.DecodeUnsigned | include/serialize/detail/variable_length_encoding.h:133-138 | the unsigned decoder returns `Decode(7, ...)`, and its result has at most 7w bits, so it fits int_t |
| SignedVarint.FirstByte | include/serialize/detail/variable_length_encoding.h:24-37 | one byte exactly when abs(v) > 63, else none; the byte has bit 7 set exactly for a negative v, bit 6 set, and low six bits `abs(v) mod 64` |
| SignedVarint.EncodeFirstByte6 | include/serialize/detail/variable_length_encoding.h:24-37 | only appends, and what it appends is `FirstByte(value)` |
| SignedVarint.DecodeFirstByte6 | include/serialize/detail/variable_length_encoding.h:68-77 | returns the byte's low six bits and whether bit 7 was set; clears bits 7 and 6 of that byte in place and changes no other byte; consumes exactly one byte |
| SignedVarint.SignBit | include/serialize/detail/variable_length_encoding.h:70 | bit 7 of a byte is set exactly when the byte is at least 128 |
| SignedVarint.SignedDecoded | include/serialize/detail/variable_length_encoding.h:153-169 | the cursor ends one byte past the first byte, or further by at most w bytes |
| SignedVarint.SignedEncoded | include/serialize/detail/variable_length_encoding.h:144-150 | the signed encoder writes a first byte before the 7-bit groups exactly when abs(v) > 63, and the last byte it writes has bit 7 clear |
| SignedVarint.Copy | include/serialize/detail/variable_length_encoding.h:158 | `auto bytes = input`: a fresh array holding exactly the caller's bytes, so the in-place clear cannot reach them |
| SignedVarint.EncodeSigned | include/serialize/detail/variable_length_encoding.h:140-151 | only appends: the first byte, then `encode_varint_7` of the unchanged value |
| SignedVarint.DecodeSigned | include/serialize/detail/variable_length_encoding.h:153-169 | returns `SignedDecoded` of the caller's bytes, which it does not modify; negative only when bit 7 of the first byte is set, never positive when it is set; magnitude below 2^(7w) |
| SignedVarint.SignedRoundTrip | include/serialize/detail/variable_length_encoding.h:140-169 | for 63 < v < 2^(7w), decoding `prefix + encode(v) + suffix` returns v and consumes exactly the bytes written |
| SignedVarint.NegativeEncoding | include/serialize/detail/variable_length_encoding.h:97-99 | -100 is written `[228, 28]`: `value *= 1` leaves the sign, so the second byte is -100 mod 128 |
| SignedVarint.NegativeMismatch | include/serialize/detail/variable_length_encoding.h:153-169 | `[228, 28]`, the encoding of -100, decodes to -60 |
| SignedVarint.SmallEncoding | include/serialize/detail/variable_length_encoding.h:32-36 | 0 <= v < 64 is written as the single byte v, with no first byte |
| SignedVarint.SmallMagnitudeOverread | include/serialize/detail/variable_length_encoding.h:159 | 5 is written `[5]`, and the decoder, which always takes a first byte, would read past its end |
| SignedVarint.SmallMagnitudeMerge | include/serialize/detail/variable_length_encoding.h:159-163 | 5 then 7, written `[5, 7]`, decode as the single value 7 consuming both bytes |
| CorrectedVarint.WidthFits | include/serialize/detail/variable_length_encoding.h:115 | `ceil(8w/7)` groups hold every value of w bytes |
| CorrectedVarint.WideValue | include/serialize/detail/variable_length_encoding.h:115 | uint8_t 200 is written `[0xC8, 0x01]`, but one group (sizeof(uint8_t)) reads 72 and leaves the cursor unmoved |
| CorrectedVarint.DecodeUnsignedFull | include/serialize/detail/variable_length_encoding.h:133-138 | the unsigned decoder with loop bound `ceil(8w/7)` returns `Decode(7, ...)` with that bound |
| CorrectedVarint.FullWidthRoundTrip | include/serialize/detail/variable_length_encoding.h:111-124 | with the corrected bound, every v < 256^w comes back and the cursor moves exactly past its bytes |
| CorrectedVarint.SignByte | include/serialize/detail/variable_length_encoding.h:24-37 | the corrected first byte: low six bits `abs(v) mod 64`, at least 128 exactly for a negative v, bit 6 set exactly when abs(v) > 63 |
| CorrectedVarint.FixedSignedEncoded | include/serialize/detail/variable_length_encoding.h:140-151 | the corrected encoding always starts with the first byte; its bit 6 is set exactly when bytes follow, its bit 7 exactly when v is negative, and its low six bits are those of abs(v) |
| CorrectedVarint.FixedSignedDecoded | include/serialize/detail/variable_length_encoding.h:153-169 | a successful corrected decode moves the cursor forward and stays inside the input |
| CorrectedVarint.SignFidelity | include/serialize/detail/variable_length_encoding.h:24-37 | v and -v are encoded alike except bit 7 of the first byte |
| CorrectedVarint.CorrectedLength | include/serialize/detail/variable_length_encoding.h:32-36 | the corrected encoding takes at most n + 1 bytes exactly when abs(v) < 64 * 128^n, so abs(v) <= 63 takes one byte |
| CorrectedVarint.FixedSignedRoundTrip | include/serialize/detail/variable_length_encoding.h:140-169 | every signed value of w bytes (bar the undefined minimum) comes back from the corrected scheme wherever its encoding sits, and the cursor moves exactly past it |

## Left out

- `serialize/detail/print_bytes.h`, included at line 3, is not part of this model: it prints bytes for debugging and plays no part in the codec.
- The `std::enable_if` / `std::is_signed_v` template dispatch is a compile-time choice. The model has separate unsigned and signed entry points, and the width sizeof(int_t) is a parameter w in {1, 2, 4, 8}.
- `std::vector` growth and allocation: the output is a sequence the encoders append to and return.
- The by-reference cursor `current_index` is an in-parameter, with the updated cursor returned.
- `SignedVarint.EncodeFirstByte6`: its by-reference `value` is an in-parameter, since the source never writes it. That it stays unchanged holds by construction and is not stated as a contract.
- `Bits.SetBit`, `Bits.ResetBit`: they mutate a by-reference octet in the source. Here they are methods that return the new octet, and the caller assigns it. `DecodeFirstByte6` assigns it into its array in place.
- Machine-level undefined behaviour is excluded by preconditions rather than modelled:
  - `std::abs` of the minimum int32_t / int64_t: `SignedFits` excludes exactly that value. int8_t and int16_t are promoted to int first, so their minimum is fine.
  - Out-of-range indexing in the decoders: `Readable` requires that all w bytes exist or that a byte with the flag clear ends the read first. The first-byte decoder requires the cursor to be inside the input.
  - Signed shift overflow: the decoded magnitude is proved to have at most 7w bits, below the width of int_t.
- Out-of-range reads are a precondition, not an error result. The source has no bounds check and no error path, so there is nothing to model as an error value.
- Machine words and bit-vectors: `&` and `|` are digit-wise operations on naturals, and the `(uint8_t)` casts are `mod 256`. Both are exact for the values the source passes.
- Two encodings back to back are not given a lemma of their own. `VarintGroups.RoundTrip` takes an arbitrary suffix after the encoding and proves the decoder stops exactly at its end.
- Reading back every value of an int_t of w bytes needs `ceil(8w / 7)` groups. The code stops after sizeof(int_t) groups. The model follows the code and gives the corrected bound separately (see Findings).

## Findings

| source | as written | input that shows it | evidently intended | confidence | as-written member | corrected member |
|---|---|---|---|---|---|---|
| include/serialize/detail/variable_length_encoding.h:115 | the decode loop reads at most sizeof(int_t) groups of 7 bits, so values of 2^(7w) and above cannot come back | uint8_t 200 is written `[0xC8, 0x01]`; one group reads 72 and leaves the cursor unmoved | read up to `ceil(8w/7)` groups, so every value of the type round-trips | high; not executed | CorrectedVarint.WideValue | CorrectedVarint.FullWidthRoundTrip |
| include/serialize/detail/variable_length_encoding.h:97-99 | `value *= 1` keeps a negative value negative, so encode_varint_7 writes v mod 128 rather than the magnitude, and the magnitude is not shifted by 6 | -100 is written `[228, 28]` and decodes to -60 | encode abs(v) / 64 after the first byte and decode it back | high; not executed | SignedVarint.NegativeMismatch | CorrectedVarint.FixedSignedRoundTrip |
| include/serialize/detail/variable_length_encoding.h:32-36 | the first byte is written only for abs(v) > 63, but line 159 always reads one | 5 is written `[5]` and the decoder reads past it; 5 then 7, written `[5, 7]`, decode as 7 | always write the first byte, with bit 6 saying whether groups follow | high; not executed | SignedVarint.SmallMagnitudeMerge | CorrectedVarint.FixedSignedRoundTrip |
