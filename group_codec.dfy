/** The loops of encode_varint_7 / decode_varint_7, encode_varint_6 /
    decode_varint_6 and the unsigned encode_varint / decode_varint, each
    proved against the VarintGroups specification. The bit expressions are
    the source's: `(uint8_t)(value & mask) | flag`, `((uint8_t)value) & mask`,
    `input[i] & mask` shifted left by g * i, and the flag test `input[i] & flag`. */
module GroupCodec {
  import opened Bits
  import opened VarintGroups

  lemma ModOfMod(v: int)
    ensures (v % 256) % 128 == v % 128 && (v % 256) % 64 == v % 64
  {
    var q, r := v / 256, v % 256;
    assert v == 256 * q + r;
    DivUnique(v, 128, 2 * q + r / 128, r % 128);
    DivUnique(v, 64, 4 * q + r / 64, r % 64);
  }

  /** `(uint8_t)(v & mask) | flag`, the byte pushed inside the encoder loop:
      v mod 2^g with the flag set. */
  function FlaggedGroup(g: nat, v: nat): (b: uint8)
    requires IsGroupBits(g)
    ensures b as int == v % Radix(g) + Radix(g)
    ensures Payload(g, b) == v % Radix(g) && Continues(g, b)
  {
    FlaggedValue(g, v);
    ByteFields(g, v % Radix(g), true);
    BitOr(BitAnd(v, Radix(g) - 1) % 256, Radix(g)) as uint8
  }

  lemma FlaggedValue(g: nat, v: nat)
    requires IsGroupBits(g)
    ensures BitOr(BitAnd(v, Radix(g) - 1) % 256, Radix(g)) == v % Radix(g) + Radix(g)
  {
    RadixIsPow(g);
    LowMask(v, g);
    var low := v % Radix(g);
    assert BitAnd(v, Radix(g) - 1) % 256 == low;
    DigitValue(low, g);
    DivUnique(low, Radix(g), 0, low);
    OrPow(low, g);
  }

  /** `((uint8_t)v) & mask`, the byte pushed after the encoder loop: v mod 2^g
      (Euclidean, also for a negative v) with the flag clear. */
  function LastGroup(g: nat, v: int): (b: uint8)
    requires IsGroupBits(g)
    ensures b as int == v % Radix(g)
    ensures Payload(g, b) == v % Radix(g) && !Continues(g, b)
  {
    RadixIsPow(g);
    LowMask(v % 256, g);
    ModOfMod(v);
    ByteFields(g, v % Radix(g), false);
    BitAnd(v % 256, Radix(g) - 1) as uint8
  }

  /** `b & mask`: the payload of a byte. */
  function GroupBits(g: nat, b: uint8): (r: nat)
    requires IsGroupBits(g)
    ensures r == Payload(g, b)
  {
    RadixIsPow(g);
    LowMask(b as nat, g);
    BitAnd(b as nat, Radix(g) - 1)
  }

  /** `b & flag`, nonzero exactly when the byte says another one follows. */
  function FlagBit(g: nat, b: uint8): (r: nat)
    requires IsGroupBits(g)
    ensures (r != 0) == Continues(g, b)
  {
    RadixIsPow(g);
    AndPow(b as nat, g);
    DigitValue(b as nat, g);
    BitAnd(b as nat, Radix(g))
  }

  /** The bytes of Encoded(g, v) for v at least 2^g: one flagged byte, then
      the encoding of v shifted right by g. */
  lemma EncodedStep(g: nat, v: nat, out: seq<uint8>)
    requires IsGroupBits(g) && v > Radix(g) - 1
    ensures out + [FlaggedGroup(g, v)] + Encoded(g, v / Radix(g)) == out + Encoded(g, v)
  {
    EncodedSplit(g, v);
    var h := FlaggedGroup(g, v);
    assert h == Encoded(g, v)[0];
    var t := Encoded(g, v / Radix(g));
    assert out + [h] + t == out + ([h] + t);
  }

  /** encode_varint_7: appends the groups of `value`, least significant first.
      `value *= 1` leaves a negative value as it is, so the loop is skipped. */
  method EncodeVarint7(value: int, output: seq<uint8>) returns (out: seq<uint8>)
    ensures out == output + Encoded(7, value)
  {
    var v := value;
    if v < 0 {
      v := v * 1;
    }
    out := output;
    while v > 127
      invariant out + Encoded(7, v) == output + Encoded(7, value)
      decreases v
    {
      EncodedStep(7, v, out);
      out := out + [FlaggedGroup(7, v)];
      v := v / 128;
    }
    out := out + [LastGroup(7, v)];
  }

  /** encode_varint_6: the same with 6-bit groups and the flag in bit 6. */
  method EncodeVarint6(value: int, output: seq<uint8>) returns (out: seq<uint8>)
    ensures out == output + Encoded(6, value)
  {
    var v := value;
    out := output;
    while v > 63
      invariant out + Encoded(6, v) == output + Encoded(6, value)
      decreases v
    {
      EncodedStep(6, v, out);
      out := out + [FlaggedGroup(6, v)];
      v := v / 64;
    }
    out := out + [LastGroup(6, v)];
  }

  /** One pass of a decoder loop: the group shifted left by g * i and OR-ed
      into the value of the first i groups gives the value of i + 1 groups. */
  lemma ShiftedGroup(g: nat, s: seq<uint8>, c: nat, i: nat)
    requires IsGroupBits(g) && c + i < |s|
    ensures BitOr(GroupsValue(g, s, c, i), GroupBits(g, s[c + i]) * Pow(2, g * i))
         == GroupsValue(g, s, c, i + 1)
  {
    RadixIsPow(g);
    PowOfPow(g, i);
    AccumulateStep(g, s, c, i);
  }

  /** Where a decoder loop stands at group i: every group passed so far was
      flagged, so the next byte exists, and it ends the read exactly when i is
      the terminator. */
  lemma LoopPosition(g: nat, s: seq<uint8>, c: nat, w: nat, i: nat)
    requires IsGroupBits(g) && Readable(g, s, c, w)
    requires i < w && i <= Terminator(g, s, c, w)
    ensures c + i < |s|
    ensures !Continues(g, s[c + i]) <==> i == Terminator(g, s, c, w)
  {
    TerminatorFlagged(g, s, c, w);
  }

  /** decode_varint_7: reads at most w groups from `cursor` (w is
      sizeof(int_t) in the source); the cursor moves past the first byte with
      bit 7 clear, or stays. */
  method DecodeVarint7(input: seq<uint8>, cursor: nat, w: nat) returns (ret: nat, next: nat)
    requires w >= 1 && Readable(7, input, cursor, w)
    ensures Decoded(ret, next) == Decode(7, input, cursor, w)
  {
    ret := 0;
    next := cursor;
    var i := 0;
    while i < w
      invariant i <= w && i <= Terminator(7, input, cursor, w)
      invariant ret == GroupsValue(7, input, cursor, i)
      invariant next == cursor
    {
      LoopPosition(7, input, cursor, w, i);
      ShiftedGroup(7, input, cursor, i);
      ret := BitOr(ret, GroupBits(7, input[cursor + i]) * Pow(2, 7 * i));
      if FlagBit(7, input[cursor + i]) == 0 {
        next := cursor + i + 1;
        break;
      }
      i := i + 1;
    }
  }

  /** decode_varint_6: the same with 6-bit groups and the flag in bit 6. */
  method DecodeVarint6(input: seq<uint8>, cursor: nat, w: nat) returns (ret: nat, next: nat)
    requires w >= 1 && Readable(6, input, cursor, w)
    ensures Decoded(ret, next) == Decode(6, input, cursor, w)
  {
    ret := 0;
    next := cursor;
    var i := 0;
    while i < w
      invariant i <= w && i <= Terminator(6, input, cursor, w)
      invariant ret == GroupsValue(6, input, cursor, i)
      invariant next == cursor
    {
      LoopPosition(6, input, cursor, w, i);
      ShiftedGroup(6, input, cursor, i);
      ret := BitOr(ret, GroupBits(6, input[cursor + i]) * Pow(2, 6 * i));
      if FlagBit(6, input[cursor + i]) == 0 {
        next := cursor + i + 1;
        break;
      }
      i := i + 1;
    }
  }

  /** The unsigned encode_varint for an int_t of w bytes: forwards to
      encode_varint_7. */
  method EncodeUnsigned(w: nat, value: nat, output: seq<uint8>) returns (out: seq<uint8>)
    requires IsWidth(w) && value < Pow(256, w)
    ensures out == output + Encoded(7, value)
  {
    out := EncodeVarint7(value, output);
  }

  /** The unsigned decode_varint for an int_t of w bytes: forwards to
      decode_varint_7. The result has at most 7 * w bits, so it fits int_t
      and no shift overflows it. */
  method DecodeUnsigned(w: nat, input: seq<uint8>, cursor: nat) returns (ret: nat, next: nat)
    requires IsWidth(w) && Readable(7, input, cursor, w)
    ensures Decoded(ret, next) == Decode(7, input, cursor, w)
    ensures ret < Pow(2, 7 * w) <= Pow(256, w)
  {
    ret, next := DecodeVarint7(input, cursor, w);
    WidthBound(w, ret);
  }

  lemma WidthBound(w: nat, x: nat)
    requires x < Pow(128, w)
    ensures x < Pow(2, 7 * w) <= Pow(256, w)
  {
    PowOfPow(7, w);
    PowOfPow(8, w);
    assert Pow(2, 7) == 128 && Pow(2, 8) == 256;
    PowMonotone(2, 7 * w, 8 * w);
  }
}
