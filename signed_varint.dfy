/** The signed codec as the source writes it: encode_varint_firstbyte_6 puts
    the sign in bit 7, a continuation flag in bit 6 and |v| mod 64 in bits
    0-5, but only when |v| > 63; encode_varint_7 then writes v itself (not
    |v| shifted right by 6). decode_varint_firstbyte_6 always reads one byte,
    clearing bits 7 and 6 of it in a copy of the input, and decode_varint_7
    continues on that copy; the two parts are OR-ed and negated when bit 7 was
    set. */
module SignedVarint {
  import opened Bits
  import opened VarintGroups
  import opened GroupCodec

  function Abs(v: int): (r: nat)
    ensures r == v || r == -v
  {
    if v < 0 then -v else v
  }

  /** The values of a signed int_t of w bytes for which the codec is
      defined: the range of the type, less the minimum of int32_t and int64_t,
      whose std::abs is undefined (int8_t and int16_t are promoted to int
      first, so their minimum is fine). */
  predicate SignedFits(w: nat, v: int)
    requires IsWidth(w)
  {
    var half := Pow(256, w) / 2;
    -half <= v < half && (w >= 4 ==> v != -half)
  }

  /** What encode_varint_firstbyte_6 appends: nothing for |v| <= 63, else one
      byte with bit 7 the sign, bit 6 set and |v| mod 64 below. */
  function FirstByte(v: int): (r: seq<uint8>)
    ensures |r| == if Abs(v) > 63 then 1 else 0
    ensures |r| == 1 ==>
      && CheckBit(r[0], 7) == (v < 0)
      && CheckBit(r[0], 6)
      && r[0] as int % 64 == Abs(v) % 64
  {
    if Abs(v) > 63 then
      var b := (if v < 0 then 128 else 0) + 64 + Abs(v) % 64;
      DivUnique(b, 128, if v < 0 then 1 else 0, 64 + Abs(v) % 64);
      DivUnique(b, 64, if v < 0 then 3 else 1, Abs(v) % 64);
      [b as uint8]
    else
      []
  }

  /** `octet |= ((uint8_t)(|v| & 63)) | 64` with octet 0 or 128. */
  lemma FirstByteValue(octet: nat, a: nat)
    requires octet == 0 || octet == 128
    ensures BitOr(octet, BitOr(BitAnd(a, 63) % 256, 64)) == octet + 64 + a % 64
  {
    FlaggedValue(6, a);
    var x := BitOr(BitAnd(a, 63) % 256, 64);
    assert x == a % 64 + 64;
    if octet == 128 {
      BitOrCommutes(octet, x);
      assert Pow(2, 7) == 128;
      BitOrDisjoint(x, 1, 7);
    }
  }

  /** encode_varint_firstbyte_6. The value is passed by reference in the
      source but never written, so it is an in-parameter here. */
  method EncodeFirstByte6(w: nat, value: int, output: seq<uint8>) returns (out: seq<uint8>)
    requires IsWidth(w) && SignedFits(w, value)
    ensures out == output + FirstByte(value)
  {
    var octet: uint8 := 0;
    if value < 0 {
      SignBitOfZero();
      octet := SetBit(octet, 7);
    }
    out := output;
    if Abs(value) > 63 {
      FirstByteValue(octet as nat, Abs(value));
      octet := BitOr(octet as nat, BitOr(BitAnd(Abs(value), 63) % 256, 64)) as uint8;
      FirstByteIs(value, octet);
      out := out + [octet];
    }
  }

  /** Setting bit 7 of a zero octet gives 128. */
  lemma SignBitOfZero()
    ensures !CheckBit(0, 7) && Pow(2, 7) == 128
  {
  }

  /** The first byte FirstByte writes for a v with |v| > 63. */
  lemma FirstByteIs(v: int, octet: uint8)
    requires Abs(v) > 63 && octet as int == (if v < 0 then 128 else 0) + 64 + Abs(v) % 64
    ensures FirstByte(v) == [octet]
  {
  }

  /** decode_varint_firstbyte_6: reads the byte at the cursor, reports its low
      six bits and bit 7, clears bits 7 and 6 of it in place and moves the
      cursor by one. No other byte changes. */
  method DecodeFirstByte6(input: array<uint8>, cursor: nat) returns (octet: nat, negative: bool, next: nat)
    requires cursor < input.Length
    modifies input
    ensures octet == old(input[cursor]) as int % 64
    ensures negative == CheckBit(old(input[cursor]), 7)
    ensures input[..] == old(input[..])[cursor := (old(input[cursor]) as int % 64) as uint8]
    ensures next == cursor + 1
  {
    var x := input[cursor];
    octet := 0;
    negative := false;
    if CheckBit(x, 7) {
      x := ResetBit(x, 7);
      negative := true;
    }
    var y := ResetBit(x, 6);
    FirstByteCleared(input[cursor], x, y);
    input[cursor] := y;
    octet := BitOr(octet, BitAnd(y as nat, 63));
    next := cursor + 1;
  }

  /** Clearing bit 7 and then bit 6 of b leaves b mod 64, and masking that
      with 63 changes nothing. */
  lemma FirstByteCleared(b: uint8, x: uint8, y: uint8)
    requires x as int == if CheckBit(b, 7) then b as int - Pow(2, 7) else b as int
    requires y as int == if CheckBit(x, 6) then x as int - Pow(2, 6) else x as int
    ensures y as int == b as int % 64 && BitAnd(y as nat, 63) == y as int
  {
    assert Pow(2, 6) == 64 && Pow(2, 7) == 128;
    ResetValue(b, 7);
    assert x as int == b as int % 128;
    ResetValue(x, 6);
    assert y as int == x as int % 64;
    ModHalf(b as int);
    LowMask(y as nat, 6);
    DivUnique(y as int, 64, 0, y as int);
  }

  /** Clearing the top bit of a number below 2^(pos+1) leaves its remainder
      modulo 2^pos. */
  lemma ResetValue(x: uint8, pos: nat)
    requires pos < 8 && (x as int) < 2 * Pow(2, pos)
    ensures (if CheckBit(x, pos) then x as int - Pow(2, pos) else x as int) == x as int % Pow(2, pos)
  {
    var P := Pow(2, pos);
    if x as int >= P {
      DivUnique(x as int, P, 1, x as int - P);
    } else {
      DivUnique(x as int, P, 0, x as int);
    }
  }

  lemma ModHalf(a: int)
    ensures (a % 128) % 64 == a % 64
  {
    var q, r := a / 128, a % 128;
    DivUnique(a, 64, 2 * q + r / 64, r % 64);
  }

  /** The signed encode_varint: the first byte, then encode_varint_7 of the
      same value. A first byte precedes the groups exactly when |v| > 63, and
      the last byte written has bit 7 clear. */
  function SignedEncoded(v: int): (r: seq<uint8>)
    ensures |r| > |Encoded(7, v)| <==> Abs(v) > 63
    ensures |r| >= 1 && r[|r| - 1] < 128
  {
    EncodedShape(7, v);
    FirstByte(v) + Encoded(7, v)
  }

  /** The copy the signed decoder works on: byte c with bits 7 and 6 cleared. */
  function Cleared(s: seq<uint8>, c: nat): (r: seq<uint8>)
    requires c < |s|
    ensures |r| == |s| && r[c] as int == s[c] as int % 64
    ensures forall i :: 0 <= i < |s| && i != c ==> r[i] == s[i]
  {
    s[c := (s[c] as int % 64) as uint8]
  }

  /** What the signed decode_varint returns: the low six bits of the first
      byte OR-ed with what decode_varint_7 reads after it in the cleared copy,
      negated when bit 7 of the first byte was set; the cursor ends where
      decode_varint_7 leaves it. */
  function SignedDecoded(w: nat, s: seq<uint8>, c: nat): (r: Decoded)
    requires IsWidth(w) && c < |s| && Readable(7, Cleared(s, c), c + 1, w)
    ensures r.cursor == c + 1 || c + 1 < r.cursor <= c + 1 + w
  {
    var rest := Decode(7, Cleared(s, c), c + 1, w);
    var magnitude: int := BitOr(s[c] as int % 64, rest.value);
    Decoded(if s[c] >= 128 then -magnitude else magnitude, rest.cursor)
  }

  /** The signed encode_varint. */
  method EncodeSigned(w: nat, value: int, output: seq<uint8>) returns (out: seq<uint8>)
    requires IsWidth(w) && SignedFits(w, value)
    ensures out == output + SignedEncoded(value)
  {
    var copy := value;
    out := EncodeFirstByte6(w, copy, output);
    out := EncodeVarint7(copy, out);
  }

  /** The signed decode_varint. It works on a copy, so the caller's bytes
      are not touched; the result is negative only when bit 7 of the first
      byte is set, is never positive when it is set, and its magnitude has at
      most 7 * w bits. */
  method DecodeSigned(w: nat, input: seq<uint8>, cursor: nat) returns (ret: int, next: nat)
    requires IsWidth(w) && cursor < |input| && Readable(7, Cleared(input, cursor), cursor + 1, w)
    ensures Decoded(ret, next) == SignedDecoded(w, input, cursor)
    ensures ret < 0 ==> CheckBit(input[cursor], 7)
    ensures CheckBit(input[cursor], 7) ==> ret <= 0
    ensures Abs(ret) < Pow(2, 7 * w)
  {
    var bytes := Copy(input);
    var low, isNegative, afterFirst := DecodeFirstByte6(bytes, cursor);
    assert bytes[..] == Cleared(input, cursor);
    SignBit(input[cursor]);
    assert low == input[cursor] as int % 64 && isNegative == (input[cursor] >= 128);
    var high;
    high, next := DecodeVarint7(bytes[..], afterFirst, w);
    ghost var rest := Decode(7, Cleared(input, cursor), cursor + 1, w);
    assert high == rest.value && next == rest.cursor;
    ret := BitOr(low, high);
    MagnitudeBound(w, low, high);
    if isNegative {
      ret := ret * -1;
    }
  }

  /** `std::vector<uint8_t> bytes = input`: a fresh array holding the same
      bytes. */
  method Copy(input: seq<uint8>) returns (bytes: array<uint8>)
    ensures fresh(bytes) && bytes[..] == input
  {
    bytes := new uint8[|input|](i requires 0 <= i < |input| => input[i]);
  }

  /** Bit 7 of a byte is set exactly when the byte is at least 128. */
  lemma SignBit(x: uint8)
    ensures CheckBit(x, 7) == (x >= 128)
  {
    assert Pow(2, 7) == 128;
    if x >= 128 {
      DivUnique(x as int, 128, 1, x as int - 128);
    } else {
      DivUnique(x as int, 128, 0, x as int);
    }
  }

  lemma MagnitudeBound(w: nat, low: nat, high: nat)
    requires IsWidth(w) && low < 64 && high < Pow(128, w)
    ensures BitOr(low, high) < Pow(2, 7 * w)
  {
    PowOfPow(7, w);
    assert Pow(2, 7) == 128;
    assert Pow(2, 6) == 64;
    PowMonotone(2, 6, 7 * w);
    OrBound(low, high, 7 * w);
  }

  /** Round trip for 63 < v < 2^(7w): the first byte carries v mod 64, the
      rest carries all of v, and OR-ing v mod 64 back into v changes nothing. */
  lemma SignedRoundTrip(w: nat, v: int, prefix: seq<uint8>, suffix: seq<uint8>)
    requires IsWidth(w) && 63 < v < Pow(128, w)
    ensures var s := prefix + SignedEncoded(v) + suffix;
      && |prefix| < |s|
      && Readable(7, Cleared(s, |prefix|), |prefix| + 1, w)
      && SignedDecoded(w, s, |prefix|) == Decoded(v, |prefix| + |SignedEncoded(v)|)
  {
    var first := FirstByte(v)[0];
    var e := Encoded(7, v);
    assert SignedEncoded(v) == [first] + e;
    var s := prefix + [first] + e + suffix;
    assert s == prefix + SignedEncoded(v) + suffix;
    var low := (v % 64) as uint8;
    ClearedLayout(prefix, first, e, suffix);
    RoundTrip(7, v, w, prefix + [low], suffix);
    assert Pow(2, 6) == 64;
    BitOrLowBits(v, 6);
    assert s[|prefix|] < 128;
  }

  /** Clearing the first byte of a layout clears it in place. */
  lemma ClearedLayout(prefix: seq<uint8>, b: uint8, e: seq<uint8>, suffix: seq<uint8>)
    ensures Cleared(prefix + [b] + e + suffix, |prefix|) == prefix + [(b as int % 64) as uint8] + e + suffix
  {
    var s := prefix + [b] + e + suffix;
    var t := prefix + [(b as int % 64) as uint8] + e + suffix;
    assert forall i :: 0 <= i < |s| ==> Cleared(s, |prefix|)[i] == t[i];
  }

  lemma OrSmall()
    ensures BitOr(36, 28) == 60 && BitOr(5, 7) == 7
  {
    assert BitOr(1, 0) == 1;
    assert BitOr(2, 1) == 3;
    assert BitOr(4, 3) == 7;
    assert BitOr(9, 7) == 15;
    assert BitOr(18, 14) == 30;
    assert BitOr(2, 3) == 3;
  }

  /** A byte with bit 7 clear at c is read as one group on its own. */
  lemma SingleGroup(w: nat, s: seq<uint8>, c: nat)
    requires IsWidth(w) && c < |s| && s[c] < 128
    ensures Readable(7, s, c, w)
    ensures Decode(7, s, c, w) == Decoded(s[c] as int, c + 1)
  {
    DivUnique(s[c] as int, 128, 0, s[c] as int);
    assert !Continues(7, s[c]);
    assert Terminator(7, s, c, w) == 0;
    assert GroupsValue(7, s, c, 1) == GroupsValue(7, s, c, 0) + Payload(7, s[c]) * Pow(128, 0);
  }

  /** -100 is written as [228, 28]: the first byte holds the sign, the flag
      and 100 mod 64 = 36, and the second is -100 mod 128 = 28, since
      `value *= 1` keeps the sign. */
  lemma NegativeEncoding()
    ensures SignedEncoded(-100) == [228, 28]
  {
    assert FirstByte(-100) == [228];
    assert Encoded(7, -100) == [28];
  }

  /** [228, 28] is read back as -60, not -100. */
  lemma NegativeMismatch(w: nat)
    requires IsWidth(w)
    ensures SignedEncoded(-100) == [228, 28]
    ensures Readable(7, Cleared([228, 28], 0), 1, w)
    ensures SignedDecoded(w, [228, 28], 0) == Decoded(-60, 2)
  {
    NegativeEncoding();
    var cleared: seq<uint8> := [36, 28];
    assert Cleared([228, 28], 0) == cleared;
    SingleGroup(w, cleared, 1);
    OrSmall();
  }

  /** A value below 64 is written as one byte holding the value itself. */
  lemma SmallEncoding(v: int)
    requires 0 <= v < 64
    ensures SignedEncoded(v) == [v as uint8]
  {
    assert FirstByte(v) == [];
    assert Encoded(7, v) == [(v % 128) as uint8];
    DivUnique(v, 128, 0, v);
  }

  /** 5 is written as the single byte [5], with no first byte, but the decoder
      always takes a first byte: on [5] alone it would read past the end. */
  lemma SmallMagnitudeOverread(w: nat)
    requires IsWidth(w)
    ensures SignedEncoded(5) == [5]
    ensures !Readable(7, Cleared([5], 0), 1, w)
  {
    SmallEncoding(5);
  }

  /** 5 and then 7, written back to back as [5, 7], are read as one value, 7,
      and the cursor moves past both bytes. */
  lemma SmallMagnitudeMerge(w: nat)
    requires IsWidth(w)
    ensures SignedEncoded(5) + SignedEncoded(7) == [5, 7]
    ensures Readable(7, Cleared([5, 7], 0), 1, w)
    ensures SignedDecoded(w, [5, 7], 0) == Decoded(7, 2)
  {
    SmallEncoding(5);
    SmallEncoding(7);
    var cleared: seq<uint8> := [5, 7];
    assert Cleared([5, 7], 0) == cleared;
    SingleGroup(w, cleared, 1);
    OrSmall();
  }
}
