/** Corrections of the three defects the model exhibits. None of this is
    what the source does; it states what the codec evidently means to do and
    proves it.
    - The unsigned decoder needs ceil(8w/7) groups, not w, to read back every
      value of an int_t of w bytes.
    - The signed scheme always writes the first byte (sign, continuation flag,
      |v| mod 64) and writes |v| / 64, not v, after it when the flag is set. */
module CorrectedVarint {
  import opened Bits
  import opened VarintGroups
  import opened GroupCodec
  import opened SignedVarint

  datatype Option<T> = None | Some(value: T)

  /** ceil(8w / 7): the number of 7-bit groups 8w bits need. */
  function MaxGroups(w: nat): nat
  {
    (8 * w + 6) / 7
  }

  /** Every value of an int_t of w bytes fits in MaxGroups(w) groups. */
  lemma WidthFits(w: nat)
    requires IsWidth(w)
    ensures MaxGroups(w) >= 1 && MaxGroups(w) >= w
    ensures Pow(256, w) <= Pow(128, MaxGroups(w))
  {
    var n := MaxGroups(w);
    assert 8 * w <= 7 * n;
    PowOfPow(8, w);
    PowOfPow(7, n);
    assert Pow(2, 8) == 256 && Pow(2, 7) == 128;
    PowMonotone(2, 8 * w, 7 * n);
  }

  /** uint8_t 200 is written as [0xC8, 0x01], but decode_varint_7 with
      sizeof(uint8_t) = 1 reads only the flagged 0xC8: it returns 72 and
      leaves the cursor where it was. */
  lemma WideValue()
    ensures 200 < Pow(256, 1)
    ensures Encoded(7, 200) == [0xC8, 0x01]
    ensures Readable(7, [0xC8, 0x01], 0, 1)
    ensures Decode(7, [0xC8, 0x01], 0, 1) == Decoded(72, 0)
  {
    assert Encoded(7, 1) == [1];
    var s: seq<uint8> := [0xC8, 0x01];
    assert Continues(7, s[0]);
    assert Terminator(7, s, 0, 1) == 1 + Terminator(7, s, 1, 0);
    assert GroupsValue(7, s, 0, 1) == GroupsValue(7, s, 0, 0) + Payload(7, s[0]) * Pow(128, 0);
  }

  /** The unsigned decode_varint with the loop bound MaxGroups(w). */
  method DecodeUnsignedFull(w: nat, input: seq<uint8>, cursor: nat) returns (ret: nat, next: nat)
    requires IsWidth(w) && Readable(7, input, cursor, MaxGroups(w))
    ensures Decoded(ret, next) == Decode(7, input, cursor, MaxGroups(w))
  {
    WidthFits(w);
    ret, next := DecodeVarint7(input, cursor, MaxGroups(w));
  }

  /** With MaxGroups(w) groups every value of an int_t of w bytes comes back,
      and the cursor moves past exactly the bytes written. */
  lemma FullWidthRoundTrip(w: nat, v: nat, prefix: seq<uint8>, suffix: seq<uint8>)
    requires IsWidth(w) && v < Pow(256, w)
    ensures var s := prefix + Encoded(7, v) + suffix;
      && Readable(7, s, |prefix|, MaxGroups(w))
      && Decode(7, s, |prefix|, MaxGroups(w)) == Decoded(v, |prefix| + |Encoded(7, v)|)
  {
    WidthFits(w);
    RoundTrip(7, v, MaxGroups(w), prefix, suffix);
  }

  /** The corrected first byte: bit 7 the sign, bit 6 set when more bytes
      follow, bits 0-5 |v| mod 64; written for every value. */
  function SignByte(v: int): (b: uint8)
    ensures b as int % 64 == Abs(v) % 64
    ensures (b >= 128) == (v < 0)
    ensures ((b as int / 64) % 2 == 1) == (Abs(v) > 63)
  {
    var sign := if v < 0 then 1 else 0;
    var more := if Abs(v) > 63 then 1 else 0;
    var b := 128 * sign + 64 * more + Abs(v) % 64;
    DivUnique(b, 64, 2 * sign + more, Abs(v) % 64);
    DivUnique(2 * sign + more, 2, sign, more);
    b as uint8
  }

  /** The corrected signed encoding: the first byte, then the 7-bit groups of
      |v| / 64 when the first byte says more follow. Bit 6 of the first byte
      is set exactly when bytes follow it, bit 7 exactly when v is negative,
      and its low six bits are those of |v|. */
  function FixedSignedEncoded(v: int): (r: seq<uint8>)
    ensures |r| >= 1 && r[0] == SignByte(v)
    ensures ((r[0] as int / 64) % 2 == 1) <==> |r| > 1
    ensures (r[0] >= 128) <==> v < 0
    ensures r[0] as int % 64 == Abs(v) % 64
  {
    [SignByte(v)] + (if Abs(v) > 63 then Encoded(7, Abs(v) / 64) else [])
  }

  /** The corrected signed decoding of the bytes at c: the six bits of the
      first byte, plus 64 times the groups that follow when its bit 6 is set,
      negated when its bit 7 is set. */
  function FixedSignedDecoded(n: nat, s: seq<uint8>, c: nat): (r: Option<Decoded>)
    requires n >= 1
    ensures r.Some? ==> c < r.value.cursor <= |s|
  {
    if c >= |s| then None
    else if (s[c] as int / 64) % 2 == 0 then Some(Decoded(WithSign(s[c], s[c] as int % 64), c + 1))
    else if !Readable(7, s, c + 1, n) then None
    else
      var d := Decode(7, s, c + 1, n);
      if d.cursor == c + 1 then None
      else Some(Decoded(WithSign(s[c], s[c] as int % 64 + 64 * d.value), d.cursor))
  }

  /** The magnitude m, negated when bit 7 of the first byte b is set. */
  function WithSign(b: uint8, m: int): int
  {
    if b >= 128 then -m else m
  }

  /** v and -v are written alike but for bit 7 of the first byte. */
  lemma SignFidelity(v: int)
    requires v > 0
    ensures SignByte(-v) as int == SignByte(v) as int + 128
    ensures FixedSignedEncoded(-v)[1..] == FixedSignedEncoded(v)[1..]
  {
    assert Abs(-v) == Abs(v);
    var rest := if Abs(v) > 63 then Encoded(7, Abs(v) / 64) else [];
    assert FixedSignedEncoded(-v) == [SignByte(-v)] + rest;
    assert FixedSignedEncoded(v) == [SignByte(v)] + rest;
  }

  /** Minimality of the corrected encoding: it takes at most n + 1 bytes
      exactly when |v| < 64 * 128^n; so |v| <= 63 takes one byte. */
  lemma CorrectedLength(v: int, n: nat)
    ensures |FixedSignedEncoded(v)| <= n + 1 <==> Abs(v) < 64 * Pow(128, n)
  {
    var a := Abs(v);
    if a > 63 {
      var q := a / 64;
      assert |FixedSignedEncoded(v)| == 1 + |Encoded(7, q)|;
      DivUnique(a, 64, q, a % 64);
      if n == 0 {
        assert Pow(128, 0) == 1;
      } else {
        EncodedLength(7, q, n);
        if q < Pow(128, n) {
          assert 64 * q + 64 <= 64 * Pow(128, n);
        } else {
          assert 64 * q >= 64 * Pow(128, n);
        }
      }
    } else {
      assert |FixedSignedEncoded(v)| == 1;
      assert Pow(128, n) >= 1;
    }
  }

  /** Every value of a signed int_t of w bytes comes back from the corrected
      scheme wherever its encoding sits in the input, read with MaxGroups(w)
      groups, and the cursor moves past exactly the bytes written. */
  lemma FixedSignedRoundTrip(w: nat, v: int, s: seq<uint8>, c: nat)
    requires IsWidth(w) && SignedFits(w, v)
    requires c + |FixedSignedEncoded(v)| <= |s| && s[c .. c + |FixedSignedEncoded(v)|] == FixedSignedEncoded(v)
    ensures FixedSignedDecoded(MaxGroups(w), s, c) == Some(Decoded(v, c + |FixedSignedEncoded(v)|))
  {
    SignedFitsGroups(w, v);
    AtSlice(s, c, FixedSignedEncoded(v));
    if Abs(v) > 63 {
      LongCase(MaxGroups(w), v, s, c);
    } else {
      ShortCase(MaxGroups(w), v, s, c);
    }
  }

  /** |v| / 64 fits in the MaxGroups(w) groups the corrected decoder reads. */
  lemma SignedFitsGroups(w: nat, v: int)
    requires IsWidth(w) && SignedFits(w, v)
    ensures MaxGroups(w) >= 1 && Abs(v) / 64 < Pow(128, MaxGroups(w))
  {
    WidthFits(w);
  }

  /** e sits in s at c, byte by byte. */
  predicate At(s: seq<uint8>, c: nat, e: seq<uint8>)
    decreases |e|
  {
    if |e| == 0 then c <= |s| else c < |s| && s[c] == e[0] && At(s, c + 1, e[1..])
  }

  /** At is the slice equality. */
  lemma {:induction false} AtSlice(s: seq<uint8>, c: nat, e: seq<uint8>)
    ensures At(s, c, e) <==> c + |e| <= |s| && s[c .. c + |e|] == e
    decreases |e|
  {
    if |e| > 0 {
      AtSlice(s, c + 1, e[1..]);
      if c + |e| <= |s| {
        var slice := s[c .. c + |e|];
        assert slice[0] == s[c] && slice[1..] == s[c + 1 .. c + |e|];
        assert slice == e <==> slice[0] == e[0] && slice[1..] == e[1..];
      }
    }
  }

  /** FixedSignedRoundTrip when |v| > 63: the first byte, then the groups. */
  lemma LongCase(n: nat, v: int, s: seq<uint8>, c: nat)
    requires n >= 1 && Abs(v) > 63 && Abs(v) / 64 < Pow(128, n)
    requires At(s, c, FixedSignedEncoded(v))
    ensures FixedSignedDecoded(n, s, c) == Some(Decoded(v, c + |FixedSignedEncoded(v)|))
  {
    SignParts(v);
    LongLayout(v, s, c);
    LongAt(n, v, SignByte(v), Abs(v) / 64, s, c);
  }

  /** The first byte of a long corrected encoding has bit 6 set, and with the
      quotient |v| / 64 it gives v back. */
  lemma SignParts(v: int)
    requires Abs(v) > 63
    ensures (SignByte(v) as int / 64) % 2 == 1
    ensures WithSign(SignByte(v), SignByte(v) as int % 64 + 64 * (Abs(v) / 64)) == v
  {
    Magnitude(v, SignByte(v), Abs(v) / 64);
  }

  /** FixedSignedRoundTrip when |v| <= 63: the first byte alone. */
  lemma ShortCase(n: nat, v: int, s: seq<uint8>, c: nat)
    requires n >= 1 && Abs(v) <= 63 && At(s, c, FixedSignedEncoded(v))
    ensures FixedSignedDecoded(n, s, c) == Some(Decoded(v, c + |FixedSignedEncoded(v)|))
  {
    assert |FixedSignedEncoded(v)| == 1;
    ShortAt(n, v, s, c, SignByte(v));
  }

  /** Where the first byte and the groups of a long corrected encoding sit. */
  lemma LongLayout(v: int, s: seq<uint8>, c: nat)
    requires Abs(v) > 63 && At(s, c, FixedSignedEncoded(v))
    ensures c + |FixedSignedEncoded(v)| == c + 1 + |Encoded(7, Abs(v) / 64)|
    ensures c < |s| && s[c] == SignByte(v)
    ensures At(s, c + 1, Encoded(7, Abs(v) / 64))
  {
    assert FixedSignedEncoded(v)[1..] == Encoded(7, Abs(v) / 64);
  }

  /** A flagged first byte b at c followed by the groups of q. */
  lemma LongAt(n: nat, v: int, b: uint8, q: nat, s: seq<uint8>, c: nat)
    requires n >= 1 && q < Pow(128, n) && (b as int / 64) % 2 == 1
    requires WithSign(b, b as int % 64 + 64 * q) == v
    requires c < |s| && s[c] == b && At(s, c + 1, Encoded(7, q))
    ensures FixedSignedDecoded(n, s, c) == Some(Decoded(v, c + 1 + |Encoded(7, q)|))
  {
    AtSlice(s, c + 1, Encoded(7, q));
    DecodeEncodedAt(7, q, n, s, c + 1);
    FlaggedAt(n, v, b, q, s, c, c + 1 + |Encoded(7, q)|);
  }

  /** A flagged first byte b at c followed by groups that read back as q. */
  lemma FlaggedAt(n: nat, v: int, b: uint8, q: nat, s: seq<uint8>, c: nat, cursor: nat)
    requires n >= 1 && (b as int / 64) % 2 == 1 && WithSign(b, b as int % 64 + 64 * q) == v
    requires c < |s| && s[c] == b && cursor != c + 1
    requires Readable(7, s, c + 1, n) && Decode(7, s, c + 1, n) == Decoded(q, cursor)
    ensures FixedSignedDecoded(n, s, c) == Some(Decoded(v, cursor))
  {
    FlaggedDecoded(n, s, c, Decoded(q, cursor));
  }

  /** |v| <= 63: the first byte alone, with bit 6 clear, holds all of v. */
  lemma ShortAt(n: nat, v: int, s: seq<uint8>, c: nat, b: uint8)
    requires n >= 1 && Abs(v) <= 63 && c < |s| && s[c] == b
    requires b as int % 64 == Abs(v) % 64 && (b >= 128) == (v < 0) && (b as int / 64) % 2 == 0
    ensures FixedSignedDecoded(n, s, c) == Some(Decoded(v, c + 1))
  {
    DivUnique(Abs(v), 64, 0, Abs(v));
    assert WithSign(b, b as int % 64) == v;
  }

  /** The six bits of the first byte and 64 times the rest, signed by bit 7,
      give v back. */
  lemma Magnitude(v: int, b: uint8, q: int)
    requires b as int % 64 == Abs(v) % 64 && (b >= 128) == (v < 0) && q == Abs(v) / 64
    ensures WithSign(b, b as int % 64 + 64 * q) == v
  {
  }

  /** FixedSignedDecoded where the first byte has bit 6 set and the groups
      after it end within n bytes. */
  lemma FlaggedDecoded(n: nat, s: seq<uint8>, c: nat, d: Decoded)
    requires n >= 1 && c < |s| && (s[c] as int / 64) % 2 == 1
    requires Readable(7, s, c + 1, n) && Decode(7, s, c + 1, n) == d && d.cursor != c + 1
    ensures FixedSignedDecoded(n, s, c) == Some(Decoded(WithSign(s[c], s[c] as int % 64 + 64 * d.value), d.cursor))
  {
  }
}
