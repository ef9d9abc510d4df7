/** What encode_varint_7/decode_varint_7 and encode_varint_6/decode_varint_6
    compute, stated once for a group size g of 7 or 6 payload bits: the flag
    bit is bit g (128 or 64), groups go least significant first, and the
    decoder stops at the first byte whose flag is clear or after w bytes, where
    w is sizeof(int_t). */
module VarintGroups {
  import opened Bits

  /** The payload bits per byte: 7 for the unsigned codec, 6 for the
      codec whose flag is bit 6. */
  predicate IsGroupBits(g: nat)
  {
    g == 6 || g == 7
  }

  /** sizeof(int_t) for the integer types the codec is instantiated with. */
  predicate IsWidth(w: nat)
  {
    w == 1 || w == 2 || w == 4 || w == 8
  }

  /** The value one group carries: 2^g. */
  function Radix(g: nat): nat
    requires IsGroupBits(g)
  {
    if g == 7 then 128 else 64
  }

  /** The low g bits of a byte, `b & mask`, as a number. */
  function Payload(g: nat, b: uint8): nat
    requires IsGroupBits(g)
  {
    (b as int) % Radix(g)
  }

  /** Whether the continuation flag, bit g (`b & flag`), is set. */
  predicate Continues(g: nat, b: uint8)
    requires IsGroupBits(g)
  {
    (b as int / Radix(g)) % 2 == 1
  }

  lemma RadixIsPow(g: nat)
    requires IsGroupBits(g)
    ensures Radix(g) == Pow(2, g)
  {
    assert Pow(2, 6) == 64;
  }

  /** A byte made of a payload x < 2^g and, when `flag`, the flag bit. */
  lemma ByteFields(g: nat, x: nat, flag: bool)
    requires IsGroupBits(g) && x < Radix(g)
    ensures var b := x + if flag then Radix(g) else 0;
      b < 2 * Radix(g) && b % Radix(g) == x && (b / Radix(g)) % 2 == (if flag then 1 else 0)
  {
    var b := x + if flag then Radix(g) else 0;
    DivUnique(b, Radix(g), if flag then 1 else 0, x);
  }

  /** The bytes encode_varint_g appends for value v: while v is at least 2^g,
      a byte holding v mod 2^g with the flag set, then v is shifted right by g;
      last, a byte holding v mod 2^g with the flag clear, which is what
      `(uint8_t)v & mask` keeps of v (GroupCodec.LastGroup). A negative v,
      reached only through the signed codec, skips the loop. */
  function Encoded(g: nat, v: int): (r: seq<uint8>)
    requires IsGroupBits(g)
    ensures |r| >= 1
    decreases if v < 0 then 0 else v
  {
    if v > Radix(g) - 1 then
      [(v % Radix(g) + Radix(g)) as uint8] + Encoded(g, v / Radix(g))
    else
      [(v % Radix(g)) as uint8]
  }

  /** Every byte but the last has the flag set, the last has it clear, and
      the 6-bit codec never sets bit 7. */
  lemma {:induction false} EncodedShape(g: nat, v: int)
    requires IsGroupBits(g)
    ensures forall i :: 0 <= i < |Encoded(g, v)| - 1 ==> Continues(g, Encoded(g, v)[i])
    ensures !Continues(g, Encoded(g, v)[|Encoded(g, v)| - 1])
    ensures g == 6 ==> forall i :: 0 <= i < |Encoded(g, v)| ==> Encoded(g, v)[i] < 128
    decreases if v < 0 then 0 else v
  {
    var e := Encoded(g, v);
    if v > Radix(g) - 1 {
      ByteFields(g, v % Radix(g), true);
      var rest := Encoded(g, v / Radix(g));
      EncodedShape(g, v / Radix(g));
      assert e == [e[0]] + rest;
      forall i | 1 <= i < |e|
        ensures e[i] == rest[i - 1]
      {
      }
    } else {
      ByteFields(g, v % Radix(g), false);
    }
  }

  /** Minimality: v needs at most n groups exactly when v < 2^(g*n); so
      0..127 take one byte, 128..16383 two, and so on. */
  lemma {:induction false} EncodedLength(g: nat, v: nat, n: nat)
    requires IsGroupBits(g) && n >= 1
    ensures |Encoded(g, v)| <= n <==> v < Pow(Radix(g), n)
    decreases n
  {
    var R := Radix(g);
    if v < R {
      PowMonotone(R, 1, n);
    } else if n == 1 {
      assert |Encoded(g, v)| == 1 + |Encoded(g, v / R)|;
    } else {
      EncodedLength(g, v / R, n - 1);
      assert Pow(R, n) == R * Pow(R, n - 1);
      DivUnique(v, R, v / R, v % R);
      if v < Pow(R, n) {
        assert R * (v / R) < R * Pow(R, n - 1);
      } else {
        assert R * (v / R) + R > R * Pow(R, n - 1);
      }
    }
  }

  lemma EncodedExamples()
    ensures |Encoded(7, 127)| == 1 && |Encoded(7, 128)| == 2
    ensures |Encoded(7, 16383)| == 2 && |Encoded(7, 16384)| == 3
    ensures Encoded(7, 300) == [0xAC, 0x02]
  {
    assert Encoded(7, 2) == [2];
    assert Encoded(7, 1) == [1];
    assert Encoded(7, 127) == [127];
    assert Encoded(7, 16383 / 128) == [127];
    assert Encoded(7, 16384 / 128) == [0x80] + Encoded(7, 1);
  }

  /** The decoders stay inside the input: either all w bytes exist, or a byte
      with the flag clear exists at or after the cursor (the first such byte
      ends the read before the input does). */
  predicate Readable(g: nat, s: seq<uint8>, c: nat, w: nat)
    requires IsGroupBits(g)
  {
    c + w <= |s| || exists j :: c <= j < |s| && !Continues(g, s[j])
  }

  /** The number of flagged bytes the decoder passes before it meets one with
      the flag clear, among the first w from c; w when all of them are flagged. */
  function Terminator(g: nat, s: seq<uint8>, c: nat, w: nat): (t: nat)
    requires IsGroupBits(g) && Readable(g, s, c, w)
    ensures t <= w
    ensures t < w ==> c + t < |s| && !Continues(g, s[c + t])
    ensures t == w ==> c + w <= |s|
    decreases w
  {
    if w == 0 then 0
    else if !Continues(g, s[c]) then 0
    else 1 + Terminator(g, s, c + 1, w - 1)
  }

  /** Every byte the decoder passes before the terminator is flagged. */
  lemma {:induction false} TerminatorFlagged(g: nat, s: seq<uint8>, c: nat, w: nat)
    requires IsGroupBits(g) && Readable(g, s, c, w)
    ensures forall j :: c <= j < c + Terminator(g, s, c, w) ==> j < |s| && Continues(g, s[j])
    decreases w
  {
    if w > 0 && Continues(g, s[c]) {
      TerminatorFlagged(g, s, c + 1, w - 1);
      assert Terminator(g, s, c, w) == 1 + Terminator(g, s, c + 1, w - 1);
      forall j | c <= j < c + Terminator(g, s, c, w)
        ensures j < |s| && Continues(g, s[j])
      {
        if j == c {
          assert c < |s|;
        }
      }
    } else {
      assert Terminator(g, s, c, w) == 0;
    }
  }

  /** The value `ret |= (s[c + i] & mask) << (g * i)` builds from the n
      groups at c, the least significant first. */
  function GroupsValue(g: nat, s: seq<uint8>, c: nat, n: nat): (r: nat)
    requires IsGroupBits(g) && c + n <= |s|
    ensures r < Pow(Radix(g), n)
  {
    if n == 0 then 0
    else
      var low := GroupsValue(g, s, c, n - 1);
      var top := Payload(g, s[c + n - 1]);
      var P := Pow(Radix(g), n - 1);
      PayloadBound(g, s[c + n - 1]);
      NextGroupBound(low, top, P, Radix(g));
      assert Pow(Radix(g), n) == Radix(g) * P;
      low + top * P
  }

  lemma PayloadBound(g: nat, b: uint8)
    requires IsGroupBits(g)
    ensures Payload(g, b) < Radix(g)
  {
  }

  lemma NextGroupBound(low: nat, top: nat, P: nat, R: nat)
    requires low < P && top < R
    ensures low + top * P < R * P
  {
    assert top * P <= (R - 1) * P by {
      assert (R - 1) * P - top * P == (R - 1 - top) * P;
    }
    assert (R - 1) * P + P == R * P;
  }

  /** One step of the decoder loop: OR-ing the next group in adds it. */
  lemma AccumulateStep(g: nat, s: seq<uint8>, c: nat, i: nat)
    requires IsGroupBits(g) && c + i < |s|
    ensures BitOr(GroupsValue(g, s, c, i), Payload(g, s[c + i]) * Pow(Radix(g), i))
         == GroupsValue(g, s, c, i + 1)
  {
    RadixIsPow(g);
    PowOfPow(g, i);
    BitOrDisjoint(GroupsValue(g, s, c, i), Payload(g, s[c + i]), g * i);
  }

  /** The first group, then the rest scaled by 2^g. */
  lemma {:induction false} GroupsValueSplit(g: nat, s: seq<uint8>, c: nat, n: nat)
    requires IsGroupBits(g) && c + n + 1 <= |s|
    ensures GroupsValue(g, s, c, n + 1) == Payload(g, s[c]) + Radix(g) * GroupsValue(g, s, c + 1, n)
    decreases n
  {
    if n > 0 {
      GroupsValueSplit(g, s, c, n - 1);
      var R, first, top := Radix(g), Payload(g, s[c]), Payload(g, s[c + n]);
      var P := Pow(R, n - 1);
      var A := GroupsValue(g, s, c + 1, n - 1);
      SplitStep(GroupsValue(g, s, c, n + 1), GroupsValue(g, s, c, n), first, R, A, top,
                Pow(R, n), P, GroupsValue(g, s, c + 1, n));
    } else {
      assert GroupsValue(g, s, c, 1) == GroupsValue(g, s, c, 0) + Payload(g, s[c]) * Pow(Radix(g), 0);
      assert GroupsValue(g, s, c + 1, 0) == 0;
    }
  }

  lemma SplitStep(whole: int, low: int, first: int, R: int, A: int, top: int, Rn: int, P: int, rest: int)
    requires low == first + R * A && whole == low + top * Rn && Rn == R * P && rest == A + top * P
    ensures whole == first + R * rest
  {
    assert top * (R * P) == R * (top * P);
  }

  /** A decoded value and the cursor left behind. */
  datatype Decoded = Decoded(value: int, cursor: nat)

  /** decode_varint_g with at most n groups: on a byte with the flag clear the
      cursor moves just past it; when all n bytes are flagged the cursor is
      not moved and the n groups are still OR-ed into the value. */
  function Decode(g: nat, s: seq<uint8>, c: nat, n: nat): (r: Decoded)
    requires IsGroupBits(g) && n >= 1 && Readable(g, s, c, n)
    ensures 0 <= r.value < Pow(Radix(g), n)
    ensures r.cursor == c || c < r.cursor <= c + n
  {
    var t := Terminator(g, s, c, n);
    if t < n then
      PowMonotone(Radix(g), t + 1, n);
      Decoded(GroupsValue(g, s, c, t + 1), c + t + 1)
    else
      Decoded(GroupsValue(g, s, c, n), c)
  }

  /** The decoder reads at most n bytes. It stops at the first byte whose flag
      is clear and leaves the cursor just past it; when none of the n bytes
      has the flag clear, the cursor stays where it was and the value is the
      OR of all n groups. */
  lemma DecodeStepBound(g: nat, s: seq<uint8>, c: nat, n: nat)
    requires IsGroupBits(g) && n >= 1 && Readable(g, s, c, n)
    ensures var r := Decode(g, s, c, n);
      && (r.cursor == c <==> c + n <= |s| && forall i :: c <= i < c + n ==> Continues(g, s[i]))
      && (r.cursor == c ==> r.value == GroupsValue(g, s, c, n))
      && (r.cursor != c ==>
            && r.cursor <= |s| && !Continues(g, s[r.cursor - 1])
            && (forall i :: c <= i < r.cursor - 1 ==> Continues(g, s[i]))
            && r.value == GroupsValue(g, s, c, r.cursor - c))
  {
    TerminatorFlagged(g, s, c, n);
  }

  /** The groups of Encoded(g, v), wherever they sit, add back up to v. */
  lemma {:induction false} EncodedValue(g: nat, v: nat, s: seq<uint8>, c: nat)
    requires IsGroupBits(g) && c + |Encoded(g, v)| <= |s|
    requires s[c .. c + |Encoded(g, v)|] == Encoded(g, v)
    ensures GroupsValue(g, s, c, |Encoded(g, v)|) == v
    decreases v
  {
    var R := Radix(g);
    if v > R - 1 {
      var rest := Encoded(g, v / R);
      EncodedAt(g, v, s, c);
      EncodedValue(g, v / R, s, c + 1);
      GroupsValueSplit(g, s, c, |rest|);
      Recombine(GroupsValue(g, s, c, |rest| + 1), Payload(g, s[c]), R, GroupsValue(g, s, c + 1, |rest|), v);
    } else {
      EncodedAt(g, v, s, c);
      DivUnique(v, R, 0, v);
      assert GroupsValue(g, s, c, 1) == GroupsValue(g, s, c, 0) + Payload(g, s[c]) * Pow(R, 0);
    }
  }

  /** The first byte of Encoded(g, v) carries v mod 2^g, and more bytes follow
      exactly when v needs more than one group. */
  lemma EncodedHead(g: nat, v: int)
    requires IsGroupBits(g)
    ensures Payload(g, Encoded(g, v)[0]) == v % Radix(g)
    ensures v > Radix(g) - 1 ==> Encoded(g, v) == [Encoded(g, v)[0]] + Encoded(g, v / Radix(g))
    ensures v <= Radix(g) - 1 ==> |Encoded(g, v)| == 1
    ensures Continues(g, Encoded(g, v)[0]) <==> v > Radix(g) - 1
  {
    if v > Radix(g) - 1 {
      EncodedSplit(g, v);
    } else {
      ByteFields(g, v % Radix(g), false);
    }
  }

  lemma EncodedSplit(g: nat, v: int)
    requires IsGroupBits(g) && v > Radix(g) - 1
    ensures Encoded(g, v) == [Encoded(g, v)[0]] + Encoded(g, v / Radix(g))
    ensures Encoded(g, v)[0] as int == v % Radix(g) + Radix(g)
    ensures Payload(g, Encoded(g, v)[0]) == v % Radix(g) && Continues(g, Encoded(g, v)[0])
  {
    var R := Radix(g);
    var h := (v % R + R) as uint8;
    var t := Encoded(g, v / R);
    assert Encoded(g, v) == [h] + t;
    ByteFields(g, v % R, true);
  }

  /** Where Encoded(g, v) sits in s at c, the bytes for v / 2^g sit at c + 1. */
  lemma EncodedAt(g: nat, v: int, s: seq<uint8>, c: nat)
    requires IsGroupBits(g) && c + |Encoded(g, v)| <= |s|
    requires s[c .. c + |Encoded(g, v)|] == Encoded(g, v)
    ensures Payload(g, s[c]) == v % Radix(g)
    ensures v > Radix(g) - 1 <==> |Encoded(g, v)| > 1
    ensures v > Radix(g) - 1 ==> |Encoded(g, v)| == 1 + |Encoded(g, v / Radix(g))|
    ensures v > Radix(g) - 1 ==>
      s[c + 1 .. c + 1 + |Encoded(g, v / Radix(g))|] == Encoded(g, v / Radix(g))
  {
    var e := Encoded(g, v);
    EncodedHead(g, v);
    assert s[c] == e[0];
    if v > Radix(g) - 1 {
      var rest := Encoded(g, v / Radix(g));
      assert s[c + 1 .. c + 1 + |rest|] == e[1..];
    }
  }

  lemma Recombine(whole: int, first: int, R: int, rest: int, v: int)
    requires R >= 1 && whole == first + R * rest && first == v % R && rest == v / R
    ensures whole == v
  {
  }

  /** The decoder passes exactly the flagged bytes of Encoded(g, v) and stops
      at its last byte, as long as the limit n leaves room for all of them. */
  lemma {:induction false} EncodedTerminator(g: nat, v: nat, s: seq<uint8>, c: nat, n: nat)
    requires IsGroupBits(g) && |Encoded(g, v)| <= n
    requires c + |Encoded(g, v)| <= |s| && s[c .. c + |Encoded(g, v)|] == Encoded(g, v)
    ensures Readable(g, s, c, n)
    ensures Terminator(g, s, c, n) == |Encoded(g, v)| - 1
    decreases v
  {
    var e := Encoded(g, v);
    EncodedHead(g, v);
    EncodedAt(g, v, s, c);
    assert s[c] == e[0];
    if v > Radix(g) - 1 {
      assert Continues(g, s[c]);
      EncodedTerminator(g, v / Radix(g), s, c + 1, n - 1);
      TerminatorStep(g, s, c, n);
    } else {
      assert !Continues(g, s[c]);
      assert Readable(g, s, c, n);
      assert Terminator(g, s, c, n) == 0;
    }
  }

  /** Past a flagged byte the decoder goes on from the next one with one
      group fewer. */
  lemma TerminatorStep(g: nat, s: seq<uint8>, c: nat, n: nat)
    requires IsGroupBits(g) && n >= 1 && c < |s| && Continues(g, s[c])
    requires Readable(g, s, c + 1, n - 1)
    ensures Readable(g, s, c, n)
    ensures Terminator(g, s, c, n) == 1 + Terminator(g, s, c + 1, n - 1)
  {
  }

  /** Round trip: decoding at the end of any prefix followed by Encoded(g, v)
      and anything else gives v back and moves the cursor past exactly the
      encoded bytes, for every v below 2^(g*n). */
  lemma RoundTrip(g: nat, v: nat, n: nat, prefix: seq<uint8>, suffix: seq<uint8>)
    requires IsGroupBits(g) && n >= 1 && v < Pow(Radix(g), n)
    ensures Readable(g, prefix + Encoded(g, v) + suffix, |prefix|, n)
    ensures Decode(g, prefix + Encoded(g, v) + suffix, |prefix|, n)
         == Decoded(v, |prefix| + |Encoded(g, v)|)
  {
    var e := Encoded(g, v);
    var s := prefix + e + suffix;
    Middle(prefix, e, suffix);
    DecodeEncodedAt(g, v, n, s, |prefix|);
  }

  lemma Middle(x: seq<uint8>, y: seq<uint8>, z: seq<uint8>)
    ensures (x + y + z)[|x| .. |x| + |y|] == y
  {
  }

  /** Decoding where Encoded(g, v) sits. */
  lemma DecodeEncodedAt(g: nat, v: nat, n: nat, s: seq<uint8>, c: nat)
    requires IsGroupBits(g) && n >= 1 && v < Pow(Radix(g), n)
    requires c + |Encoded(g, v)| <= |s| && s[c .. c + |Encoded(g, v)|] == Encoded(g, v)
    ensures Readable(g, s, c, n)
    ensures Decode(g, s, c, n) == Decoded(v, c + |Encoded(g, v)|)
  {
    EncodedLength(g, v, n);
    EncodedTerminator(g, v, s, c, n);
    EncodedValue(g, v, s, c);
    DecodeStopsAt(g, s, c, n, |Encoded(g, v)| - 1);
  }

  /** When the t-th byte from c is the first one with the flag clear, decoding
      takes t + 1 groups and moves the cursor past that byte. */
  lemma DecodeStopsAt(g: nat, s: seq<uint8>, c: nat, n: nat, t: nat)
    requires IsGroupBits(g) && n >= 1 && Readable(g, s, c, n)
    requires t < n && Terminator(g, s, c, n) == t
    ensures Decode(g, s, c, n) == Decoded(GroupsValue(g, s, c, t + 1), c + t + 1)
  {
  }
}
