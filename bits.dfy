/** Bit-level helpers of the varint codec: the octet type, powers of two,
    bitwise AND and OR on non-negative integers (one binary digit at a time),
    and the single-bit operations CHECK_BIT, SET_BIT and RESET_BIT. */
module Bits {

  /** uint8_t: one octet of the byte vector. */
  newtype uint8 = x: int | 0 <= x < 256

  /** b raised to the n-th power; `Pow(2, k)` is `1 << k`. */
  function Pow(b: nat, n: nat): (r: nat)
    ensures b >= 1 ==> r >= 1
  {
    if n == 0 then 1 else b * Pow(b, n - 1)
  }

  lemma {:induction false} PowAdd(b: nat, m: nat, n: nat)
    ensures Pow(b, m + n) == Pow(b, m) * Pow(b, n)
    decreases n
  {
    if n > 0 {
      PowAdd(b, m, n - 1);
      var x, y := Pow(b, m), Pow(b, n - 1);
      assert Pow(b, m + n) == b * (x * y);
      MulSwap(b, x, y);
    }
  }

  lemma MulSwap(b: int, x: int, y: int)
    ensures b * (x * y) == x * (b * y)
  {
  }

  /** A group of k bits raised to the n-th power is k * n bits: (2^k)^n == 2^(k*n). */
  lemma {:induction false} PowOfPow(k: nat, n: nat)
    ensures Pow(Pow(2, k), n) == Pow(2, k * n)
    decreases n
  {
    if n > 0 {
      PowOfPow(k, n - 1);
      assert k * n == k * (n - 1) + k;
      PowAdd(2, k * (n - 1), k);
    }
  }

  lemma {:induction false} PowMonotone(b: nat, m: nat, n: nat)
    requires b >= 1 && m <= n
    ensures Pow(b, m) <= Pow(b, n)
    decreases n
  {
    if m < n {
      PowMonotone(b, m, n - 1);
      MulMagnitude(Pow(b, n - 1), b);
    }
  }

  lemma MulMagnitude(d: int, k: int)
    requires d >= 1
    ensures k >= 1 ==> d * k >= d
    ensures k <= -1 ==> d * k <= -d
  {
    if k >= 1 {
      assert d * k == d * (k - 1) + d;
    } else if k <= -1 {
      assert d * k == d * (k + 1) - d;
    }
  }

  /** Quotient and remainder are determined by a == d * q + r with 0 <= r < d. */
  lemma DivUnique(a: int, d: int, q: int, r: int)
    requires d >= 1 && 0 <= r < d && a == d * q + r
    ensures a / d == q && a % d == r
  {
    assert a == d * (a / d) + a % d;
    assert d * (a / d - q) == r - a % d;
    MulMagnitude(d, a / d - q);
  }

  lemma DivDiv(a: nat, c: nat)
    requires c >= 1
    ensures a / 2 / c == a / (2 * c)
  {
    var q, r := a / (2 * c), a % (2 * c);
    assert a == (2 * c) * q + r;
    DivUnique(a, 2, c * q + r / 2, r % 2);
    DivUnique(a / 2, c, q, r / 2);
  }

  lemma HalveRemainder(b: nat, q: nat)
    requires q >= 1
    ensures (b % (2 * q)) / 2 == (b / 2) % q
    ensures (b % (2 * q)) % 2 == b % 2
  {
    var t, a := b / (2 * q), b % (2 * q);
    assert b == (2 * q) * t + a;
    DivUnique(b, 2, q * t + a / 2, a % 2);
    DivUnique(b / 2, q, t, a / 2);
  }

  /** Binary digit k of a, counting from 0 at the least significant end. */
  function Digit(a: nat, k: nat): (r: nat)
    ensures r <= 1
  {
    if k == 0 then a % 2 else Digit(a / 2, k - 1)
  }

  /** Digit k is the parity of a / 2^k. */
  lemma {:induction false} DigitValue(a: nat, k: nat)
    ensures Digit(a, k) == (a / Pow(2, k)) % 2
    decreases k
  {
    if k > 0 {
      DigitValue(a / 2, k - 1);
      DivDiv(a, Pow(2, k - 1));
    }
  }

  lemma {:induction false} DigitOfPow(p: nat, q: nat)
    ensures Digit(Pow(2, p), q) == if p == q then 1 else 0
    decreases q
  {
    if q > 0 {
      if p > 0 {
        assert Pow(2, p) / 2 == Pow(2, p - 1);
        DigitOfPow(p - 1, q - 1);
      } else {
        DigitOfZero(0, q - 1);
      }
    } else if p > 0 {
      assert Pow(2, p) == 2 * Pow(2, p - 1);
    }
  }

  lemma {:induction false} DigitOfZero(a: nat, k: nat)
    requires a <= 1
    ensures Digit(a / 2, k) == 0
    decreases k
  {
    if k > 0 {
      DigitOfZero(0, k - 1);
    }
  }

  /** Bitwise AND of two non-negative integers, one binary digit at a time
      from the least significant end: the `&` of the codec. */
  function BitAnd(a: nat, b: nat): (r: nat)
    ensures r <= a && r <= b
    decreases a + b
  {
    if a == 0 || b == 0 then 0
    else 2 * BitAnd(a / 2, b / 2) + (if a % 2 == 1 && b % 2 == 1 then 1 else 0)
  }

  /** Bitwise OR of two non-negative integers, one binary digit at a time
      from the least significant end: the `|` and `|=` of the codec. */
  function BitOr(a: nat, b: nat): (r: nat)
    ensures a <= r && b <= r && r <= a + b
    decreases a + b
  {
    if a == 0 then b
    else if b == 0 then a
    else 2 * BitOr(a / 2, b / 2) + (if a % 2 == 1 || b % 2 == 1 then 1 else 0)
  }

  lemma {:induction false} BitOrCommutes(a: nat, b: nat)
    ensures BitOr(a, b) == BitOr(b, a)
    decreases a + b
  {
    if a != 0 && b != 0 {
      BitOrCommutes(a / 2, b / 2);
    }
  }

  /** Each digit of a & b is set exactly when it is set in both. */
  lemma {:induction false} AndDigit(a: nat, b: nat, k: nat)
    ensures Digit(BitAnd(a, b), k) == if Digit(a, k) == 1 && Digit(b, k) == 1 then 1 else 0
    decreases k
  {
    if a == 0 || b == 0 {
      DigitOfZero(0, k);
      if k > 0 {
        DigitOfZero(0, k - 1);
      }
    } else if k > 0 {
      AndDigit(a / 2, b / 2, k - 1);
    }
  }

  /** Each digit of a | b is set exactly when it is set in either. */
  lemma {:induction false} OrDigit(a: nat, b: nat, k: nat)
    ensures Digit(BitOr(a, b), k) == if Digit(a, k) == 1 || Digit(b, k) == 1 then 1 else 0
    decreases k
  {
    if a == 0 || b == 0 {
      if k > 0 {
        DigitOfZero(0, k - 1);
      }
    } else if k > 0 {
      OrDigit(a / 2, b / 2, k - 1);
    }
  }

  /** a | b stays below 2^n when a and b do. */
  lemma {:induction false} OrBound(a: nat, b: nat, n: nat)
    requires a < Pow(2, n) && b < Pow(2, n)
    ensures BitOr(a, b) < Pow(2, n)
    decreases n
  {
    if n > 0 && a != 0 && b != 0 {
      OrBound(a / 2, b / 2, n - 1);
    }
  }

  /** `a & ((1 << k) - 1)` keeps the low k bits: a mod 2^k. */
  lemma {:induction false} LowMask(a: nat, k: nat)
    ensures BitAnd(a, Pow(2, k) - 1) == a % Pow(2, k)
    decreases k
  {
    var P := Pow(2, k);
    if k == 0 {
      assert P == 1;
    } else if a == 0 {
      DivUnique(0, P, 0, 0);
    } else {
      var q := Pow(2, k - 1);
      assert P == 2 * q;
      LowMask(a / 2, k - 1);
      LowMaskStep(a, q);
    }
  }

  lemma LowMaskStep(a: nat, q: nat)
    requires a > 0 && q >= 1 && BitAnd(a / 2, q - 1) == (a / 2) % q
    ensures BitAnd(a, 2 * q - 1) == a % (2 * q)
  {
    AndOddMask(a, q);
    ModDouble(a, q);
  }

  /** AND with an odd mask keeps the last digit and halves the rest. */
  lemma AndOddMask(a: nat, q: nat)
    requires a > 0 && q >= 1
    ensures BitAnd(a, 2 * q - 1) == 2 * BitAnd(a / 2, q - 1) + a % 2
  {
    var m := 2 * q - 1;
    assert m / 2 == q - 1 && m % 2 == 1;
  }

  lemma ModDouble(a: nat, q: nat)
    requires q >= 1
    ensures a % (2 * q) == 2 * ((a / 2) % q) + a % 2
  {
    HalveRemainder(a, q);
  }

  /** `a & (1 << k)` is digit k of a, in place. */
  lemma {:induction false} AndPow(a: nat, k: nat)
    ensures BitAnd(a, Pow(2, k)) == if Digit(a, k) == 1 then Pow(2, k) else 0
    decreases k
  {
    if a == 0 {
      DigitOfZero(0, k);
      if k > 0 {
        DigitOfZero(0, k - 1);
      }
    } else if k > 0 {
      var h := Pow(2, k - 1);
      assert Pow(2, k) == 2 * h;
      assert (2 * h) / 2 == h && (2 * h) % 2 == 0;
      AndPow(a / 2, k - 1);
    }
  }

  /** `a | (1 << k)` adds 2^k unless digit k of a is already set. */
  lemma {:induction false} OrPow(a: nat, k: nat)
    ensures BitOr(a, Pow(2, k)) == if Digit(a, k) == 1 then a else a + Pow(2, k)
    decreases k
  {
    if a == 0 {
      DigitOfZero(0, k);
      if k > 0 {
        DigitOfZero(0, k - 1);
      }
    } else if k > 0 {
      var h := Pow(2, k - 1);
      assert Pow(2, k) == 2 * h;
      assert (2 * h) / 2 == h && (2 * h) % 2 == 0;
      OrPow(a / 2, k - 1);
      assert BitOr(a, 2 * h) == 2 * BitOr(a / 2, h) + a % 2;
    }
  }

  /** `a & ~(1 << k)`, for an a of n bits, where m is ~(1 << k) within n
      bits: a with digit k cleared. */
  lemma {:induction false} AndClear(a: nat, k: nat, n: nat, m: nat)
    requires k < n && a < Pow(2, n) && m + Pow(2, k) + 1 == Pow(2, n)
    ensures BitAnd(a, m) == if Digit(a, k) == 1 then a - Pow(2, k) else a
    decreases k
  {
    var h := Pow(2, n - 1);
    assert Pow(2, n) == 2 * h;
    if a == 0 {
      DigitOfZero(0, k);
      if k > 0 {
        DigitOfZero(0, k - 1);
      }
    } else if k == 0 {
      MaskHalvesLow(m, h);
      if n > 1 {
        LowMask(a / 2, n - 1);
        DivUnique(a / 2, h, 0, a / 2);
        assert BitAnd(a, m) == 2 * (a / 2);
      }
    } else {
      var p := Pow(2, k - 1);
      assert Pow(2, k) == 2 * p;
      MaskHalves(m, p, h);
      AndClear(a / 2, k - 1, n - 1, m / 2);
      assert BitAnd(a, m) == 2 * BitAnd(a / 2, m / 2) + a % 2;
    }
  }

  /** The digits of `~(1 << k)` within n bits: all but digit k. */
  lemma {:induction false} ClearMaskDigit(k: nat, n: nat, m: nat, q: nat)
    requires k < n && q < n && m + Pow(2, k) + 1 == Pow(2, n)
    ensures Digit(m, q) == if q == k then 0 else 1
    decreases q
  {
    var h := Pow(2, n - 1);
    assert Pow(2, n) == 2 * h;
    if k == 0 {
      MaskHalvesLow(m, h);
      if q > 0 {
        OnesDigit(n - 1, q - 1);
      }
    } else {
      var p := Pow(2, k - 1);
      assert Pow(2, k) == 2 * p;
      MaskHalves(m, p, h);
      if q > 0 {
        ClearMaskDigit(k - 1, n - 1, m / 2, q - 1);
      }
    }
  }

  /** Halving `~(1 << k)` for k > 0: the low digit is 1, the rest is the
      mask one position down. */
  lemma MaskHalves(m: nat, p: nat, h: nat)
    requires m + 2 * p + 1 == 2 * h
    ensures m / 2 + p + 1 == h && m % 2 == 1
  {
    DivUnique(m, 2, h - p - 1, 1);
  }

  /** Halving `~1`: the low digit is 0, the rest is all ones. */
  lemma MaskHalvesLow(m: nat, h: nat)
    requires m + 2 == 2 * h
    ensures m / 2 == h - 1 && m % 2 == 0
  {
    DivUnique(m, 2, h - 1, 0);
  }

  lemma {:induction false} OnesDigit(n: nat, q: nat)
    requires q < n
    ensures Digit(Pow(2, n) - 1, q) == 1
    decreases q
  {
    assert Pow(2, n) == 2 * Pow(2, n - 1);
    if q > 0 {
      OnesDigit(n - 1, q - 1);
    }
  }

  /** CHECK_BIT: whether bit `pos` (0 = least significant) of the octet is set. */
  function CheckBit(x: uint8, pos: nat): (r: bool)
    requires pos < 8
    ensures r == ((x as int / Pow(2, pos)) % 2 == 1)
  {
    AndPow(x as nat, pos);
    DigitValue(x as nat, pos);
    BitAnd(x as nat, Pow(2, pos)) != 0
  }

  lemma ByteBound()
    ensures Pow(2, 8) == 256
  {
  }

  /** CheckBit reads digit pos. */
  lemma CheckBitDigit(x: uint8, pos: nat)
    requires pos < 8
    ensures CheckBit(x, pos) == (Digit(x as nat, pos) == 1)
  {
    AndPow(x as nat, pos);
  }

  /** SET_BIT: the octet with bit `pos` set; it grows by 2^pos unless that bit
      was already set, and no other bit changes. */
  method SetBit(x: uint8, pos: nat) returns (y: uint8)
    requires pos < 8
    ensures y as int == if CheckBit(x, pos) then x as int else x as int + Pow(2, pos)
    ensures CheckBit(y, pos)
    ensures forall q: nat | q < 8 && q != pos :: CheckBit(y, q) == CheckBit(x, q)
  {
    ByteBound();
    PowMonotone(2, pos, 8);
    OrBound(x as nat, Pow(2, pos), 8);
    var r := BitOr(x as nat, Pow(2, pos));
    OrPow(x as nat, pos);
    CheckBitDigit(x, pos);
    y := r as uint8;
    forall q: nat | q < 8
      ensures CheckBit(y, q) == (q == pos || CheckBit(x, q))
    {
      OrDigit(x as nat, Pow(2, pos), q);
      DigitOfPow(pos, q);
      CheckBitDigit(y, q);
      CheckBitDigit(x, q);
    }
  }

  /** RESET_BIT: the octet with bit `pos` cleared; it shrinks by 2^pos if that
      bit was set, and no other bit changes. The mask `~(1 << pos)` is taken
      within the octet, 255 - 2^pos, which is all an octet can keep of it. */
  method ResetBit(x: uint8, pos: nat) returns (y: uint8)
    requires pos < 8
    ensures y as int == if CheckBit(x, pos) then x as int - Pow(2, pos) else x as int
    ensures !CheckBit(y, pos)
    ensures forall q: nat | q < 8 && q != pos :: CheckBit(y, q) == CheckBit(x, q)
  {
    ByteBound();
    PowMonotone(2, pos, 8);
    var m: nat := 255 - Pow(2, pos);
    var r := BitAnd(x as nat, m);
    AndClear(x as nat, pos, 8, m);
    CheckBitDigit(x, pos);
    y := r as uint8;
    forall q: nat | q < 8
      ensures CheckBit(y, q) == (q != pos && CheckBit(x, q))
    {
      AndDigit(x as nat, m, q);
      ClearMaskDigit(pos, 8, m, q);
      CheckBitDigit(y, q);
      CheckBitDigit(x, q);
    }
  }

  /** OR-ing a value below 2^k with a multiple of 2^k touches disjoint bits,
      so it is the same as adding them. */
  lemma {:induction false} BitOrDisjoint(a: nat, m: nat, k: nat)
    requires a < Pow(2, k)
    ensures BitOr(a, m * Pow(2, k)) == a + m * Pow(2, k)
    decreases k
  {
    if k > 0 && a != 0 && m != 0 {
      var half := Pow(2, k - 1);
      assert m * Pow(2, k) == 2 * (m * half);
      assert (m * Pow(2, k)) / 2 == m * half;
      assert (m * Pow(2, k)) % 2 == 0;
      BitOrDisjoint(a / 2, m, k - 1);
    }
  }

  /** OR-ing the low k bits of b back into b changes nothing. */
  lemma {:induction false} BitOrLowBits(b: nat, k: nat)
    ensures BitOr(b % Pow(2, k), b) == b
    decreases k
  {
    var a := b % Pow(2, k);
    if k > 0 && a != 0 && b != 0 {
      HalveRemainder(b, Pow(2, k - 1));
      assert a / 2 == (b / 2) % Pow(2, k - 1);
      BitOrLowBits(b / 2, k - 1);
    }
  }
}
