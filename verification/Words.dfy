/** The unsigned 64-bit operators of C on the numbers words stand for, digit by
    digit, and what the shifts and masks of the source come to in arithmetic. */
module Words {
  import opened Common

  datatype BitOp = AND | OR | XOR

  predicate OnBits(op: BitOp, l: bool, r: bool) {
    match op
    case AND => l && r
    case OR => l || r
    case XOR => l != r
  }

  function Truth(b: bool): U64 { if b then 1 else 0 }

  /** The number whose i-th binary digit is `op` of those of `l` and `r`, for i below n. */
  function Digits(op: BitOp, l: nat, r: nat, n: nat): (v: nat)
    ensures v < Power2(n)
  {
    if n == 0 then 0 else Truth(OnBits(op, l % 2 == 1, r % 2 == 1)) + 2 * Digits(op, l / 2, r / 2, n - 1)
  }

  function Bitwise(op: BitOp, l: U64, r: U64): U64 {
    Power2At64();
    Digits(op, l, r, 64)
  }

  function Complement(v: U64): U64 {
    TWO_64 - 1 - v
  }

  /** `v << k`, one place at a time. */
  function ShiftLeft(v: U64, k: nat): U64 {
    if k == 0 then v else 2 * ShiftLeft(v, k - 1) % TWO_64
  }

  lemma {:induction false} ShiftIsProduct(v: U64, k: nat)
    requires v * Power2(k) < TWO_64
    ensures ShiftLeft(v, k) == v * Power2(k)
  {
    if k > 0 {
      Twice(v, Power2(k - 1));
      ShiftIsProduct(v, k - 1);
    }
  }

  /** Shifting multiplies modulo 2^64. */
  lemma {:induction false} ShiftMultiplies(v: U64, k: nat)
    ensures ShiftLeft(v, k) == v * Power2(k) % TWO_64
  {
    if k > 0 {
      ShiftMultiplies(v, k - 1);
      Twice(v, Power2(k - 1));
      TwiceRemainder(v * Power2(k - 1));
    }
  }

  lemma TwiceRemainder(a: nat)
    ensures 2 * (a % TWO_64) % TWO_64 == 2 * a % TWO_64
  {
    SameRemainder(2 * (a % TWO_64), 2 * (a - a % TWO_64));
  }

  /** Shifting keeps the digits that do not leave the word. */
  lemma {:induction false} ShiftKeeps(v: U64, q: nat, r: nat, k: nat)
    requires k < 64 && r < Power2(64 - k) && v == q * Power2(64 - k) + r
    ensures ShiftLeft(v, k) == r * Power2(k) < TWO_64
  {
    Power2At64();
    if k == 0 {
      assert q == 0;
    } else {
      var p, w := Power2(64 - k), Power2(k - 1);
      var r' := r + q % 2 * p;
      Regroup(q, p, r);
      ShiftKeeps(v, q / 2, r', k - 1);
      Power2Product(64 - k, k);
      DropTop(r, q % 2, p, w);
    }
  }

  lemma Regroup(q: nat, p: nat, r: nat)
    requires r < p
    ensures q * p + r == q / 2 * (2 * p) + (r + q % 2 * p) && r + q % 2 * p < 2 * p
  {
    var h, b := q / 2, q % 2;
    assert q == 2 * h + b;
    assert (2 * h + b) * p == h * (2 * p) + b * p;
    assert b == 0 || b == 1;
  }

  lemma DropTop(r: nat, b: nat, p: nat, w: nat)
    requires b < 2 && r < p && p * (2 * w) == TWO_64
    ensures 2 * ((r + b * p) * w) % TWO_64 == r * (2 * w) < TWO_64
  {
    assert 2 * ((r + b * p) * w) == r * (2 * w) + b * (p * (2 * w));
    assert r * (2 * w) < p * (2 * w);
  }

  lemma Twice(v: nat, p: nat)
    ensures v * (2 * p) == 2 * (v * p)
  {
  }

  lemma {:induction false} OrZero(g: nat, n: nat)
    requires g < Power2(n)
    ensures Digits(OR, 0, g, n) == g
  {
    if n > 0 { OrZero(g / 2, n - 1); }
  }

  /** Or-ing a shifted number onto one below it adds it. */
  lemma {:induction false} OrAbove(l: nat, h: nat, g: nat, k: nat, n: nat)
    requires l < Power2(k) && k <= n && h == g * Power2(k) && l + h < Power2(n)
    ensures Digits(OR, l, h, n) == l + h
  {
    if k == 0 {
      OrZero(g, n);
    } else {
      HalveProduct(g, Power2(k - 1));
      OrAbove(l / 2, h / 2, g, k - 1, n - 1);
    }
  }

  lemma HalveProduct(g: nat, p: nat)
    ensures g * (2 * p) / 2 == g * p && g * (2 * p) % 2 == 0
  {
    assert g * (2 * p) == 2 * (g * p);
  }

  lemma {:induction false} AndZero(v: nat, n: nat)
    ensures Digits(AND, v, 0, n) == 0
  {
    if n > 0 { AndZero(v / 2, n - 1); }
  }

  /** Masking with 2^k - 1 leaves the remainder modulo 2^k. */
  lemma {:induction false} AndMask(v: nat, q: nat, r: nat, k: nat, n: nat)
    requires k <= n && r < Power2(k) && v == q * Power2(k) + r
    ensures Digits(AND, v, Power2(k) - 1, n) == r
  {
    if k == 0 {
      AndZero(v, n);
    } else {
      HalveSum(q, r, Power2(k - 1));
      AndMask(v / 2, q, r / 2, k - 1, n - 1);
      HalveMask(v, Power2(k - 1), n);
    }
  }

  lemma HalveSum(q: nat, r: nat, p: nat)
    ensures (q * (2 * p) + r) / 2 == q * p + r / 2 && (q * (2 * p) + r) % 2 == r % 2
  {
    assert q * (2 * p) == 2 * (q * p);
  }

  lemma HalveMask(v: nat, p: nat, n: nat)
    requires p > 0 && n > 0
    ensures Digits(AND, v, 2 * p - 1, n) == v % 2 + 2 * Digits(AND, v / 2, p - 1, n - 1)
  {
    assert (2 * p - 1) / 2 == p - 1 && (2 * p - 1) % 2 == 1;
  }

  /** Testing bit k tells whether the digit of weight 2^k is set. */
  lemma {:induction false} AndBit(v: nat, q: nat, r: nat, k: nat, n: nat)
    requires k < n && r < 2 * Power2(k) && v == q * (2 * Power2(k)) + r
    ensures Digits(AND, v, Power2(k), n) != 0 <==> r >= Power2(k)
  {
    if k == 0 {
      AndZero(v / 2, n - 1);
    } else {
      HalveSum(q, r, 2 * Power2(k - 1));
      AndBit(v / 2, q, r / 2, k - 1, n - 1);
    }
  }

  lemma {:induction false} Power2Product(a: nat, b: nat)
    ensures Power2(a + b) == Power2(a) * Power2(b)
  {
    if a > 0 {
      Power2Product(a - 1, b);
      TwiceTimes(Power2(a - 1), Power2(b));
    }
  }

  lemma TwiceTimes(x: nat, y: nat)
    ensures (2 * x) * y == 2 * (x * y)
  {
  }

  /** Shifting all ones gives the complement of a mask. */
  lemma {:induction false} AllOnesShifted(k: nat)
    requires k < 64
    ensures 2 * Power2(k) <= TWO_64 && ShiftLeft(TWO_64 - 1, k) == Complement(Power2(k) - 1)
  {
    HighOnes(k);
    if k > 0 {
      AllOnesShifted(k - 1);
      TwiceBelow(Power2(k - 1));
    }
  }

  lemma TwiceBelow(p: nat)
    requires 0 < 2 * p <= TWO_64
    ensures 2 * (TWO_64 - p) % TWO_64 == TWO_64 - 2 * p
  {
  }

  lemma HighOnes(k: nat)
    requires k < 64
    ensures TWO_64 - Power2(k) == (Power2(64 - k) - 1) * Power2(k) >= Power2(k)
  {
    Power2At64();
    Power2Product(64 - k, k);
    assert Power2(64 - k) == 2 * Power2(63 - k);
    ScaledOnes(Power2(64 - k), Power2(k));
  }

  lemma ScaledOnes(a: nat, p: nat)
    requires a > 1 && p > 0 && a * p == TWO_64
    ensures (a - 1) * p == TWO_64 - p >= p
  {
    assert (a - 1) * p == a * p - p;
    assert a * p >= 2 * p;
  }

  /** `value | ~mask` for a value within the mask. */
  lemma OrHighOnes(value: U64, k: nat)
    requires k < 64 && value < Power2(k) <= TWO_64
    ensures Bitwise(OR, value, Complement(Power2(k) - 1)) == value + TWO_64 - Power2(k)
  {
    HighOnes(k);
    OrHighPart(value, Complement(Power2(k) - 1), Power2(64 - k) - 1, k);
  }

  lemma OrHighPart(value: U64, h: U64, g: nat, k: nat)
    requires k < 64 && value < Power2(k) && h == g * Power2(k) && value + h < TWO_64
    ensures Bitwise(OR, value, h) == value + h
  {
    Power2At64();
    OrAbove(value, h, g, k, 64);
  }

  lemma DigitsFrom(op: BitOp, u: nat, v: nat, n: nat, a: bool, b: bool, l: nat, r: nat)
    requires n > 0 && u == Truth(a) + 2 * l && v == Truth(b) + 2 * r
    ensures Digits(op, u, v, n) == Truth(OnBits(op, a, b)) + 2 * Digits(op, l, r, n - 1)
  {
    LowAndRest(a, l);
    LowAndRest(b, r);
  }

  lemma LowAndRest(b: bool, v: nat)
    ensures (Truth(b) + 2 * v) % 2 == Truth(b) && (Truth(b) + 2 * v) / 2 == v
  {
  }

  // The lowest digit and the rest of a number.
  lemma Halves(v: nat, n: nat) returns (b: bool, h: nat)
    requires n > 0 && v < Power2(n)
    ensures v == Truth(b) + 2 * h && h < Power2(n - 1)
  {
    b, h := v % 2 == 1, v / 2;
  }

  /** Complementing the digits swaps `and` and `or`. */
  lemma {:induction false} DigitsSwap(l: nat, r: nat, n: nat, p: nat)
    requires p == Power2(n) && l < p && r < p
    ensures Digits(OR, p - 1 - l, p - 1 - r, n) == p - 1 - Digits(AND, l, r, n)
    ensures Digits(AND, p - 1 - l, p - 1 - r, n) == p - 1 - Digits(OR, l, r, n)
  {
    if n > 0 {
      hide Digits;
      var q := Power2(n - 1);
      var a, x := Halves(l, n);
      var b, y := Halves(r, n);
      DigitsSwap(x, y, n - 1, q);
      SwapNext(l, r, n, a, b, x, y, q);
    }
  }

  lemma SwapNext(l: nat, r: nat, n: nat, a: bool, b: bool, x: nat, y: nat, p: nat)
    requires n > 0 && l == Truth(a) + 2 * x && r == Truth(b) + 2 * y && x < p && y < p
    requires Digits(OR, p - 1 - x, p - 1 - y, n - 1) == p - 1 - Digits(AND, x, y, n - 1)
    requires Digits(AND, p - 1 - x, p - 1 - y, n - 1) == p - 1 - Digits(OR, x, y, n - 1)
    ensures Digits(OR, 2 * p - 1 - l, 2 * p - 1 - r, n) == 2 * p - 1 - Digits(AND, l, r, n)
    ensures Digits(AND, 2 * p - 1 - l, 2 * p - 1 - r, n) == 2 * p - 1 - Digits(OR, l, r, n)
  {
    hide Digits, Power2;
    DigitsFrom(AND, l, r, n, a, b, x, y);
    DigitsFrom(OR, l, r, n, a, b, x, y);
    DigitsFrom(AND, 2 * p - 1 - l, 2 * p - 1 - r, n, !a, !b, p - 1 - x, p - 1 - y);
    DigitsFrom(OR, 2 * p - 1 - l, 2 * p - 1 - r, n, !a, !b, p - 1 - x, p - 1 - y);
  }

  lemma ComplementSwaps(l: U64, r: U64)
    ensures Bitwise(OR, Complement(l), Complement(r)) == Complement(Bitwise(AND, l, r))
    ensures Bitwise(AND, Complement(l), Complement(r)) == Complement(Bitwise(OR, l, r))
  {
    Power2At64();
    hide Digits, Power2;
    DigitsSwap(l, r, 64, TWO_64);
  }

  /** Digit by digit, `xor` undoes itself, and `and` is the carry of a sum. */
  lemma {:induction false} DigitsAdd(l: nat, r: nat, n: nat)
    requires l < Power2(n) && r < Power2(n)
    ensures Digits(XOR, Digits(XOR, l, r, n), r, n) == l
    ensures Digits(AND, l, r, n) + Digits(OR, l, r, n) == l + r
    ensures Digits(XOR, l, r, n) + 2 * Digits(AND, l, r, n) == l + r
  {
    if n > 0 {
      hide Digits, Power2;
      var a, x := Halves(l, n);
      var b, y := Halves(r, n);
      DigitsAdd(x, y, n - 1);
      DigitsFrom(AND, l, r, n, a, b, x, y);
      DigitsFrom(OR, l, r, n, a, b, x, y);
      DigitsFrom(XOR, l, r, n, a, b, x, y);
      DigitsFrom(XOR, Digits(XOR, l, r, n), r, n, OnBits(XOR, a, b), b, Digits(XOR, x, y, n - 1), y);
    }
  }

  lemma BitwiseAdds(l: U64, r: U64)
    ensures Bitwise(XOR, Bitwise(XOR, l, r), r) == l
    ensures Bitwise(AND, l, r) + Bitwise(OR, l, r) == l + r
    ensures Bitwise(XOR, l, r) + 2 * Bitwise(AND, l, r) == l + r
  {
    Power2At64();
    hide Digits, Power2;
    DigitsAdd(l, r, 64);
    assert Bitwise(XOR, l, r) < Power2(64);
  }

  /** Flipping the topmost bit adds or subtracts its weight. */
  lemma TopBit(v: U64)
    ensures Power2(63) == 0x8000_0000_0000_0000 && Bitwise(XOR, v, 0x8000_0000_0000_0000) == (v + 0x8000_0000_0000_0000) % TWO_64
  {
    hide Digits, Power2;
    Power2At63();
    BitwiseAdds(v, 0x8000_0000_0000_0000);
    var h := v / 0x8000_0000_0000_0000;
    AndTop(v, h, v % 0x8000_0000_0000_0000, 63);
  }

  lemma Power2At63()
    ensures Power2(63) == 0x8000_0000_0000_0000
  {
    Power2At64();
    Power2Next(63);
  }

  lemma Power2Next(n: nat)
    ensures Power2(n + 1) == 2 * Power2(n)
  {
  }

  /** What `and` with the topmost digit leaves. */
  lemma {:induction false} AndTop(v: nat, h: nat, r: nat, n: nat)
    requires r < Power2(n) && h < 2 && v == h * Power2(n) + r
    ensures Digits(AND, v, Power2(n), n + 1) == h * Power2(n)
  {
    if n == 0 {
    } else {
      HalveSum(h, r, Power2(n - 1));
      HalveProduct(1, Power2(n - 1));
      AndTop(v / 2, h, r / 2, n - 1);
      Twice(h, Power2(n - 1));
    }
  }
}
