/** What the operators of src/expr_eval.c compute, as laws between the values of
    expressions: for arbitrary operands, memory and type tables. */
module ExprLaws {
  import opened Common
  import opened Words
  import opened Scalars
  import opened ExprEval
  import opened ExprSyntax

  // The bit pattern an expression evaluates to.
  function Bits(env: Env, e: Expr): Option<U64> {
    match EvalValue(env, e)
    case None => None
    case Some(v) => Some(v.value)
  }

  function Const(v: U64): Expr { Num(v, false) }

  /** A binary operation fails exactly when an operand does or a divisor is zero: no
      operator skips its right operand. */
  lemma BinaryFailsIff(env: Env, op: BinOp, a: Expr, b: Expr)
    ensures Bits(env, Binary(op, a, b)).None? <==>
            Bits(env, a).None? || Bits(env, b).None? || ((op == DIV || op == MOD) && Bits(env, b) == Some(0))
  {
  }

  lemma BinaryBits(env: Env, op: BinOp, a: Expr, b: Expr)
    requires Bits(env, a).Some? && Bits(env, b).Some?
    ensures Bits(env, Binary(op, a, b)) == Combine(Bits(env, a).value, Bits(env, b).value, op)
  {
  }

  lemma ConstBits(env: Env, v: U64)
    ensures Bits(env, Const(v)) == Some(v)
  {
  }

  /** `a + b` is `b + a`, `a + (b + c)` is `(a + b) + c` and `a + 0` is `a`. */
  lemma Sums(env: Env, a: Expr, b: Expr, c: Expr)
    requires Bits(env, a).Some? && Bits(env, b).Some? && Bits(env, c).Some?
    ensures Bits(env, Binary(ADD, a, b)) == Bits(env, Binary(ADD, b, a))
    ensures Bits(env, Binary(ADD, a, Binary(ADD, b, c))) == Bits(env, Binary(ADD, Binary(ADD, a, b), c))
    ensures Bits(env, Binary(ADD, a, Const(0))) == Bits(env, a)
  {
    hide Bits, Combine;
    SumValues(Bits(env, a).value, Bits(env, b).value, Bits(env, c).value);
    BinaryBits(env, ADD, a, b);
    BinaryBits(env, ADD, b, a);
    BinaryBits(env, ADD, b, c);
    BinaryBits(env, ADD, a, Binary(ADD, b, c));
    BinaryBits(env, ADD, Binary(ADD, a, b), c);
    ConstBits(env, 0);
    BinaryBits(env, ADD, a, Const(0));
  }

  lemma AddIs(x: U64, y: U64)
    ensures Combine(x, y, ADD) == Some((x + y) % TWO_64)
  {
  }

  lemma MulIs(x: U64, y: U64)
    ensures Combine(x, y, MUL) == Some(x * y % TWO_64)
  {
  }

  lemma SumValues(x: U64, y: U64, z: U64)
    ensures Combine(x, y, ADD).Some? && Combine(y, z, ADD).Some? && Combine(x, y, ADD) == Combine(y, x, ADD)
    ensures Combine(x, Combine(y, z, ADD).value, ADD) == Combine(Combine(x, y, ADD).value, z, ADD)
    ensures Combine(x, 0, ADD) == Some(x)
  {
    hide Combine;
    var xi: int, yi: int, zi: int := x, y, z;
    AddIs(y, z);
    AddIs(x, y);
    AddIs(y, x);
    AddIs(x, 0);
    AddIs(x, (yi + zi) % TWO_64);
    AddIs((xi + yi) % TWO_64, z);
    DropRemainder(xi, yi + zi);
    DropRemainder(zi, xi + yi);
  }

  /** `(a - b) + b` is `a`. */
  lemma DifferencePlus(env: Env, a: Expr, b: Expr)
    requires Bits(env, a).Some? && Bits(env, b).Some?
    ensures Bits(env, Binary(ADD, Binary(SUB, a, b), b)) == Bits(env, a)
  {
    hide Bits, Combine;
    DifferenceValues(Bits(env, a).value, Bits(env, b).value);
    BinaryBits(env, SUB, a, b);
    BinaryBits(env, ADD, Binary(SUB, a, b), b);
  }

  lemma DifferenceValues(x: U64, y: U64)
    ensures Combine(x, y, SUB).Some? && Combine(Combine(x, y, SUB).value, y, ADD) == Some(x)
  {
    var xi: int, yi: int := x, y;
    DropRemainder(yi, xi - yi);
  }

  lemma DropRemainder(a: int, b: int)
    ensures (a + b % TWO_64) % TWO_64 == (a + b) % TWO_64 == (b % TWO_64 + a) % TWO_64
  {
    SameRemainder(a + b % TWO_64, b - b % TWO_64);
  }

  /** `a * (b + c)` is `a * b + a * c`, `a * b` is `b * a` and `a * 1` is `a`. */
  lemma Products(env: Env, a: Expr, b: Expr, c: Expr)
    requires Bits(env, a).Some? && Bits(env, b).Some? && Bits(env, c).Some?
    ensures Bits(env, Binary(MUL, a, Binary(ADD, b, c))) == Bits(env, Binary(ADD, Binary(MUL, a, b), Binary(MUL, a, c)))
    ensures Bits(env, Binary(MUL, a, b)) == Bits(env, Binary(MUL, b, a))
    ensures Bits(env, Binary(MUL, a, Const(1))) == Bits(env, a)
  {
    hide Bits, Combine;
    ProductValues(Bits(env, a).value, Bits(env, b).value, Bits(env, c).value);
    BinaryBits(env, ADD, b, c);
    BinaryBits(env, MUL, a, Binary(ADD, b, c));
    BinaryBits(env, MUL, a, b);
    BinaryBits(env, MUL, b, a);
    BinaryBits(env, MUL, a, c);
    BinaryBits(env, ADD, Binary(MUL, a, b), Binary(MUL, a, c));
    ConstBits(env, 1);
    BinaryBits(env, MUL, a, Const(1));
  }

  lemma ProductValues(x: U64, y: U64, z: U64)
    ensures Combine(y, z, ADD).Some? && Combine(x, y, MUL).Some? && Combine(x, z, MUL).Some?
    ensures Combine(x, Combine(y, z, ADD).value, MUL) == Combine(Combine(x, y, MUL).value, Combine(x, z, MUL).value, ADD)
    ensures Combine(x, y, MUL) == Combine(y, x, MUL) && Combine(x, 1, MUL) == Some(x)
  {
    hide Combine, Times;
    TimesIs(x, y);
    TimesIs(y, x);
    TimesIs(x, z);
    TimesIs(x, 1);
    TimesIs(x, Plus(y, z));
    AddIs(y, z);
    AddIs(Times(x, y), Times(x, z));
    TimesLaws(x, y, z);
  }

  function Times(x: U64, y: U64): U64 {
    x * y % TWO_64
  }

  lemma TimesIs(x: U64, y: U64)
    ensures Combine(x, y, MUL) == Some(Times(x, y))
  {
  }

  lemma TimesLaws(x: U64, y: U64, z: U64)
    ensures Times(x, Plus(y, z)) == Plus(Times(x, y), Times(x, z))
    ensures Times(x, y) == Times(y, x) && Times(x, 1) == x
  {
    Distributes(x, y, z);
    Commutes(x, y);
  }

  lemma Commutes(x: int, y: int)
    ensures x * y == y * x
  {
  }

  lemma Distributes(x: U64, y: U64, z: U64)
    ensures x * ((y + z) % TWO_64) % TWO_64 == (x * y % TWO_64 + x * z % TWO_64) % TWO_64
  {
    var q := (y + z) / TWO_64;
    assert y + z == TWO_64 * q + (y + z) % TWO_64;
    Expand(x, y, z, q, (y + z) % TWO_64);
    Wraps(x * ((y + z) % TWO_64), x * q);
    DropRemainder(x * z, x * y);
    DropRemainder(x * y % TWO_64, x * z);
  }

  lemma Expand(x: nat, y: nat, z: nat, q: nat, r: nat)
    requires y + z == TWO_64 * q + r
    ensures x * y + x * z == x * r + TWO_64 * (x * q)
  {
    assert x * (y + z) == x * (TWO_64 * q) + x * r;
  }

  lemma Wraps(a: int, k: int)
    ensures (a + TWO_64 * k) % TWO_64 == a % TWO_64
  {
  }

  /** `(a / b) * b + a % b` is `a` and `a % b` below `b`, unless `b` is zero; then neither
      `a / b` nor `a % b` has a value. */
  lemma DivisionInverts(env: Env, a: Expr, b: Expr)
    requires Bits(env, a).Some? && Bits(env, b).Some?
    ensures var quotient, remainder := Binary(DIV, a, b), Binary(MOD, a, b);
            if Bits(env, b) == Some(0) then Bits(env, quotient).None? && Bits(env, remainder).None?
            else Bits(env, Binary(ADD, Binary(MUL, quotient, b), remainder)) == Bits(env, a)
                 && Bits(env, remainder).Some? && Bits(env, remainder).value < Bits(env, b).value
  {
    hide Bits, Combine;
    DivisionValues(Bits(env, a).value, Bits(env, b).value);
    BinaryBits(env, DIV, a, b);
    BinaryBits(env, MOD, a, b);
    if Bits(env, b) != Some(0) {
      var quotient, remainder := Binary(DIV, a, b), Binary(MOD, a, b);
      BinaryBits(env, MUL, quotient, b);
      BinaryBits(env, ADD, Binary(MUL, quotient, b), remainder);
    }
  }

  lemma DivisionValues(x: U64, y: U64)
    ensures var q, r := Combine(x, y, DIV), Combine(x, y, MOD);
            if y == 0 then q.None? && r.None?
            else q.Some? && r.Some? && r.value < y && Combine(q.value, y, MUL).Some?
                 && Combine(Combine(q.value, y, MUL).value, r.value, ADD) == Some(x)
  {
    if y != 0 { Divides(x, y, x / y, x % y); }
  }

  lemma Divides(x: U64, y: U64, q: nat, r: nat)
    requires y != 0 && q == x / y && r == x % y
    ensures q * y + r == x && 0 <= q * y <= x && r < y && q * y % TWO_64 == q * y
  {
  }

  /** The six comparisons give 0 or 1; exactly one of `<`, `==` and `>` holds, `<=`, `>=`
      and `!=` are the opposites of `>`, `<` and `==`; `<` compares unsigned values. */
  lemma Comparisons(env: Env, a: Expr, b: Expr)
    requires Bits(env, a).Some? && Bits(env, b).Some?
    ensures Bits(env, Binary(LT, a, b)) == Some(1) <==> Bits(env, a).value < Bits(env, b).value
    ensures Bits(env, Binary(EQ, a, b)) == Some(1) <==> Bits(env, a) == Bits(env, b)
    ensures Bits(env, Binary(GT, a, b)) == Bits(env, Binary(LT, b, a))
    ensures Bits(env, Binary(ADD, Binary(ADD, Binary(LT, a, b), Binary(EQ, a, b)), Binary(GT, a, b))) == Some(1)
    ensures Bits(env, Binary(LE, a, b)) == Bits(env, Unary(NOT, Binary(GT, a, b)))
    ensures Bits(env, Binary(GE, a, b)) == Bits(env, Unary(NOT, Binary(LT, a, b)))
    ensures Bits(env, Binary(NE, a, b)) == Bits(env, Unary(NOT, Binary(EQ, a, b)))
  {
    hide Bits, Combine;
    ComparisonValues(Bits(env, a).value, Bits(env, b).value);
    BinaryBits(env, LT, a, b);
    BinaryBits(env, LT, b, a);
    BinaryBits(env, EQ, a, b);
    BinaryBits(env, GT, a, b);
    BinaryBits(env, LE, a, b);
    BinaryBits(env, GE, a, b);
    BinaryBits(env, NE, a, b);
    BinaryBits(env, ADD, Binary(LT, a, b), Binary(EQ, a, b));
    BinaryBits(env, ADD, Binary(ADD, Binary(LT, a, b), Binary(EQ, a, b)), Binary(GT, a, b));
    NotBits(env, Binary(GT, a, b));
    NotBits(env, Binary(LT, a, b));
    NotBits(env, Binary(EQ, a, b));
  }

  lemma ComparisonValues(x: U64, y: U64)
    ensures Combine(x, y, LT) == Some(Truth(x < y)) && Combine(y, x, LT) == Some(Truth(y < x))
    ensures Combine(x, y, EQ) == Some(Truth(x == y)) && Combine(x, y, GT) == Some(Truth(y < x))
    ensures Combine(x, y, LE) == Some(Truth(x <= y)) && Combine(x, y, GE) == Some(Truth(x >= y)) && Combine(x, y, NE) == Some(Truth(x != y))
    ensures Combine(Truth(x < y), Truth(x == y), ADD).Some?
    ensures Combine(Combine(Truth(x < y), Truth(x == y), ADD).value, Truth(y < x), ADD) == Some(1)
  {
  }

  lemma NotBits(env: Env, a: Expr)
    ensures Bits(env, Unary(NOT, a)) == match Bits(env, a) case None => None case Some(v) => Some(Truth(v == 0))
  {
  }

  /** `!a` is `a == 0`, so that `!!a` is the truth of `a`; `a && b` and `a || b` are the
      bitwise operations on the truths of both operands. */
  lemma Truths(env: Env, a: Expr, b: Expr)
    requires Bits(env, a).Some? && Bits(env, b).Some?
    ensures Bits(env, Unary(NOT, a)) == Bits(env, Binary(EQ, a, Const(0)))
    ensures Bits(env, Unary(NOT, Unary(NOT, a))) == Bits(env, Binary(NE, a, Const(0)))
    ensures Bits(env, Binary(LAND, a, b)) == Bits(env, Binary(BAND, Unary(NOT, Unary(NOT, a)), Unary(NOT, Unary(NOT, b))))
    ensures Bits(env, Binary(LOR, a, b)) == Bits(env, Binary(BOR, Unary(NOT, Unary(NOT, a)), Unary(NOT, Unary(NOT, b))))
  {
    hide Bits, Combine;
    TruthValues(Bits(env, a).value, Bits(env, b).value);
    var ta, tb := Unary(NOT, Unary(NOT, a)), Unary(NOT, Unary(NOT, b));
    NotBits(env, a);
    NotBits(env, Unary(NOT, a));
    NotBits(env, b);
    NotBits(env, Unary(NOT, b));
    ConstBits(env, 0);
    BinaryBits(env, EQ, a, Const(0));
    BinaryBits(env, NE, a, Const(0));
    BinaryBits(env, LAND, a, b);
    BinaryBits(env, LOR, a, b);
    BinaryBits(env, BAND, ta, tb);
    BinaryBits(env, BOR, ta, tb);
  }

  lemma TruthValues(x: U64, y: U64)
    ensures Combine(x, 0, EQ) == Some(Truth(x == 0)) && Combine(x, 0, NE) == Some(Truth(Truth(x == 0) == 0))
    ensures Combine(x, y, LAND) == Combine(Truth(Truth(x == 0) == 0), Truth(Truth(y == 0) == 0), BAND)
    ensures Combine(x, y, LOR) == Combine(Truth(Truth(x == 0) == 0), Truth(Truth(y == 0) == 0), BOR)
  {
    hide Combine;
    EqualIs(x, 0);
    BothIs(x, y);
    var p, q := x != 0, y != 0;
    assert Truth(Truth(x == 0) == 0) == Truth(p) && Truth(Truth(y == 0) == 0) == Truth(q);
    BitwiseTruths(p, q);
  }

  lemma EqualIs(x: U64, y: U64)
    ensures Combine(x, y, EQ) == Some(Truth(x == y)) && Combine(x, y, NE) == Some(Truth(x != y))
  {
  }

  lemma BothIs(x: U64, y: U64)
    ensures Combine(x, y, LAND) == Some(Truth(x != 0 && y != 0)) && Combine(x, y, LOR) == Some(Truth(x != 0 || y != 0))
  {
  }

  lemma BitwiseTruths(p: bool, q: bool)
    ensures Combine(Truth(p), Truth(q), BAND) == Some(Truth(p && q)) && Combine(Truth(p), Truth(q), BOR) == Some(Truth(p || q))
  {
    OnTruths(AND, p, q);
    OnTruths(OR, p, q);
  }

  lemma OnTruths(op: BitOp, p: bool, q: bool)
    requires op != XOR
    ensures Bitwise(op, Truth(p), Truth(q)) == Truth(OnBits(op, p, q))
  {
    hide Power2, Digits;
    BothZero(op, 63);
    DigitsFrom(op, Truth(p), Truth(q), 64, p, q, 0, 0);
  }

  lemma {:induction false} BothZero(op: BitOp, n: nat)
    ensures Digits(op, 0, 0, n) == 0
  {
    if n > 0 { BothZero(op, n - 1); }
  }

  /** Shifting by `k` below 64 multiplies by 2^k modulo 2^64, or divides by 2^k. */
  lemma Shifts(env: Env, a: Expr, k: Expr)
    requires Bits(env, a).Some? && Bits(env, k).Some? && Bits(env, k).value < 64
    ensures Bits(env, Binary(SHL, a, k)) == Some(Bits(env, a).value * Power2(Bits(env, k).value) % TWO_64)
    ensures Bits(env, Binary(SHL, a, k)) == Bits(env, Binary(MUL, a, Binary(SHL, Const(1), k)))
    ensures Bits(env, Binary(SHR, a, k)) == Bits(env, Binary(DIV, a, Binary(SHL, Const(1), k)))
    ensures Bits(env, Binary(SHL, Const(1), k)) == Some(Power2(Bits(env, k).value))
  {
    hide Bits, Combine;
    ShiftValues(Bits(env, a).value, Bits(env, k).value);
    var one := Binary(SHL, Const(1), k);
    ConstBits(env, 1);
    BinaryBits(env, SHL, a, k);
    BinaryBits(env, SHL, Const(1), k);
    BinaryBits(env, SHR, a, k);
    BinaryBits(env, MUL, a, one);
    BinaryBits(env, DIV, a, one);
  }

  lemma ShiftValues(x: U64, n: U64)
    requires n < 64
    ensures 0 < Power2(n) < TWO_64
    ensures Combine(x, n, SHL) == Some(x * Power2(n) % TWO_64) && Combine(1, n, SHL) == Some(Power2(n))
    ensures Combine(x, n, SHL) == Combine(x, Power2(n), MUL) && Combine(x, n, SHR) == Combine(x, Power2(n), DIV)
  {
    hide Combine, Power2, ShiftLeft, Quotient;
    PowerFits(n);
    ShiftMultiplies(x, n);
    ShiftMultiplies(1, n);
    var p: U64 := Power2(n);
    ShiftIs(x, n);
    ShiftIs(1, n);
    MulIs(x, p);
    DivIs(x, p);
  }

  lemma ShiftIs(x: U64, n: U64)
    requires n < 64
    ensures Combine(x, n, SHL) == Some(ShiftLeft(x, n)) && Combine(x, n, SHR) == Some(Quotient(x, Power2(n)))
  {
    hide Power2, ShiftLeft, Quotient;
    assert n % 64 == n;
  }

  lemma DivIs(x: U64, y: U64)
    requires y != 0
    ensures Combine(x, y, DIV) == Some(Quotient(x, y))
  {
  }

  lemma PowerFits(n: nat)
    requires n < 64
    ensures Power2(n) < TWO_64
  {
    HighOnes(n);
  }

  /** `~(a & b)` is `~a | ~b` and `~(a | b)` is `~a & ~b`. */
  lemma DeMorgan(env: Env, a: Expr, b: Expr)
    requires Bits(env, a).Some? && Bits(env, b).Some?
    ensures Bits(env, Unary(BNOT, Binary(BAND, a, b))) == Bits(env, Binary(BOR, Unary(BNOT, a), Unary(BNOT, b)))
    ensures Bits(env, Unary(BNOT, Binary(BOR, a, b))) == Bits(env, Binary(BAND, Unary(BNOT, a), Unary(BNOT, b)))
  {
    hide Bits, Combine, Bitwise;
    var x, y := Bits(env, a).value, Bits(env, b).value;
    BinaryBits(env, BAND, a, b);
    BinaryBits(env, BOR, a, b);
    BitwiseIs(x, y);
    ComplementBits(env, a);
    ComplementBits(env, b);
    ComplementBits(env, Binary(BAND, a, b));
    ComplementBits(env, Binary(BOR, a, b));
    BinaryBits(env, BAND, Unary(BNOT, a), Unary(BNOT, b));
    BinaryBits(env, BOR, Unary(BNOT, a), Unary(BNOT, b));
    BitwiseIs(Complement(x), Complement(y));
    ComplementSwaps(x, y);
  }

  lemma ComplementBits(env: Env, a: Expr)
    requires Bits(env, a).Some?
    ensures Bits(env, Unary(BNOT, a)) == Some(Complement(Bits(env, a).value))
  {
  }

  lemma BitwiseIs(x: U64, y: U64)
    ensures Combine(x, y, BAND) == Some(Bitwise(AND, x, y)) && Combine(x, y, BOR) == Some(Bitwise(OR, x, y))
    ensures Combine(x, y, BXOR) == Some(Bitwise(XOR, x, y))
  {
    hide Bitwise;
  }

  /** `(a ^ b) ^ b` is `a`, `(a & b) + (a | b)` is `a + b`, and so is `(a ^ b) + 2 * (a & b)`. */
  lemma BitwiseSums(env: Env, a: Expr, b: Expr)
    requires Bits(env, a).Some? && Bits(env, b).Some?
    ensures Bits(env, Binary(BXOR, Binary(BXOR, a, b), b)) == Bits(env, a)
    ensures Bits(env, Binary(ADD, Binary(BAND, a, b), Binary(BOR, a, b))) == Bits(env, Binary(ADD, a, b))
    ensures Bits(env, Binary(ADD, Binary(BXOR, a, b), Binary(MUL, Const(2), Binary(BAND, a, b)))) == Bits(env, Binary(ADD, a, b))
  {
    hide Bits, Combine, Bitwise;
    var x, y := Bits(env, a).value, Bits(env, b).value;
    BinaryBits(env, BAND, a, b);
    BinaryBits(env, BOR, a, b);
    BinaryBits(env, BXOR, a, b);
    BinaryBits(env, ADD, a, b);
    BitwiseIs(x, y);
    BitwiseAdds(x, y);
    BinaryBits(env, BXOR, Binary(BXOR, a, b), b);
    BitwiseIs(Bitwise(XOR, x, y), y);
    ConstBits(env, 2);
    BinaryBits(env, MUL, Const(2), Binary(BAND, a, b));
    MulIs(2, Bitwise(AND, x, y));
    BinaryBits(env, ADD, Binary(BAND, a, b), Binary(BOR, a, b));
    BinaryBits(env, ADD, Binary(BXOR, a, b), Binary(MUL, Const(2), Binary(BAND, a, b)));
    AddIs(x, y);
    AddIs(Bitwise(AND, x, y), Bitwise(OR, x, y));
    AddIs(Bitwise(XOR, x, y), 2 * Bitwise(AND, x, y) % TWO_64);
    DropRemainder(Bitwise(XOR, x, y), 2 * Bitwise(AND, x, y));
  }

  /** For `k` below 64, `a & ((1 << k) - 1)` is `a % (1 << k)`. */
  lemma MaskIsRemainder(env: Env, a: Expr, k: Expr)
    requires Bits(env, a).Some? && Bits(env, k).Some? && Bits(env, k).value < 64
    ensures var one := Binary(SHL, Const(1), k);
            Bits(env, Binary(BAND, a, Binary(SUB, one, Const(1)))) == Bits(env, Binary(MOD, a, one))
  {
    hide Bits, Combine, Bitwise, Power2;
    var one := Binary(SHL, Const(1), k);
    var x, n := Bits(env, a).value, Bits(env, k).value;
    Shifts(env, a, k);
    PowerFits(n);
    ConstBits(env, 1);
    var p: U64 := Power2(n);
    BinaryBits(env, SUB, one, Const(1));
    SubIs(p, 1);
    BinaryBits(env, BAND, a, Binary(SUB, one, Const(1)));
    BitwiseIs(x, p - 1);
    BinaryBits(env, MOD, a, one);
    ModIs(x, p);
    MaskTakes(x, n);
  }

  lemma SubIs(x: U64, y: U64)
    ensures Combine(x, y, SUB) == Some((x as int - y) % TWO_64)
  {
  }

  lemma ModIs(x: U64, y: U64)
    requires y != 0
    ensures Combine(x, y, MOD) == Some(x % y)
  {
  }

  lemma MaskTakes(x: U64, n: nat)
    requires n < 64
    ensures 0 < Power2(n) <= TWO_64 && Bitwise(AND, x, Power2(n) - 1) == x % Power2(n)
  {
    PowerFits(n);
    hide Power2, Digits;
    var q, r := Decompose(x, Power2(n));
    AndMask(x, q, r, n, 64);
  }

  lemma Decompose(x: nat, p: nat) returns (q: nat, r: nat)
    requires p > 0
    ensures x == q * p + r && r < p && r == x % p
  {
    q, r := x / p, x % p;
  }

  /** `x + -x` is 0 and `~x + 1` is `-x`, unless `x` is floating-point; of a floating-point
      value, `-x` flips the topmost bit. */
  lemma Negations(env: Env, x: Expr)
    requires EvalValue(env, x).Some?
    ensures !EvalValue(env, x).value.isFloat ==> Bits(env, Binary(ADD, x, Unary(NEG, x))) == Some(0)
    ensures !EvalValue(env, x).value.isFloat ==> Bits(env, Binary(ADD, Unary(BNOT, x), Const(1))) == Bits(env, Unary(NEG, x))
    ensures EvalValue(env, x).value.isFloat ==> Bits(env, Unary(NEG, x)) == Bits(env, Binary(BXOR, x, Binary(SHL, Const(1), Const(63))))
    ensures Bits(env, Unary(NEG, Unary(NEG, x))) == Bits(env, x) && Bits(env, Unary(POS, x)) == Bits(env, x)
  {
    hide EvalValue, ApplyUnary;
    var v := EvalValue(env, x).value;
    UnaryValue(env, NEG, x);
    UnaryValue(env, POS, x);
    UnaryValue(env, NEG, Unary(NEG, x));
    NegationValues(v);
    if v.isFloat { FloatNegation(env, x, v.value); } else { WordNegation(env, x, v.value); }
  }

  lemma UnaryValue(env: Env, op: UnOp, x: Expr)
    requires EvalValue(env, x).Some?
    ensures EvalValue(env, Unary(op, x)) == Some(ApplyUnary(op, EvalValue(env, x).value))
  {
  }

  lemma NegationValues(v: Value)
    ensures ApplyUnary(NEG, ApplyUnary(NEG, v)).value == v.value == ApplyUnary(POS, v).value
    ensures ApplyUnary(NEG, v).value == if v.isFloat then (v.value + 0x8000_0000_0000_0000) % TWO_64 else (TWO_64 - v.value) % TWO_64
  {
  }

  lemma FloatNegation(env: Env, x: Expr, v: U64)
    requires Bits(env, x) == Some(v)
    ensures Bits(env, Binary(BXOR, x, Binary(SHL, Const(1), Const(63)))) == Some((v + 0x8000_0000_0000_0000) % TWO_64)
  {
    hide Bits, Combine, Bitwise, Power2;
    ConstBits(env, 1);
    ConstBits(env, 63);
    Shifts(env, Const(1), Const(63));
    BinaryBits(env, BXOR, x, Binary(SHL, Const(1), Const(63)));
    TopBit(v);
    BitwiseIs(v, 0x8000_0000_0000_0000);
  }

  lemma WordNegation(env: Env, x: Expr, v: U64)
    requires Bits(env, x) == Some(v) && Bits(env, Unary(NEG, x)) == Some((TWO_64 - v) % TWO_64)
    ensures Bits(env, Binary(ADD, x, Unary(NEG, x))) == Some(0)
    ensures Bits(env, Binary(ADD, Unary(BNOT, x), Const(1))) == Bits(env, Unary(NEG, x))
  {
    hide Bits, Combine, Complement;
    var minus: U64 := (TWO_64 - v) % TWO_64;
    BinaryBits(env, ADD, x, Unary(NEG, x));
    AddIs(v, minus);
    ComplementBits(env, x);
    ConstBits(env, 1);
    BinaryBits(env, ADD, Unary(BNOT, x), Const(1));
    AddIs(Complement(v), 1);
    NegationSums(v);
  }

  lemma NegationSums(v: U64)
    ensures (v + (TWO_64 - v) % TWO_64) % TWO_64 == 0 && (Complement(v) + 1) % TWO_64 == (TWO_64 - v) % TWO_64
  {
  }

  // A signed number as it is written: a literal, or a negated one.
  function Literal(k: I64): Expr {
    var m: int := k;
    if m >= 0 then Const(m) else Unary(NEG, Const(0 - m))
  }

  /** Values narrower than a word are not sign-extended: of a variable or other place
      `x` of one to seven bytes, `x` equals the signed number it holds if and only if that
      is not negative. */
  lemma NarrowIsUnsigned(env: Env, mem: Bytes, x: Expr)
    requires env.read == ReaderOf(mem) && (x.Ident? || IsPlace(x)) && EvalLvalue(env, x).Some? && 1 <= EvalLvalue(env, x).value.size < 8
    requires Bits(env, x).Some?
    ensures var held := SignExtend(Bits(env, x).value, EvalLvalue(env, x).value.size);
            Bits(env, Binary(EQ, x, Literal(held))) == Some(Truth(held >= 0))
  {
    var size := EvalLvalue(env, x).value.size;
    var v := Bits(env, x).value;
    assert env.read(EvalLvalue(env, x).value.addr, size) == Some(v);
    LiteralBits(env, SignExtend(v, size));
    SignExtendIs(v, size);
    PowerBound(size);
    hide Bits, EvalLvalue, SignExtend, Combine;
    BinaryBits(env, EQ, x, Literal(SignExtend(v, size)));
    EqualIs(v, Bits(env, Literal(SignExtend(v, size))).value);
    HeldIs(v, Power256(size), SignExtend(v, size));
  }

  lemma LiteralBits(env: Env, k: I64)
    ensures Bits(env, Literal(k)) == Some(k % TWO_64)
  {
    var m: int := k;
    if m < 0 {
      ConstBits(env, 0 - m);
      UnaryValue(env, NEG, Const(0 - m));
    }
  }

  lemma HeldIs(v: U64, p: nat, held: I64)
    requires 0 < p < TWO_64 && p % 2 == 0 && v < p && held == if v % p >= p / 2 then v % p - p else v % p
    ensures v == held % TWO_64 <==> held >= 0
  {
    ModUnique(v, p, 0, v);
    Below(v, p, held);
  }

  lemma Below(v: U64, p: nat, held: I64)
    requires 0 < p < TWO_64 && v < p && (held == v || held == v - p)
    ensures v == held % TWO_64 <==> held >= 0
  {
  }

  // The size of a scalar goes by the words in the name of its type.

  lemma Lacks(t: string, word: string, k: nat)
    requires k < |word| && word[k] !in t
    ensures !Mentions(t, word)
  {
    forall i | 0 <= i <= |t| - |word| ensures !WordAt(t, word, i) {
      var piece := t[i..i + |word|];
      assert piece[k] == t[i + k];
    }
  }

  lemma Has(t: string, word: string, i: nat)
    requires i + |word| <= |t| && t[i..i + |word|] == word
    ensures Mentions(t, word)
  {
    assert WordAt(t, word, i);
  }

  /** The integer types of C that are named by keywords have the sizes they have in the
      debuggee. */
  lemma KeywordSizes(prefix: string)
    requires prefix == "" || prefix == "unsigned "
    ensures ScalarSize(prefix + "char") == 1 && ScalarSize(prefix + "short") == 2
    ensures ScalarSize(prefix + "int") == 4 && ScalarSize(prefix + "long") == 8
  {
    hide ScalarSize;
    forall c | c == '*' || c == 'c' || c == 'h' || c == 'l' ensures c !in prefix {}
    CharSize(prefix);
    ShortSize(prefix);
    IntSize(prefix, "");
    assert prefix + "int" + "" == prefix + "int";
    LongSize(prefix);
  }

  lemma CharSize(prefix: string)
    requires '*' !in prefix
    ensures ScalarSize(prefix + "char") == 1
  {
    Has(prefix + "char", "char", |prefix|);
  }

  lemma ShortSize(prefix: string)
    requires '*' !in prefix && 'c' !in prefix
    ensures ScalarSize(prefix + "short") == 2
  {
    Lacks(prefix + "short", "char", 0);
    Has(prefix + "short", "short", |prefix|);
  }

  lemma IntSize(prefix: string, suffix: string)
    requires forall c | c == '*' || c == 'c' || c == 'h' || c == 'l' :: c !in prefix && c !in suffix
    ensures ScalarSize(prefix + "int" + suffix) == 4
  {
    var t := prefix + "int" + suffix;
    Lacks(t, "char", 0);
    Lacks(t, "short", 1);
    Lacks(t, "long", 0);
    Has(t, "int", |prefix|);
  }

  lemma LongSize(prefix: string)
    requires '*' !in prefix && 'c' !in prefix && 'h' !in prefix
    ensures ScalarSize(prefix + "long") == 8
  {
    Lacks(prefix + "long", "char", 0);
    Lacks(prefix + "long", "short", 1);
    Has(prefix + "long", "long", |prefix|);
  }

  /** Other names are misjudged: one byte is taken for four or eight, four for eight, and
      eight for four. */
  lemma NamesMisjudged()
    ensures ScalarSize("uint8_t") == 4 && ScalarSize("_Bool") == 8
    ensures ScalarSize("float") == 8 && ScalarSize("uint64_t") == 4
  {
    hide ScalarSize;
    IntSize("u", "8_t");
    IntSize("u", "64_t");
    assert "u" + "int" + "8_t" == "uint8_t" && "u" + "int" + "64_t" == "uint64_t";
    UnknownName("_Bool");
    UnknownName("float");
  }

  // A type name with none of the words.
  lemma UnknownName(t: string)
    requires '*' !in t && 'c' !in t && 's' !in t && 'n' !in t && 'b' !in t
    ensures ScalarSize(t) == 8
  {
    Lacks(t, "char", 0);
    Lacks(t, "short", 0);
    Lacks(t, "long", 2);
    Lacks(t, "int", 1);
    Lacks(t, "bool", 0);
  }

  /** So that setting a one-byte variable of such a type zeroes the three bytes after it. */
  lemma SetOverruns(env: Env, mem: Bytes, name: string, addr: Addr, v: U64)
    requires env.variable(name) == Some(("uint8_t", addr)) && env.arrayType("uint8_t").None?
    requires v < 0x100 && WriteScalar(mem, addr, 4, v).Some?
    ensures EvalLvalue(env, Ident(name)).Some? && EvalLvalue(env, Ident(name)).value.addr == addr
            && EvalLvalue(env, Ident(name)).value.size == 4
    ensures var mem' := WriteScalar(mem, addr, 4, v).value;
            addr + 3 < TWO_64 && mem' == mem[addr := v][addr + 1 := 0][addr + 2 := 0][addr + 3 := 0]
  {
    NamesMisjudged();
    FourBytes(mem, addr, v);
  }

  lemma FourBytes(mem: Bytes, addr: Addr, v: U64)
    requires v < 0x100 && WriteScalar(mem, addr, 4, v).Some?
    ensures addr + 3 < TWO_64 && WriteScalar(mem, addr, 4, v).value == mem[addr := v][addr + 1 := 0][addr + 2 := 0][addr + 3 := 0]
  {
    assert InMemory(mem, addr + 3);
    assert Put(mem, addr + 4, 0, 0) == mem;
    assert Put(mem, addr + 3, 1, 0) == mem[addr + 3 := 0];
    assert Put(mem, addr + 2, 2, 0) == mem[addr + 3 := 0][addr + 2 := 0];
    assert Put(mem, addr + 1, 3, 0) == mem[addr + 3 := 0][addr + 2 := 0][addr + 1 := 0];
    assert v / 0x100 == 0 && v % 0x100 == v;
  }
}
