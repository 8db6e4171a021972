/** The field GF(2^8) of section 4.2 of FIPS 197, as `src/shamir.rs` computes it.
 *
 *  A byte is wrapped in a datatype so that the algebra above this file reasons about
 *  field elements by equations and never by bits.
 */
module Gf256 {

  datatype Gf = Gf(v: bv8)

  const ZERO := Gf(0)
  const ONE := Gf(1)

  function Xor(a: Gf, b: Gf): Gf { Gf(a.v ^ b.v) }

  /** `0u8.wrapping_sub(bit)`: all ones for 1, all zeros for 0. */
  function Mask(bit: bv8): bv8 { 0 - bit }

  /** Multiplication by x, reduced modulo x^8 + x^4 + x^3 + x + 1. */
  function Xtime(a: Gf): Gf { Gf((a.v << 1) ^ (0x1b & Mask((a.v >> 7) & 1))) }

  /** `a` when the low bit of `b` is set, 0 otherwise, without branching. */
  function Select(a: Gf, b: Gf): Gf { Gf(a.v & Mask(b.v & 1)) }

  function Halve(b: Gf): Gf { Gf(b.v >> 1) }

  /** The sum, over the low `n` bits i of `b`, of x^i times `a`. */
  function Steps(a: Gf, b: Gf, n: nat): Gf
    decreases n
  {
    if n == 0 then ZERO else Xor(Select(a, b), Steps(Xtime(a), Halve(b), n - 1))
  }

  function Mul(a: Gf, b: Gf): Gf { Steps(a, b, 8) }

  function Pow(a: Gf, n: nat): Gf { if n == 0 then ONE else Mul(a, Pow(a, n - 1)) }

  function Inv(a: Gf): Gf { Pow(a, 254) }

  // ---------------------------------------------------------------- the loops

  method GfMul(x: Gf, y: Gf) returns (r: Gf)
    ensures r == Mul(x, y)
  {
    hide Xor, Xtime, Select, Halve, Mask;
    var a, b, out := x.v, y.v, 0 as bv8;

    XorUnits(Steps(x, y, 8), ZERO);
    for i := 0 to 8
      invariant Xor(Gf(out), Steps(Gf(a), Gf(b), 8 - i)) == Mul(x, y)
    {
      OneStep(out, a, b);
      XorAssoc(Gf(out), Select(Gf(a), Gf(b)), Steps(Xtime(Gf(a)), Halve(Gf(b)), 7 - i));
      out := out ^ (a & Mask(b & 1));
      var high := (a >> 7) & 1;
      a := a << 1;
      a := a ^ (0x1b & Mask(high));
      b := b >> 1;
    }
    XorUnits(Gf(out), ZERO);
    r := Gf(out);
  }

  /** What one iteration does to the three accumulators. */
  lemma OneStep(out: bv8, a: bv8, b: bv8)
    ensures Gf(out ^ (a & Mask(b & 1))) == Xor(Gf(out), Select(Gf(a), Gf(b)))
    ensures Gf((a << 1) ^ (0x1b & Mask((a >> 7) & 1))) == Xtime(Gf(a))
    ensures Gf(b >> 1) == Halve(Gf(b))
  {
  }

  method GfInv(x: Gf) returns (r: Gf)
    ensures r == Inv(x)
  {
    hide Xor, Mul, Choose;
    r := ONE;
    var base, exp: nat := x, 254;
    MulOne(Pow(x, 254));
    while exp > 0
      invariant Mul(r, Pow(base, exp)) == Inv(x)
    {
      var bit: bv8 := if exp % 2 == 1 then 1 else 0;
      var candidate := GfMul(r, base);
      PowSquare(base, exp / 2);
      MulAssoc(r, base, Pow(Mul(base, base), exp / 2));
      r := Choose(candidate, r, bit);
      base := GfMul(base, base);
      exp := exp / 2;
    }
    MulOne(r);
  }

  /** The masked choice between `a` (bit 1) and `b` (bit 0). */
  function Choose(a: Gf, b: Gf, bit: bv8): (r: Gf)
    requires bit == 0 || bit == 1
    ensures r == if bit == 1 then a else b
  {
    Gf((a.v & Mask(bit)) | (b.v & !Mask(bit)))
  }

  // ------------------------------------------------------------ addition laws

  lemma XorAssoc(a: Gf, b: Gf, c: Gf)
    ensures Xor(Xor(a, b), c) == Xor(a, Xor(b, c))
  {
  }

  lemma XorUnits(a: Gf, b: Gf)
    ensures Xor(a, b) == Xor(b, a)
    ensures Xor(a, ZERO) == a && Xor(ZERO, a) == a && Xor(a, a) == ZERO
    ensures Xor(a, b) == ZERO <==> a == b
  {
  }

  /** Two sums of two terms, regrouped. */
  lemma XorSwap(a: Gf, b: Gf, c: Gf, d: Gf)
    ensures Xor(Xor(a, b), Xor(c, d)) == Xor(Xor(a, c), Xor(b, d))
  {
    hide Xor;
    XorAssoc(a, b, Xor(c, d));
    XorAssoc(b, c, d);
    XorUnits(b, c);
    XorAssoc(c, b, d);
    XorAssoc(a, c, Xor(b, d));
  }

  /** What is added twice cancels. */
  lemma XorCancel(a: Gf, b: Gf)
    ensures Xor(Xor(a, b), b) == a
    ensures Xor(a, Xor(a, b)) == b
  {
    hide Xor;
    XorAssoc(a, b, b);
    XorAssoc(a, a, b);
    XorUnits(b, b);
    XorUnits(a, a);
    XorUnits(b, ZERO);
    XorUnits(a, ZERO);
  }

  // ------------------------------------------------ each step is linear

  lemma SelectBit(a: Gf, b: Gf)
    ensures Select(a, b) == if b.v & 1 == 0 then ZERO else a
  {
    if b.v & 1 == 0 {
      assert a.v & Mask(0) == 0;
    } else {
      assert b.v & 1 == 1;
      assert a.v & Mask(1) == a.v;
    }
  }

  lemma XtimeLinear(a: Gf, b: Gf)
    ensures Xtime(Xor(a, b)) == Xor(Xtime(a), Xtime(b))
  {
  }

  lemma XtimeZero()
    ensures Xtime(ZERO) == ZERO
  {
  }

  lemma XtimeSelect(a: Gf, b: Gf)
    ensures Xtime(Select(a, b)) == Select(Xtime(a), b)
  {
    SelectBit(a, b);
    SelectBit(Xtime(a), b);
    XtimeZero();
  }

  lemma SelectLinear(a: Gf, c: Gf, b: Gf, d: Gf)
    ensures Select(Xor(a, c), b) == Xor(Select(a, b), Select(c, b))
    ensures Select(a, Xor(b, d)) == Xor(Select(a, b), Select(a, d))
  {
    SelectBit(Xor(a, c), b);
    SelectBit(a, b);
    SelectBit(c, b);
    SelectBit(a, Xor(b, d));
    SelectBit(a, d);
    LowBitLinear(b.v, d.v);
    XorUnits(a, a);
  }

  lemma LowBitLinear(b: bv8, d: bv8)
    ensures (b ^ d) & 1 == (b & 1) ^ (d & 1)
    ensures b & 1 == 0 || b & 1 == 1
  {
  }

  lemma HalveLinear(b: Gf, d: Gf)
    ensures Halve(Xor(b, d)) == Xor(Halve(b), Halve(d))
  {
  }

  // ------------------------------------------------------- the product is bilinear

  lemma {:induction false} StepsZero(b: Gf, n: nat)
    ensures Steps(ZERO, b, n) == ZERO
    decreases n
  {
    if n > 0 {
      StepsZero(Halve(b), n - 1);
      SelectBit(ZERO, b);
      XorUnits(ZERO, ZERO);
      XtimeZero();
    }
  }

  lemma {:induction false} StepsLinearLeft(a: Gf, c: Gf, b: Gf, n: nat)
    ensures Steps(Xor(a, c), b, n) == Xor(Steps(a, b, n), Steps(c, b, n))
    decreases n
  {
    hide Xor, Xtime, Select, Halve;
    if n == 0 {
      XorUnits(ZERO, ZERO);
    } else {
      XtimeLinear(a, c);
      SelectLinear(a, c, b, b);
      StepsLinearLeft(Xtime(a), Xtime(c), Halve(b), n - 1);
      XorSwap(Select(a, b), Steps(Xtime(a), Halve(b), n - 1), Select(c, b), Steps(Xtime(c), Halve(b), n - 1));
    }
  }

  lemma {:induction false} StepsLinearRight(a: Gf, b: Gf, d: Gf, n: nat)
    ensures Steps(a, Xor(b, d), n) == Xor(Steps(a, b, n), Steps(a, d, n))
    decreases n
  {
    hide Xor, Xtime, Select, Halve;
    if n == 0 {
      XorUnits(ZERO, ZERO);
    } else {
      SelectLinear(a, a, b, d);
      HalveLinear(b, d);
      StepsLinearRight(Xtime(a), Halve(b), Halve(d), n - 1);
      XorSwap(Select(a, b), Steps(Xtime(a), Halve(b), n - 1), Select(a, d), Steps(Xtime(a), Halve(d), n - 1));
    }
  }

  lemma {:induction false} StepsXtime(a: Gf, b: Gf, n: nat)
    ensures Steps(Xtime(a), b, n) == Xtime(Steps(a, b, n))
    decreases n
  {
    hide Xor, Xtime, Select, Halve;
    if n == 0 {
      XtimeZero();
    } else {
      XtimeSelect(a, b);
      StepsXtime(Xtime(a), Halve(b), n - 1);
      XtimeLinear(Select(a, b), Steps(Xtime(a), Halve(b), n - 1));
    }
  }

  /** A sum of shifted copies of `c`, times `b`, is the same sum of shifted copies of `c * b`. */
  lemma {:induction false} StepsMul(c: Gf, a: Gf, b: Gf, n: nat)
    ensures Mul(Steps(c, a, n), b) == Steps(Mul(c, b), a, n)
    decreases n
  {
    hide Xor, Xtime, Select, Halve;
    if n == 0 {
      StepsZero(b, 8);
    } else {
      StepsLinearLeft(Select(c, a), Steps(Xtime(c), Halve(a), n - 1), b, 8);
      StepsMul(Xtime(c), Halve(a), b, n - 1);
      StepsXtime(c, b, 8);
      SelectBit(c, a);
      SelectBit(Mul(c, b), a);
      StepsZero(b, 8);
    }
  }

  // ------------------------------------------------------------ halving a factor

  lemma Shifts(b: Gf)
    ensures Halve(b) == Gf(b.v >> 1)
    ensures Halve(Gf(b.v >> 1)) == Gf(b.v >> 2)
    ensures Halve(Gf(b.v >> 2)) == Gf(b.v >> 3)
    ensures Halve(Gf(b.v >> 3)) == Gf(b.v >> 4)
    ensures Halve(Gf(b.v >> 4)) == Gf(b.v >> 5)
    ensures Halve(Gf(b.v >> 5)) == Gf(b.v >> 6)
    ensures Halve(Gf(b.v >> 6)) == Gf(b.v >> 7)
  {
  }

  /** What is left of a byte after so many halvings. */
  function Halved(b: Gf, n: nat): Gf
    decreases n
  {
    if n == 0 then b else Halved(Halve(b), n - 1)
  }

  lemma EightHalvings(b: Gf)
    ensures Halved(b, 8) == ZERO
  {
    Shifts(b);
    LastHalving(b);
    hide Halve;
    assert Halved(Gf(b.v >> 7), 1) == ZERO;
    assert Halved(Gf(b.v >> 5), 3) == ZERO;
    assert Halved(Gf(b.v >> 3), 5) == ZERO;
    assert Halved(Gf(b.v >> 1), 7) == ZERO;
  }

  lemma LastHalving(b: Gf)
    ensures Halve(Gf(b.v >> 7)) == ZERO
  {
  }

  /** A byte is its low bit and x times its half. */
  lemma LowBitAndHalf(b: Gf)
    ensures b == Xor(Select(ONE, b), Xtime(Halve(b)))
  {
    LowBitAndHalfBits(b.v);
  }

  lemma LowBitAndHalfBits(b: bv8)
    ensures b == (1 & Mask(b & 1)) ^ (((b >> 1) << 1) ^ (0x1b & Mask(((b >> 1) >> 7) & 1)))
  {
  }

  lemma OneStepMore(a: Gf, b: Gf, n: nat)
    ensures n == 0 ==> Halved(b, n) == b && Steps(a, b, n) == ZERO
    ensures n > 0 ==> Halved(b, n) == Halved(Halve(b), n - 1)
    ensures n > 0 ==> Steps(a, b, n) == Xor(Select(a, b), Steps(Xtime(a), Halve(b), n - 1))
  {
    hide Xor, Xtime, Select, Halve;
  }

  // ------------------------------------------------------------ field laws

  lemma MulDistributes(a: Gf, b: Gf, c: Gf)
    ensures Mul(a, Xor(b, c)) == Xor(Mul(a, b), Mul(a, c))
    ensures Mul(Xor(a, b), c) == Xor(Mul(a, c), Mul(b, c))
  {
    StepsLinearRight(a, b, c, 8);
    StepsLinearLeft(a, b, c, 8);
  }

  lemma MulComm(a: Gf, b: Gf)
    ensures Mul(a, b) == Mul(b, a)
  {
    hide Xor, Xtime, Select, Halve;
    StepsMul(ONE, a, b, 8);
    MulOne(a);
    MulOne(b);
  }

  lemma MulAssoc(a: Gf, b: Gf, c: Gf)
    ensures Mul(Mul(a, b), c) == Mul(a, Mul(b, c))
  {
    hide Xor, Xtime, Select, Halve;
    StepsMul(b, a, c, 8);
    MulComm(a, b);
    MulComm(a, Mul(b, c));
  }

  lemma {:induction false} StepsOne(b: Gf, n: nat)
    requires Halved(b, n) == ZERO
    ensures Steps(ONE, b, n) == b
    decreases n
  {
    OneStepMore(ONE, b, n);
    hide *;
    if n > 0 {
      StepsOne(Halve(b), n - 1);
      StepsXtime(ONE, Halve(b), n - 1);
      LowBitAndHalf(b);
    }
  }

  lemma MulOne(a: Gf)
    ensures Mul(ONE, a) == a && Mul(a, ONE) == a
  {
    EightHalvings(a);
    StepsOne(a, 8);
    hide Xor, Xtime, Select, Halve;
    HalfOfOne(a);
    OneStepMore(a, ONE, 8);
    StepsByZero(Xtime(a), 7);
    XorUnits(a, ZERO);
  }

  lemma HalfOfOne(a: Gf)
    ensures Halve(ONE) == ZERO && Halve(ZERO) == ZERO && Select(a, ONE) == a && Select(a, ZERO) == ZERO
  {
    SelectBit(a, ONE);
    SelectBit(a, ZERO);
  }

  lemma {:induction false} StepsByZero(a: Gf, n: nat)
    ensures Steps(a, ZERO, n) == ZERO
    decreases n
  {
    hide Xor, Xtime, Select, Halve;
    if n > 0 {
      HalfOfOne(a);
      StepsByZero(Xtime(a), n - 1);
      XorUnits(ZERO, ZERO);
    }
  }

  lemma MulZero(a: Gf)
    ensures Mul(ZERO, a) == ZERO && Mul(a, ZERO) == ZERO
  {
    StepsZero(a, 8);
    MulComm(a, ZERO);
  }

  // --------------------------------------------------------------- inverses

  /** The linear map of GF(2)^8 whose columns are `c0`, ..., `c7`. */
  function Columns(a: bv8, c0: bv8, c1: bv8, c2: bv8, c3: bv8, c4: bv8, c5: bv8, c6: bv8, c7: bv8): bv8
  {
    (c0 & Mask(a & 1)) ^ (c1 & Mask((a >> 1) & 1)) ^ (c2 & Mask((a >> 2) & 1)) ^ (c3 & Mask((a >> 3) & 1))
    ^ (c4 & Mask((a >> 4) & 1)) ^ (c5 & Mask((a >> 5) & 1)) ^ (c6 & Mask((a >> 6) & 1)) ^ (c7 & Mask((a >> 7) & 1))
  }

  /** Squaring, by the squares of 1, x, ..., x^7. */
  function Square(a: bv8): bv8 { Columns(a, 0x01, 0x04, 0x10, 0x40, 0x1b, 0x6c, 0xab, 0x9a) }

  /** Four squarings. */
  function SquareFour(a: bv8): bv8 { Columns(a, 0x01, 0x5e, 0xe4, 0xe8, 0x4d, 0x91, 0x1d, 0x6c) }

  lemma SquareIs(a: Gf)
    ensures Mul(a, a) == Gf(Square(a.v))
  {
    hide *;
    EightHalvings(a);
    SquareByHalving(a, 8);
  }

  lemma {:induction false} SquareByHalving(a: Gf, n: nat)
    requires Halved(a, n) == ZERO
    ensures Mul(a, a) == Gf(Square(a.v))
    decreases n
  {
    OneStepMore(a, a, n);
    hide *;
    if n == 0 {
      SquareOfZero(a);
    } else {
      SquareByHalving(Halve(a), n - 1);
      SquareOfSum(a);
      SquareStep(a);
    }
  }

  lemma SquareOfZero(a: Gf)
    requires a == ZERO
    ensures Mul(a, a) == Gf(Square(a.v))
  {
    MulZero(a);
    hide Mul;
  }

  /** Squaring adds: the square of a byte is its low bit and x^2 times the square of its half. */
  lemma SquareOfSum(a: Gf)
    ensures Mul(a, a) == Xor(Select(ONE, a), Xtime(Xtime(Mul(Halve(a), Halve(a)))))
  {
    hide Xor, Xtime, Select, Halve, Mul, Steps;
    var l, h := Select(ONE, a), Xtime(Halve(a));
    LowBitAndHalf(a);
    MulDistributes(Xor(l, h), l, h);
    MulDistributes(l, h, l);
    MulDistributes(l, h, h);
    MulComm(l, h);
    XorSwap(Mul(l, l), Mul(h, l), Mul(l, h), Mul(h, h));
    XorUnits(Mul(h, l), Mul(l, h));
    CrossTerms(Mul(l, l), Mul(l, h), Mul(h, h));
    LowBitSquared(a);
    MulXtime(Halve(a), Halve(a));
  }

  lemma CrossTerms(p: Gf, q: Gf, r: Gf)
    ensures Xor(Xor(p, q), Xor(q, r)) == Xor(p, r)
  {
  }

  lemma LowBitSquared(a: Gf)
    ensures Mul(Select(ONE, a), Select(ONE, a)) == Select(ONE, a)
  {
    hide Mul;
    SelectBit(ONE, a);
    MulOne(ONE);
    MulZero(ZERO);
  }

  lemma MulXtime(a: Gf, b: Gf)
    ensures Mul(a, Xtime(b)) == Xtime(Mul(a, b))
    ensures Mul(Xtime(a), Xtime(b)) == Xtime(Xtime(Mul(a, b)))
  {
    hide Xor, Xtime, Select, Halve;
    MulComm(a, Xtime(b));
    StepsXtime(b, a, 8);
    MulComm(a, b);
    StepsXtime(a, Xtime(b), 8);
  }

  lemma SquareStep(a: Gf)
    ensures Gf(Square(a.v)) == Xor(Select(ONE, a), Xtime(Xtime(Gf(Square(Halve(a).v)))))
  {
  }

  lemma SquareFourIs(a: bv8)
    ensures Square(Square(Square(Square(a)))) == SquareFour(a)
  {
  }

  lemma SquareEight(a: bv8)
    ensures SquareFour(SquareFour(a)) == a
  {
  }

  lemma SquareFixed(a: bv8)
    requires Square(a) == a
    ensures a == 0 || a == 1
  {
  }

  /** The only idempotents are 0 and 1. */
  lemma Idempotent(a: Gf)
    requires Mul(a, a) == a
    ensures a == ZERO || a == ONE
  {
    hide Xor, Mul;
    SquareIs(a);
    SquareFixed(a.v);
  }

  lemma {:induction false} PowSquare(a: Gf, m: nat)
    ensures Pow(a, 2 * m) == Pow(Mul(a, a), m)
    ensures Pow(a, 2 * m + 1) == Mul(a, Pow(Mul(a, a), m))
  {
    hide Xor, Mul;
    if m > 0 {
      PowSquare(a, m - 1);
      assert 2 * m - 1 == 2 * (m - 1) + 1;
      assert Pow(a, 2 * m) == Mul(a, Pow(a, 2 * m - 1));
      MulAssoc(a, a, Pow(Mul(a, a), m - 1));
    }
  }

  lemma {:induction false} PowAdd(a: Gf, m: nat, n: nat)
    ensures Pow(a, m + n) == Mul(Pow(a, m), Pow(a, n))
  {
    hide Xor, Mul;
    if m == 0 {
      MulOne(Pow(a, n));
    } else {
      PowAdd(a, m - 1, n);
      MulAssoc(a, Pow(a, m - 1), Pow(a, n));
    }
  }

  /** Eight squarings are the identity: a^256 = a. */
  lemma Pow256(a: Gf)
    ensures Pow(a, 256) == a
  {
    hide Xor, Mul;
    var a1 := Gf(Square(a.v));
    var a2 := Gf(Square(a1.v));
    var a3 := Gf(Square(a2.v));
    var a4 := Gf(Square(a3.v));
    var a5 := Gf(Square(a4.v));
    var a6 := Gf(Square(a5.v));
    var a7 := Gf(Square(a6.v));
    var a8 := Gf(Square(a7.v));
    SquareFourIs(a.v);
    SquareFourIs(a4.v);
    SquareEight(a.v);
    PowSquare(a, 128); SquareIs(a);
    PowSquare(a1, 64); SquareIs(a1);
    PowSquare(a2, 32); SquareIs(a2);
    PowSquare(a3, 16); SquareIs(a3);
    PowSquare(a4, 8); SquareIs(a4);
    PowSquare(a5, 4); SquareIs(a5);
    PowSquare(a6, 2); SquareIs(a6);
    PowSquare(a7, 1); SquareIs(a7);
    MulOne(a8);
    assert Pow(a8, 1) == Mul(a8, Pow(a8, 0));
  }

  /** a^255 is idempotent, and it is not 0 because a^256 = a. */
  lemma InverseLaw(a: Gf)
    requires a != ZERO
    ensures Mul(a, Inv(a)) == ONE
  {
    hide Xor, Mul;
    var n := Pow(a, 255);
    assert n == Mul(a, Pow(a, 254));
    assert Pow(a, 256) == Mul(a, n);
    Pow256(a);
    PowAdd(a, 255, 255);
    PowAdd(a, 256, 254);
    assert Mul(n, n) == n;
    Idempotent(n);
    MulZero(a);
  }

  lemma InvZero()
    ensures Inv(ZERO) == ZERO
  {
    hide Xor, Mul;
    assert Pow(ZERO, 254) == Mul(ZERO, Pow(ZERO, 253));
    MulZero(Pow(ZERO, 253));
  }

  lemma Cancel(a: Gf, b: Gf, c: Gf)
    requires a != ZERO
    requires Mul(a, b) == Mul(a, c)
    ensures b == c
  {
    hide Xor, Mul;
    InverseLaw(a);
    MulComm(a, Inv(a));
    MulAssoc(Inv(a), a, b);
    MulAssoc(Inv(a), a, c);
    MulOne(b);
    MulOne(c);
  }

  lemma NoZeroDivisors(a: Gf, b: Gf)
    ensures Mul(a, b) == ZERO <==> a == ZERO || b == ZERO
  {
    hide Xor, Mul;
    MulZero(a);
    MulZero(b);
    if Mul(a, b) == ZERO && a != ZERO {
      Cancel(a, b, ZERO);
    }
  }

  lemma InvMul(a: Gf, b: Gf)
    requires a != ZERO && b != ZERO
    ensures Mul(a, b) != ZERO
    ensures Inv(Mul(a, b)) == Mul(Inv(a), Inv(b))
  {
    hide Xor, Mul;
    NoZeroDivisors(a, b);
    InverseLaw(a);
    InverseLaw(b);
    InverseLaw(Mul(a, b));
    MulSwap(a, b, Inv(a), Inv(b));
    MulOne(ONE);
    Cancel(Mul(a, b), Inv(Mul(a, b)), Mul(Inv(a), Inv(b)));
  }

  /** Two products of two factors, regrouped. */
  lemma MulSwap(a: Gf, b: Gf, c: Gf, d: Gf)
    ensures Mul(Mul(a, b), Mul(c, d)) == Mul(Mul(a, c), Mul(b, d))
  {
    hide Xor, Mul;
    MulAssoc(a, b, Mul(c, d));
    MulAssoc(b, c, d);
    MulComm(b, c);
    MulAssoc(c, b, d);
    MulAssoc(a, c, Mul(b, d));
  }
}
