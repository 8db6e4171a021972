/** The product of `src/shamir.rs` against the definition it should meet: on bytes, the only operation that
 *  has 1 for identity, distributes over XOR and commutes with `xtime` of section 4.2.1 of FIPS 197.
 */
module GfReference {
  import opened Gf256

  ghost predicate IsProduct(f: (Gf, Gf) -> Gf)
  {
    && (forall a :: f(a, ONE) == a)
    && (forall a, b, c :: f(a, Xor(b, c)) == Xor(f(a, b), f(a, c)))
    && (forall a, b :: f(a, Xtime(b)) == Xtime(f(a, b)))
  }

  /** `xtime` as the standard words it. */
  lemma XtimeIs(a: Gf)
    ensures Xtime(a) == if a.v & 0x80 == 0 then Gf(a.v << 1) else Gf((a.v << 1) ^ 0x1b)
  {
    XtimeHigh(a.v);
  }

  lemma XtimeHigh(a: bv8)
    ensures 0x1b & Mask((a >> 7) & 1) == if a & 0x80 == 0 then 0 else 0x1b
  {
  }

  /** The branch-free loop computes such an operation. */
  lemma MulIsProduct()
    ensures IsProduct(Mul)
  {
    hide Xor, Xtime, Mul;
    forall a
      ensures Mul(a, ONE) == a
    {
      MulOne(a);
    }
    forall a, b, c
      ensures Mul(a, Xor(b, c)) == Xor(Mul(a, b), Mul(a, c))
    {
      MulDistributes(a, b, c);
    }
    forall a, b
      ensures Mul(a, Xtime(b)) == Xtime(Mul(a, b))
    {
      MulXtime(a, b);
    }
  }

  lemma {:induction false} ProductIsSteps(f: (Gf, Gf) -> Gf, a: Gf, b: Gf, n: nat)
    requires IsProduct(f) && Halved(b, n) == ZERO
    ensures f(a, b) == Steps(a, b, n)
    decreases n
  {
    OneStepMore(a, b, n);
    hide *;
    if n == 0 {
      ProductZero(f, a);
    } else {
      LowBitAndHalf(b);
      ProductLowBit(f, a, b);
      ProductIsSteps(f, a, Halve(b), n - 1);
      StepsXtime(a, Halve(b), n - 1);
      ProductOfSum(f, a, Select(ONE, b), Halve(b));
    }
  }

  lemma ProductZero(f: (Gf, Gf) -> Gf, a: Gf)
    requires IsProduct(f)
    ensures f(a, ZERO) == ZERO
  {
    hide Xor, Xtime;
    XorUnits(ONE, ONE);
    XorUnits(a, a);
    assert f(a, Xor(ONE, ONE)) == Xor(f(a, ONE), f(a, ONE));
  }

  lemma ProductLowBit(f: (Gf, Gf) -> Gf, a: Gf, b: Gf)
    requires IsProduct(f)
    ensures f(a, Select(ONE, b)) == Select(a, b)
  {
    ProductZero(f, a);
    SelectBit(a, b);
    SelectBit(ONE, b);
    hide Xor, Xtime, Select;
  }

  lemma ProductOfSum(f: (Gf, Gf) -> Gf, a: Gf, b: Gf, c: Gf)
    requires IsProduct(f)
    ensures f(a, Xor(b, Xtime(c))) == Xor(f(a, b), Xtime(f(a, c)))
  {
    hide Xor, Xtime;
  }

  /** And no other operation is such a product. */
  lemma ProductIsMul(f: (Gf, Gf) -> Gf, a: Gf, b: Gf)
    requires IsProduct(f)
    ensures f(a, b) == Mul(a, b)
  {
    EightHalvings(b);
    ProductIsSteps(f, a, b, 8);
  }
}
