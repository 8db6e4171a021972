/** Rounding up to a granule, as `Padme` has it, is the masking that `padded_len` does on 64-bit words. */
module PadmeBits {
  import opened Arithmetic
  import opened Base32
  import opened Padme

  function And(a: seq<bool>, b: seq<bool>): (c: seq<bool>)
    requires |a| == |b|
    ensures |c| == |a|
  {
    seq(|a|, i requires 0 <= i < |a| => a[i] && b[i])
  }

  function Not(a: seq<bool>): (c: seq<bool>)
    ensures |c| == |a|
  {
    seq(|a|, i requires 0 <= i < |a| => !a[i])
  }

  function AllOnes(n: nat): seq<bool> { seq(n, _ => true) }

  lemma HalfThenRest(x: nat, p: nat)
    requires p > 0
    ensures x / (2 * p) == (x / 2) / p
  {
    var k, r := x / (2 * p), x % (2 * p);
    DivMod(x, 2 * p);
    MulAssociates(2, p, k);
    assert x / 2 == p * k + r / 2;
    DivUnique(x / 2, p, k, r / 2);
  }

  lemma {:induction false} ShrIsQuotient(x: nat, k: nat)
    ensures Shr(x, k) == x / Pow2(k)
    decreases k
  {
    if k > 0 {
      HalfThenRest(x, Pow2(k - 1));
      ShrIsQuotient(x / 2, k - 1);
    }
  }

  /** `(1 << k) - 1`. */
  function Mask(k: nat): (m: nat)
    ensures m < Pow2(k)
  {
    Pow2(k) - 1
  }

  lemma {:induction false} MaskLow(k: nat)
    ensures BitsOf(Mask(k), k) == AllOnes(k)
  {
    if k > 0 {
      MaskLow(k - 1);
      assert Mask(k) / 2 == Mask(k - 1);
    }
  }

  /** The mask has its low `k` bits set and no other. */
  lemma MaskIs(k: nat, w: nat)
    requires k <= w
    ensures BitsOf(Mask(k), w) == ZeroBits(w - k) + AllOnes(k)
  {
    hide *;
    MaskLow(k);
    BitsOfZero(w - k);
    BitsAppend(0, w - k, Mask(k), k);
    OverNothing(k, Mask(k));
  }

  lemma OverNothing(k: nat, v: nat)
    ensures Raised(0, k, v) == v
  {
    hide Pow2;
  }

  /** Down to a multiple of 2^k: the low `k` bits cleared, the others kept. */
  lemma ClearLow(n: nat, k: nat, w: nat)
    requires k <= w
    ensures n / Pow2(k) >= 0 && n / Pow2(k) * Pow2(k) >= 0
    ensures BitsOf(n / Pow2(k) * Pow2(k), w) == BitsOf(n, w)[..w - k] + ZeroBits(k)
  {
    ShrIsQuotient(n, k);
    BitsShifted(n, k, w - k);
    BitsOfZero(k);
    BitsAppend(Shr(n, k), w - k, 0, k);
    hide BitsOf, Pow2, Shr;
  }

  /** `(l + mask) & !mask`. */
  lemma RoundingIsMasking(l: nat, k: nat, w: nat)
    requires k <= w
    ensures RoundUp(l, Pow2(k)) >= 0
    ensures BitsOf(RoundUp(l, Pow2(k)), w) == And(BitsOf(l + Mask(k), w), Not(BitsOf(Mask(k), w)))
  {
    var n := l + Mask(k);
    ClearLow(n, k, w);
    MaskIs(k, w);
    hide BitsOf, Pow2;
    var b := BitsOf(n, w);
    assert And(b, Not(ZeroBits(w - k) + AllOnes(k))) == b[..w - k] + ZeroBits(k);
  }

  /** The bits that `padded_len` clears: those of the exponent less the length of the exponent. */
  function LastBits(l: nat): (k: nat)
    requires l >= 1
  {
    var e := Exponent(l);
    if e > BitLength(e) then e - BitLength(e) else 0
  }

  /** The expression of `padded_len`, on the 64 bits of the length. */
  lemma PaddedLenIsMasking(l: nat)
    requires Fits(l) && l >= 2
    ensures LastBits(l) <= 64
    ensures BitsOf(PaddedLen(l), 64) == And(BitsOf(l + Mask(LastBits(l)), 64), Not(BitsOf(Mask(LastBits(l)), 64)))
  {
    hide *;
    PaddedLenRounds(l);
    RoundingIsMasking(l, LastBits(l), 64);
  }

  lemma PaddedLenRounds(l: nat)
    requires Fits(l) && l >= 2
    ensures LastBits(l) <= 64 && PaddedLen(l) == RoundUp(l, Pow2(LastBits(l)))
  {
    GranuleBits(l);
    hide LastBits, Granule, RoundUp, Pow2;
  }

  lemma GranuleBits(l: nat)
    requires Fits(l) && l >= 2
    ensures LastBits(l) <= 64 && Granule(l) == Pow2(LastBits(l))
  {
    ExponentBelow64(l);
    hide BitLength, Pow2;
  }

  lemma ExponentBelow64(l: nat)
    requires Fits(l) && l >= 2
    ensures Exponent(l) < 64
  {
    BitLengthBounds(l);
    Pow2Of64();
    if Exponent(l) >= 64 {
      Pow2Monotone(64, Exponent(l));
    }
  }
}
