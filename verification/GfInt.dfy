/** Bytes as numbers: the conversions between `u8` and field elements, bit by bit. */
module GfInt {
  import opened Gf256

  type u8 = x: int | 0 <= x < 0x100

  datatype Bits = Bits(p0: bool, p1: bool, p2: bool, p3: bool, p4: bool, p5: bool, p6: bool, p7: bool)

  function On(p: bool, weight: bv8): bv8 { if p then weight else 0 }

  function Assemble(p0: bool, p1: bool, p2: bool, p3: bool, p4: bool, p5: bool, p6: bool, p7: bool): bv8
  {
    On(p0, 1) | On(p1, 2) | On(p2, 4) | On(p3, 8) | On(p4, 16) | On(p5, 32) | On(p6, 64) | On(p7, 128)
  }

  function ToGf(b: Bits): Gf { Gf(Assemble(b.p0, b.p1, b.p2, b.p3, b.p4, b.p5, b.p6, b.p7)) }

  function FromGf(a: Gf): Bits
  {
    Bits(a.v & 1 != 0, a.v & 2 != 0, a.v & 4 != 0, a.v & 8 != 0, a.v & 16 != 0, a.v & 32 != 0, a.v & 64 != 0,
         a.v & 128 != 0)
  }

  function Digit(p: bool): int { if p then 1 else 0 }

  function Shifted(p: bool, m: nat): nat { Digit(p) + 2 * m }

  function ToNumber(b: Bits): nat
  {
    var high := Shifted(b.p4, Shifted(b.p5, Shifted(b.p6, Shifted(b.p7, 0))));
    Shifted(b.p0, Shifted(b.p1, Shifted(b.p2, Shifted(b.p3, high))))
  }

  function Odd(n: nat): bool { n % 2 == 1 }

  function Half(n: nat): nat { n / 2 }

  function FromNumber(n: nat): Bits
  {
    var n1 := Half(n);
    var n2 := Half(n1);
    var n3 := Half(n2);
    var n4 := Half(n3);
    var n5 := Half(n4);
    var n6 := Half(n5);
    Bits(Odd(n), Odd(n1), Odd(n2), Odd(n3), Odd(n4), Odd(n5), Odd(n6), Odd(Half(n6)))
  }

  function FromByte(n: u8): Gf { ToGf(FromNumber(n)) }

  function ToInt(a: Gf): (n: u8)
  {
    NumberRange(FromGf(a));
    ToNumber(FromGf(a))
  }

  /** `n as u8`. */
  function FromInt(n: int): Gf { FromByte(n % 0x100) }

  lemma NumberRange(b: Bits)
    ensures ToNumber(b) < 0x100
  {
    assert Shifted(b.p7, 0) < 2;
    assert Shifted(b.p6, Shifted(b.p7, 0)) < 4;
    assert Shifted(b.p5, Shifted(b.p6, Shifted(b.p7, 0))) < 8;
  }

  lemma AssembleBits(p0: bool, p1: bool, p2: bool, p3: bool, p4: bool, p5: bool, p6: bool, p7: bool)
    ensures var v := Assemble(p0, p1, p2, p3, p4, p5, p6, p7);
      && (v & 1 != 0) == p0 && (v & 2 != 0) == p1 && (v & 4 != 0) == p2 && (v & 8 != 0) == p3
      && (v & 16 != 0) == p4 && (v & 32 != 0) == p5 && (v & 64 != 0) == p6 && (v & 128 != 0) == p7
  {
  }

  lemma BitsAssemble(v: bv8)
    ensures Assemble(v & 1 != 0, v & 2 != 0, v & 4 != 0, v & 8 != 0, v & 16 != 0, v & 32 != 0, v & 64 != 0,
                     v & 128 != 0) == v
  {
  }

  lemma GfBits(b: Bits, a: Gf)
    ensures FromGf(ToGf(b)) == b
    ensures ToGf(FromGf(a)) == a
  {
    hide Assemble;
    AssembleBits(b.p0, b.p1, b.p2, b.p3, b.p4, b.p5, b.p6, b.p7);
    BitsAssemble(a.v);
  }

  lemma Halving(p: bool, m: nat)
    ensures Half(Shifted(p, m)) == m && Odd(Shifted(p, m)) == p
  {
  }

  lemma Doubling(n: nat)
    ensures Shifted(Odd(n), Half(n)) == n
  {
  }

  lemma Halves(n: nat, bound: nat)
    requires n < 2 * bound
    ensures Half(n) < bound
  {
  }

  lemma NumberToNumber(n: nat)
    requires n < 0x100
    ensures ToNumber(FromNumber(n)) == n
  {
    hide Shifted, Odd, Half;
    var n1 := Half(n);
    var n2 := Half(n1);
    var n3 := Half(n2);
    var n4 := Half(n3);
    var n5 := Half(n4);
    var n6 := Half(n5);
    var n7 := Half(n6);
    Halves(n, 128); Halves(n1, 64); Halves(n2, 32); Halves(n3, 16);
    Halves(n4, 8); Halves(n5, 4); Halves(n6, 2); Halves(n7, 1);
    Doubling(n); Doubling(n1); Doubling(n2); Doubling(n3);
    Doubling(n4); Doubling(n5); Doubling(n6); Doubling(n7);
  }

  lemma NumberBits(b: Bits)
    ensures FromNumber(ToNumber(b)) == b
  {
    hide Shifted, Odd, Half;
    var m7 := Shifted(b.p7, 0);
    var m6 := Shifted(b.p6, m7);
    var m5 := Shifted(b.p5, m6);
    var m4 := Shifted(b.p4, m5);
    var m3 := Shifted(b.p3, m4);
    var m2 := Shifted(b.p2, m3);
    var m1 := Shifted(b.p1, m2);
    Halving(b.p7, 0); Halving(b.p6, m7); Halving(b.p5, m6); Halving(b.p4, m5);
    Halving(b.p3, m4); Halving(b.p2, m3); Halving(b.p1, m2); Halving(b.p0, m1);
  }

  lemma ByteRoundTrip(n: u8, a: Gf)
    ensures ToInt(FromByte(n)) == n
    ensures FromByte(ToInt(a)) == a
  {
    hide ToGf, FromGf, ToNumber, FromNumber;
    GfBits(FromNumber(n), a);
    NumberToNumber(n);
    NumberBits(FromGf(a));
  }

  lemma BitsAreValue(v: bv8)
    ensures v as nat
      == (if v & 1 != 0 then 1 else 0) + (if v & 2 != 0 then 2 else 0) + (if v & 4 != 0 then 4 else 0)
         + (if v & 8 != 0 then 8 else 0) + (if v & 16 != 0 then 16 else 0) + (if v & 32 != 0 then 32 else 0)
         + (if v & 64 != 0 then 64 else 0) + (if v & 128 != 0 then 128 else 0)
  {
  }

  function Weight(p: bool, w: nat): nat { if p then w else 0 }

  lemma FourBits(p0: bool, p1: bool, p2: bool, p3: bool, m: nat)
    ensures Shifted(p0, Shifted(p1, Shifted(p2, Shifted(p3, m))))
      == Weight(p0, 1) + Weight(p1, 2) + Weight(p2, 4) + Weight(p3, 8) + 16 * m
  {
  }

  lemma Sixteenfold(p: bool, w: nat)
    ensures 16 * Weight(p, w) == Weight(p, 16 * w)
  {
  }

  lemma NumberIsSum(b: Bits)
    ensures ToNumber(b) == Weight(b.p0, 1) + Weight(b.p1, 2) + Weight(b.p2, 4) + Weight(b.p3, 8)
      + Weight(b.p4, 16) + Weight(b.p5, 32) + Weight(b.p6, 64) + Weight(b.p7, 128)
  {
    hide Weight, Shifted;
    var high := Shifted(b.p4, Shifted(b.p5, Shifted(b.p6, Shifted(b.p7, 0))));
    FourBits(b.p4, b.p5, b.p6, b.p7, 0);
    FourBits(b.p0, b.p1, b.p2, b.p3, high);
    Sixteenfold(b.p4, 1);
    Sixteenfold(b.p5, 2);
    Sixteenfold(b.p6, 4);
    Sixteenfold(b.p7, 8);
  }

  /** The number of a byte is its value. */
  lemma ToIntIs(a: Gf)
    ensures ToInt(a) == a.v as nat
  {
    BitsAreValue(a.v);
    NumberIsSum(FromGf(a));
    hide ToNumber;
  }

  lemma FromByteIs(n: u8)
    ensures FromByte(n).v as nat == n
  {
    hide ToInt, FromByte;
    ByteRoundTrip(n, ZERO);
    ToIntIs(FromByte(n));
  }

  lemma FromIntToInt(n: int)
    ensures ToInt(FromInt(n)) == n % 0x100
  {
    hide ToInt, FromByte;
    ByteRoundTrip(n % 0x100, ZERO);
  }

  lemma ToIntFromInt(b: Gf)
    ensures FromInt(ToInt(b)) == b
  {
    hide ToInt, FromByte;
    ByteRoundTrip(0, b);
  }

  lemma FromByteInjective(i: u8, j: u8)
    ensures FromByte(i) == FromByte(j) ==> i == j
    ensures FromByte(0) == ZERO
  {
    ZeroByte();
    hide ToInt, FromByte;
    ByteRoundTrip(i, ZERO);
    ByteRoundTrip(j, ZERO);
  }

  lemma ZeroByte()
    ensures FromByte(0) == ZERO
  {
    hide Assemble;
    ZeroNumber();
    ZeroBits();
  }

  lemma ZeroNumber()
    ensures FromNumber(0) == Bits(false, false, false, false, false, false, false, false)
  {
  }

  lemma ZeroBits()
    ensures Assemble(false, false, false, false, false, false, false, false) == 0
  {
  }
}
