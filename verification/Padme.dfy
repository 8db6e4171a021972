/** `crates/padme-frame/src/lib.rs`: Padmé lengths and the self-describing frame around them, on a
 *  64-bit target. `(l + mask) & !mask`, with `mask` one less than a power of two, is rounding up to it.
 */
module Padme {
  import opened Results
  import opened Bytes

  const LEN_PREFIX: nat := 8

  function Pow2(k: nat): (p: nat)
    ensures p > 0
  {
    if k == 0 then 1 else 2 * Pow2(k - 1)
  }

  /** `usize::BITS - n.leading_zeros()`. */
  function BitLength(n: nat): nat { if n == 0 then 0 else 1 + BitLength(n / 2) }

  /** floor(log2(l)). */
  function Exponent(l: nat): nat
    requires l >= 1
  {
    BitLength(l) - 1
  }

  /** The last `e - s` bits are cleared, where `s` is the length of the exponent `e` in bits. */
  function GranuleOf(e: nat): (g: nat)
    ensures g > 0
  {
    var s := BitLength(e);
    Pow2(if e > s then e - s else 0)
  }

  function Granule(l: nat): (g: nat)
    ensures g > 0
  {
    if l < 2 then 1 else GranuleOf(Exponent(l))
  }

  function RoundUp(l: nat, g: nat): nat
    requires g > 0
  {
    (l + (g - 1)) / g * g
  }

  /** The addition in `padded_len` stays within 64 bits. */
  predicate Fits(l: nat) { l + (Granule(l) - 1) < 0x1_0000_0000_0000_0000 }

  function PaddedLen(l: nat): nat
    requires Fits(l)
  {
    if l < 2 then l else RoundUp(l, Granule(l))
  }

  // ---------------------------------------------------------------- arithmetic

  lemma {:induction false} Pow2Add(a: nat, b: nat)
    ensures Pow2(a + b) == Pow2(a) * Pow2(b)
  {
    if a > 0 {
      Pow2Add(a - 1, b);
      assert a + b - 1 == (a - 1) + b;
      MulAssociates(2, Pow2(a - 1), Pow2(b));
    }
  }

  lemma MulAssociates(a: int, b: int, c: int)
    ensures (a * b) * c == a * (b * c)
  {
  }

  /** A number of `b` bits is between 2^(b-1) and 2^b, and those are the only ones. */
  lemma {:induction false} BitLengthBounds(n: nat)
    ensures n < Pow2(BitLength(n))
    ensures n > 0 ==> Pow2(BitLength(n) - 1) <= n
  {
    if n > 0 {
      BitLengthBounds(n / 2);
    }
  }

  lemma {:induction false} Pow2Monotone(a: nat, b: nat)
    requires a <= b
    ensures Pow2(a) <= Pow2(b)
    decreases b - a
  {
    if a < b {
      Pow2Monotone(a, b - 1);
    }
  }

  lemma ExponentIs(l: nat, e: nat)
    requires l >= 1
    ensures Exponent(l) == e <==> Pow2(e) <= l < Pow2(e + 1)
  {
    BitLengthBounds(l);
    var b := BitLength(l);
    if Pow2(e) <= l < Pow2(e + 1) && b - 1 < e {
      Pow2Monotone(b, e);
    } else if Pow2(e) <= l < Pow2(e + 1) && e < b - 1 {
      Pow2Monotone(e + 1, b - 1);
    }
  }

  /** The exponent has no more bits than its own value. */
  lemma {:induction false} BitLengthSmall(e: nat)
    ensures BitLength(e) <= e
  {
    if e > 1 {
      BitLengthSmall(e / 2);
    }
  }

  /** The granule divides the powers of two at both ends of its octave. */
  lemma GranuleDivides(e: nat)
    ensures Pow2(e) == Pow2(BitLength(e)) * GranuleOf(e)
    ensures Pow2(e + 1) == (2 * Pow2(BitLength(e))) * GranuleOf(e)
  {
    BitLengthSmall(e);
    Pow2Add(BitLength(e), e - BitLength(e));
    MulAssociates(2, Pow2(BitLength(e)), GranuleOf(e));
  }

  /** Rounding up gives the only multiple of `g` in [l, l + g). */
  lemma RoundUpIs(l: nat, g: nat, k: nat)
    requires g > 0
    ensures l <= RoundUp(l, g) < l + g
    ensures l <= k * g < l + g ==> RoundUp(l, g) == k * g
    ensures l <= k * g ==> RoundUp(l, g) <= k * g
  {
    var x := l + (g - 1);
    var q := x / g;
    assert x == q * g + x % g;
    if q < k {
      MulApart(q, k, g);
    } else if k < q {
      MulApart(k, q, g);
    }
  }

  lemma MulApart(a: nat, b: nat, g: nat)
    requires a < b
    ensures a * g + g <= b * g
  {
    MulGap(b - a, g);
    assert b * g == a * g + (b - a) * g;
  }

  lemma MulGap(d: nat, g: nat)
    requires d >= 1
    ensures d * g >= g
  {
  }

  lemma Times16(k: nat)
    ensures Pow2(k + 4) == 16 * Pow2(k)
  {
    assert Pow2(k + 2) == 2 * Pow2(k + 1);
    assert Pow2(k + 4) == 2 * Pow2(k + 3);
  }

  lemma Pow2Of64()
    ensures Pow2(64) == 0x1_0000_0000_0000_0000
  {
    assert Pow2(1) == 2 && Pow2(3) == 2 * Pow2(2);
    Times16(3); Times16(7); Times16(11); Times16(15); Times16(19);
    Times16(23); Times16(27); Times16(31); Times16(35); Times16(39);
    Times16(43); Times16(47); Times16(51); Times16(55); Times16(59);
    assert Pow2(64) == 2 * Pow2(63);
  }

  // ------------------------------------------------------------ padded lengths

  /** Never shorter; the least multiple of the granule that is not shorter. */
  lemma PaddedIsLeastMultiple(l: nat, k: nat)
    requires Fits(l)
    ensures PaddedLen(l) >= l
    ensures exists q: nat :: PaddedLen(l) == q * Granule(l)
    ensures l <= k * Granule(l) ==> PaddedLen(l) <= k * Granule(l)
  {
    if l < 2 {
      assert PaddedLen(l) == l * Granule(l);
    } else {
      RoundUpIs(l, Granule(l), k);
      assert PaddedLen(l) == ((l + (Granule(l) - 1)) / Granule(l)) * Granule(l);
    }
  }

  /** A padded length stays in the octave of the length, or is the power of two that ends it. */
  lemma PaddedInOctave(l: nat)
    requires Fits(l) && l >= 2
    ensures Pow2(Exponent(l)) <= l <= PaddedLen(l) <= Pow2(Exponent(l) + 1)
  {
    var e := Exponent(l);
    ExponentIs(l, e);
    GranuleDivides(e);
    RoundUpIs(l, GranuleOf(e), 2 * Pow2(BitLength(e)));
  }

  lemma PaddedMonotone(l: nat, m: nat)
    requires Fits(l) && Fits(m) && l <= m
    ensures PaddedLen(l) <= PaddedLen(m)
  {
    PaddedIsLeastMultiple(m, 0);
    if l >= 2 {
      ExponentIs(l, Exponent(l));
      ExponentIs(m, Exponent(m));
      if Exponent(l) == Exponent(m) {
        var q: nat :| PaddedLen(m) == q * Granule(m);
        RoundUpIs(l, Granule(l), q);
      } else {
        PaddedInOctave(l);
        if m < Pow2(Exponent(l) + 1) {
          ExponentIs(m, Exponent(l));
        }
      }
    }
  }

  /** The fixed points are the multiples of the granule. */
  lemma FixedIffMultiple(l: nat)
    requires Fits(l)
    ensures PaddedLen(l) == l <==> exists q: nat :: l == q * Granule(l)
  {
    PaddedIsLeastMultiple(l, 0);
    if q: nat :| l == q * Granule(l) {
      PaddedIsLeastMultiple(l, q);
    }
  }

  /** An octave that begins under 2^64 ends there at the latest. */
  lemma OctaveFits(e: nat)
    requires Pow2(e) < 0x1_0000_0000_0000_0000
    ensures Pow2(e + 1) <= 0x1_0000_0000_0000_0000
  {
    Pow2Of64();
    if e >= 64 {
      Pow2Monotone(64, e);
    } else {
      Pow2Monotone(e + 1, 64);
    }
  }

  /** A multiple of the granule inside its octave is at least a granule before its end. */
  lemma RoomInOctave(e: nat, q: nat, p: nat)
    requires p == q * GranuleOf(e) && p < Pow2(e + 1)
    ensures p + GranuleOf(e) <= Pow2(e + 1)
  {
    GranuleDivides(e);
    var n, g := 2 * Pow2(BitLength(e)), GranuleOf(e);
    hide *;
    if q < n {
      MulApart(q, n, g);
    } else if q > n {
      MulApart(n, q, g);
    }
  }

  /** A multiple of its granule under 2^64 can be padded. */
  lemma MultipleFits(e: nat, q: nat, p: nat)
    requires p == q * GranuleOf(e) && 2 <= Pow2(e) <= p < Pow2(e + 1) && p < 0x1_0000_0000_0000_0000
    ensures Fits(p)
  {
    ExponentIs(p, e);
    OctaveFits(e);
    RoomInOctave(e, q, p);
    assert Granule(p) == GranuleOf(e);
    hide Pow2, GranuleOf, Granule;
  }

  lemma PowerFits(e: nat)
    requires 1 <= e && Pow2(e) < 0x1_0000_0000_0000_0000
    ensures Fits(Pow2(e))
  {
    GranuleDivides(e);
    assert Pow2(e + 1) == 2 * Pow2(e) && Pow2(e) == 2 * Pow2(e - 1);
    hide *;
    MultipleFits(e, Pow2(BitLength(e)), Pow2(e));
  }

  lemma PaddedIsShort(l: nat)
    requires Fits(l)
    ensures PaddedLen(l) < 0x1_0000_0000_0000_0000
  {
    RoundUpIs(l, Granule(l), 0);
    hide RoundUp, Granule;
  }

  lemma OctaveOf(l: nat)
    requires l >= 2
    ensures Exponent(l) >= 1 && 2 <= Pow2(Exponent(l)) <= l && Granule(l) == GranuleOf(Exponent(l))
  {
    ExponentIs(l, Exponent(l));
    ExponentIs(l, 0);
    assert Pow2(0) == 1 && Pow2(1) == 2;
    Pow2Monotone(1, Exponent(l));
  }

  /** So padding a padded length does not overflow either. */
  lemma PaddedFits(l: nat)
    requires Fits(l)
    ensures Fits(PaddedLen(l))
  {
    if l >= 2 {
      PaddedIsShort(l);
      PaddedIsLeastMultiple(l, 0);
      PaddedInOctave(l);
      OctaveOf(l);
      hide *;
      var e, p := Exponent(l), PaddedLen(l);
      if p < Pow2(e + 1) {
        var q: nat :| p == q * Granule(l);
        MultipleFits(e, q, p);
      } else {
        PowerFits(e + 1);
      }
    }
  }

  lemma PaddedIdempotent(l: nat)
    requires Fits(l)
    ensures Fits(PaddedLen(l)) && PaddedLen(PaddedLen(l)) == PaddedLen(l)
  {
    PaddedFits(l);
    if l >= 2 {
      var e := Exponent(l);
      var p := PaddedLen(l);
      PaddedInOctave(l);
      if p < Pow2(e + 1) {
        ExponentIs(p, e);
        PaddedIsLeastMultiple(l, 0);
      } else {
        Pow2Monotone(e + 1, e + 2);
        ExponentIs(p, e + 1);
        GranuleDivides(e + 1);
      }
      FixedIffMultiple(p);
    }
  }

  /** The overhead is under an eighth of the length, hence under the promised 13 %. */
  lemma OverheadBound(l: nat)
    requires Fits(l) && l >= 1
    ensures 8 * (PaddedLen(l) - l) < l
    ensures 100 * (PaddedLen(l) - l) < 13 * l
  {
    if l >= 2 {
      var e := Exponent(l);
      var g := GranuleOf(e);
      ExponentIs(l, e);
      RoundUpIs(l, g, 0);
      GranuleDivides(e);
      if e >= 4 {
        EighthOfOctave(e);
      } else {
        SmallOctaves(l);
      }
    }
  }

  lemma EighthOfOctave(e: nat)
    requires e >= 4
    ensures 8 * GranuleOf(e) <= Pow2(e)
  {
    GranuleDivides(e);
    ThreeBits(e);
    Pow2Monotone(3, BitLength(e));
    assert Pow2(3) == 8;
    MultipleBetween(8, Pow2(BitLength(e)), GranuleOf(e));
  }

  lemma ThreeBits(n: nat)
    requires n >= 4
    ensures BitLength(n) >= 3
  {
    assert BitLength(n) == 1 + BitLength(n / 2);
    assert BitLength(n / 2) == 1 + BitLength(n / 2 / 2);
  }

  lemma SmallOctaves(l: nat)
    requires Fits(l) && 2 <= l && Exponent(l) < 4
    ensures 8 * (PaddedLen(l) - l) < l
  {
    var e := Exponent(l);
    ExponentIs(l, e);
    assert BitLength(0) == 0 && BitLength(1) == 1 && BitLength(2) == 2 && BitLength(3) == 2;
    assert Pow2(0) == 1 && Pow2(1) == 2 && Pow2(2) == 4 && Pow2(3) == 8;
    RoundUpIs(l, GranuleOf(e), 4);
  }

  // ------------------------------------------------ how many sizes are observable

  /** The padded lengths in the octave [2^e, 2^(e+1)). */
  ghost function FixedPoints(e: nat): set<nat>
    requires e < 64
  {
    set l: nat | Pow2(e) <= l < Pow2(e + 1) && Fits(l) && PaddedLen(l) == l
  }

  /** `n` multiples of `g`, from `a * g` on. */
  ghost function Multiples(a: nat, n: nat, g: nat): set<nat>
  {
    if n == 0 then {} else Multiples(a, n - 1, g) + {(a + (n - 1)) * g}
  }

  lemma {:induction false} MultiplesCount(a: nat, n: nat, g: nat)
    requires g > 0
    ensures |Multiples(a, n, g)| == n
    ensures forall x :: x in Multiples(a, n, g) ==> x < (a + n) * g
  {
    if n > 0 {
      MultiplesCount(a, n - 1, g);
      MulApart(a + (n - 1), a + n, g);
    }
  }

  lemma {:induction false} MultiplesAre(a: nat, n: nat, g: nat, x: nat)
    requires g > 0
    ensures x in Multiples(a, n, g) <==> exists k: nat :: a <= k < a + n && x == k * g
  {
    if n > 0 {
      MultiplesAre(a, n - 1, g, x);
    }
  }

  lemma OctaveGranule(e: nat, l: nat)
    requires 1 <= e && Pow2(e) <= l < Pow2(e + 1)
    ensures Granule(l) == GranuleOf(e)
  {
    ExponentIs(l, e);
    Pow2Monotone(1, e);
    assert Pow2(1) == 2;
  }

  lemma OctaveEnds(e: nat)
    requires 1 <= e < 64
    ensures var n, g := Pow2(BitLength(e)), GranuleOf(e);
      Pow2(e) == n * g && Pow2(e + 1) == (n + n) * g && Pow2(e + 1) <= 0x1_0000_0000_0000_0000
  {
    GranuleDivides(e);
    Pow2Monotone(e + 1, 64);
    Pow2Of64();
    hide Pow2, BitLength, GranuleOf;
  }

  lemma FixedIsMultiple(e: nat, l: nat)
    requires 1 <= e < 64 && l in FixedPoints(e)
    ensures l in Multiples(Pow2(BitLength(e)), Pow2(BitLength(e)), GranuleOf(e))
  {
    var n, g := Pow2(BitLength(e)), GranuleOf(e);
    OctaveEnds(e);
    OctaveGranule(e, l);
    FixedIffMultiple(l);
    hide Pow2, BitLength, GranuleOf, PaddedLen, Granule, Fits, Multiples;
    var q: nat :| l == q * g;
    MultipleBetween(n, q, g);
    MultipleBetween(q, n + n, g);
    MultiplesAre(n, n, g, l);
  }

  lemma MultipleIsFixed(e: nat, l: nat)
    requires 1 <= e < 64 && l in Multiples(Pow2(BitLength(e)), Pow2(BitLength(e)), GranuleOf(e))
    ensures l in FixedPoints(e)
  {
    var n, g := Pow2(BitLength(e)), GranuleOf(e);
    OctaveEnds(e);
    MultiplesAre(n, n, g, l);
    hide Pow2, BitLength, GranuleOf, PaddedLen, Granule, Multiples;
    var k: nat :| n <= k < n + n && l == k * g;
    MultipleBetween(n, k, g);
    MultipleBetween(k, n + n, g);
    MulApart(k, n + n, g);
    OctaveGranule(e, l);
    FixedIffMultiple(l);
  }

  /** The padded lengths of an octave are the multiples of its granule. */
  lemma FixedAreMultiples(e: nat, l: nat)
    requires 1 <= e < 64
    ensures l in FixedPoints(e) <==> l in Multiples(Pow2(BitLength(e)), Pow2(BitLength(e)), GranuleOf(e))
  {
    hide *;
    if l in FixedPoints(e) {
      FixedIsMultiple(e, l);
    }
    if l in Multiples(Pow2(BitLength(e)), Pow2(BitLength(e)), GranuleOf(e)) {
      MultipleIsFixed(e, l);
    }
  }

  /** Every octave of 64-bit lengths from the second on has exactly 2^s padded lengths, s the bits of its exponent:
   *  at most twice the exponent.
   */
  lemma ObservableSizes(e: nat)
    requires 1 <= e < 64
    ensures |FixedPoints(e)| == Pow2(BitLength(e)) <= 2 * e
  {
    var n, g := Pow2(BitLength(e)), GranuleOf(e);
    forall l: nat
      ensures l in FixedPoints(e) <==> l in Multiples(n, n, g)
    {
      FixedAreMultiples(e, l);
    }
    assert FixedPoints(e) == Multiples(n, n, g);
    MultiplesCount(n, n, g);
    BitLengthBounds(e);
    assert n == 2 * Pow2(BitLength(e) - 1);
  }

  lemma MultipleBetween(a: nat, b: nat, g: nat)
    requires g > 0
    ensures a * g <= b * g <==> a <= b
    ensures a * g < b * g <==> a < b
  {
    if a < b {
      MulApart(a, b, g);
    } else if b < a {
      MulApart(b, a, g);
    }
  }

  // ------------------------------------------------------------------ the frame

  datatype UnpadError = TooShort(got: nat, need: nat) | InvalidLength(declared: u64, available: nat)

  /** The frame of `data`: its length, the data, zeros up to the padded length. */
  function Frame(data: seq<byte>): seq<byte>
    requires Fits(LEN_PREFIX + |data|)
  {
    PaddedIsLeastMultiple(LEN_PREFIX + |data|, 0);
    ToBe(|data|, LEN_PREFIX) + data + ZeroBytes(PaddedLen(LEN_PREFIX + |data|) - LEN_PREFIX - |data|)
  }

  method Pad(data: seq<byte>) returns (out: seq<byte>)
    requires Fits(LEN_PREFIX + |data|)
    ensures out == Frame(data)
  {
    var content := LEN_PREFIX + |data|;
    var target := PaddedLen(content);
    PaddedIsLeastMultiple(content, 0);
    out := ToBe(|data|, LEN_PREFIX);
    out := out + data;
    out := out + ZeroBytes(target - |out|);
  }

  function Unpad(padded: seq<byte>): Result<seq<byte>, UnpadError>
  {
    if |padded| < LEN_PREFIX then Err(TooShort(|padded|, LEN_PREFIX))
    else
      var body := padded[LEN_PREFIX..];
      var declared := Declared(padded);
      if declared <= |body| then Ok(body[..declared]) else Err(InvalidLength(declared, |body|))
  }

  /** What the length prefix says. */
  function Declared(padded: seq<byte>): (n: u64)
    requires |padded| >= LEN_PREFIX
  {
    ToFromBe(padded[..LEN_PREFIX]);
    Powers();
    FromBe(padded[..LEN_PREFIX])
  }

  /** A block unpads to `data` exactly when it starts with the length of `data` and then `data`; hence
   *  the frame does, whatever follows it, and no block yields bytes that it does not hold.
   */
  lemma UnpadExactly(block: seq<byte>, data: seq<byte>)
    requires |data| < 0x1_0000_0000_0000_0000
    ensures Unpad(block) == Ok(data) <==> ToBe(|data|, LEN_PREFIX) + data <= block
  {
    hide *;
    if ToBe(|data|, LEN_PREFIX) + data <= block {
      UnpadGives(block, data);
    }
    if Unpad(block) == Ok(data) {
      UnpadTakes(block, data);
    }
  }

  lemma UnpadGives(block: seq<byte>, data: seq<byte>)
    requires |data| < 0x1_0000_0000_0000_0000 && ToBe(|data|, LEN_PREFIX) + data <= block
    ensures Unpad(block) == Ok(data)
  {
    hide ToBe, FromBe, Pow256;
    Powers();
    FromToBe(|data|, LEN_PREFIX);
    var head := ToBe(|data|, LEN_PREFIX);
    assert block[..LEN_PREFIX] == (head + data)[..LEN_PREFIX] == head;
    assert block[LEN_PREFIX..][..|data|] == (head + data)[LEN_PREFIX..] == data;
  }

  lemma UnpadTakes(block: seq<byte>, data: seq<byte>)
    requires Unpad(block) == Ok(data)
    ensures ToBe(|data|, LEN_PREFIX) + data <= block
  {
    UnpadSays(block, data);
    hide Unpad, ToBe;
    assert block[..LEN_PREFIX + |data|] == ToBe(|data|, LEN_PREFIX) + data;
  }

  lemma UnpadSays(block: seq<byte>, data: seq<byte>)
    requires Unpad(block) == Ok(data)
    ensures LEN_PREFIX + |data| <= |block|
    ensures block[..LEN_PREFIX] == ToBe(|data|, LEN_PREFIX) && block[LEN_PREFIX..LEN_PREFIX + |data|] == data
  {
    hide ToBe, FromBe, Pow256;
    ToFromBe(block[..LEN_PREFIX]);
    assert block[LEN_PREFIX..][..|data|] == block[LEN_PREFIX..LEN_PREFIX + |data|];
  }

  lemma FrameRoundTrip(data: seq<byte>, tail: seq<byte>)
    requires Fits(LEN_PREFIX + |data|)
    ensures Unpad(Frame(data) + tail) == Ok(data)
    ensures |Frame(data)| == PaddedLen(LEN_PREFIX + |data|)
  {
    hide ToBe, FromBe, Pow256, PaddedLen, Granule;
    PaddedIsLeastMultiple(LEN_PREFIX + |data|, 0);
    FitsBelow(LEN_PREFIX + |data|);
    var head := ToBe(|data|, LEN_PREFIX);
    assert Frame(data) + tail == head + data + (ZeroBytes(PaddedLen(LEN_PREFIX + |data|) - LEN_PREFIX - |data|) + tail);
    UnpadExactly(Frame(data) + tail, data);
  }

  lemma FitsBelow(l: nat)
    requires Fits(l)
    ensures l < 0x1_0000_0000_0000_0000
  {
  }

  /** Shorter frames of equal padded length cannot be told apart by their length. */
  lemma SameSizeSameFrameLength(a: seq<byte>, b: seq<byte>)
    requires Fits(LEN_PREFIX + |a|) && Fits(LEN_PREFIX + |b|) && |a| <= |b| <= PaddedLen(LEN_PREFIX + |a|) - LEN_PREFIX
    ensures |Frame(a)| == |Frame(b)|
  {
    hide ToBe;
    var p := PaddedLen(LEN_PREFIX + |a|);
    PaddedIdempotent(LEN_PREFIX + |a|);
    PaddedMonotone(LEN_PREFIX + |a|, LEN_PREFIX + |b|);
    PaddedMonotone(LEN_PREFIX + |b|, p);
    FrameRoundTrip(a, []);
    FrameRoundTrip(b, []);
  }

  /** Where everything lies in a frame: the length in eight bytes, the most significant first, the data, zeros. */
  lemma FrameLayout(data: seq<byte>)
    requires Fits(8 + |data|)
    ensures var f := Frame(data);
      && |f| == PaddedLen(8 + |data|) >= 8 + |data|
      && At64(f, 0) == |data| && f[8..8 + |data|] == data
      && forall i :: 8 + |data| <= i < |f| ==> f[i] == 0
  {
    PaddedIsLeastMultiple(8 + |data|, 0);
    FitsBelow(8 + |data|);
    Powers();
    var f := Frame(data);
    assert f[0..8] == ToBe(|data|, 8);
    FromToBe(|data|, 8);
    Field64(f, 0);
    hide ToBe, FromBe, Pow256, PaddedLen, At64, Granule;
  }

  /** Every answer of `unpad`. */
  lemma UnpadAnswers(block: seq<byte>)
    ensures |block| < 8 ==> Unpad(block) == Err(TooShort(|block|, 8))
    ensures |block| >= 8 ==>
      var n, room := At64(block, 0), |block| - 8;
      Unpad(block) == if n <= room then Ok(block[8..8 + n]) else Err(InvalidLength(n, room))
  {
    if |block| >= 8 {
      Field64(block, 0);
      assert block[0..8] == block[..8];
      hide FromBe, At64;
      var n := At64(block, 0);
      if n <= |block| - 8 {
        assert block[8..][..n] == block[8..8 + n];
      }
    }
  }
}
