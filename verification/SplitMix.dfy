/** `src/lab/engine.rs`: the SplitMix64 generator of the attack laboratory. */
module SplitMix {
  import opened Padme
  import opened Residues

  function Shift30(z: bv64): bv64 { z ^ (z >> 30) }

  function Shift27(z: bv64): bv64 { z ^ (z >> 27) }

  function Shift31(z: bv64): bv64 { z ^ (z >> 31) }

  function TimesFirst(z: bv64): bv64 { z * 0xBF58_476D_1CE4_E5B9 }

  function TimesSecond(z: bv64): bv64 { z * 0x94D0_49BB_1331_11EB }

  function Mix(z: bv64): bv64 { Shift31(TimesSecond(Shift27(TimesFirst(Shift30(z))))) }

  /** The increment of the state. */
  function Next(state: bv64): bv64 { state + 0x9E37_79B9_7F4A_7C15 }

  function StateAfter(seed: bv64, n: nat): bv64
  {
    if n == 0 then seed else Next(StateAfter(seed, n - 1))
  }

  /** The word number `n`, from 0, of the generator with this seed. */
  function Output(seed: bv64, n: nat): bv64 { Mix(StateAfter(seed, n + 1)) }

  function Odd(x: bv64): bool { x & 1 == 1 }

  function Half(x: bv64): bv64 { x >> 1 }

  function Value(x: bv64, w: nat): nat
  {
    if w == 0 then 0 else 2 * Value(Half(x), w - 1) + if Odd(x) then 1 else 0
  }

  /** The number that a word stands for. */
  function ToNat(word: bv64): nat { Value(word, 64) }

  class Rng {
    var state: bv64
    ghost const seed: bv64
    ghost var drawn: nat

    ghost predicate Valid()
      reads this
    {
      state == StateAfter(seed, drawn)
    }

    constructor Seeded(seed: bv64)
      ensures Valid() && this.seed == seed && drawn == 0
    {
      this.seed := seed;
      state := seed;
      drawn := 0;
    }

    method NextU64() returns (z: bv64)
      requires Valid()
      modifies this
      ensures Valid() && drawn == old(drawn) + 1
      ensures z == Output(seed, old(drawn))
    {
      hide Next, Shift30, Shift27, Shift31, TimesFirst, TimesSecond;
      state := Next(state);
      drawn := drawn + 1;
      z := state;
      z := TimesFirst(Shift30(z));
      z := TimesSecond(Shift27(z));
      z := Shift31(z);
    }

    method Below(n: nat) returns (r: nat)
      requires Valid()
      modifies this
      ensures Valid()
      ensures n == 0 ==> r == 0 && drawn == old(drawn)
      ensures n > 0 ==> drawn == old(drawn) + 1 && r == ToNat(Output(seed, old(drawn))) % n && r < n
    {
      hide Next, Mix, ToNat;
      if n == 0 {
        return 0;
      }
      var z := NextU64();
      r := ToNat(z) % n;
    }
  }

  // ---------------------------------------------------------- mixing can be undone

  function Unshift30(y: bv64): bv64 { y ^ (y >> 30) ^ (y >> 60) }

  function Unshift27(y: bv64): bv64 { y ^ (y >> 27) ^ (y >> 54) }

  function Unshift31(y: bv64): bv64 { y ^ (y >> 31) ^ (y >> 62) }

  /** The constants are odd, so each has an inverse modulo 2^64. */
  function UntimesFirst(y: bv64): bv64 { y * 0x96DE_1B17_3F11_9089 }

  function UntimesSecond(y: bv64): bv64 { y * 0x3196_42B2_D24D_8EC3 }

  function Unmix(v: bv64): bv64 { Unshift30(UntimesFirst(Unshift27(UntimesSecond(Unshift31(v))))) }

  lemma Unshift30Shift30(z: bv64)
    ensures Unshift30(z ^ (z >> 30)) == z
  {
  }

  lemma Shift30Unshift30(z: bv64)
    ensures Shift30(z ^ (z >> 30) ^ (z >> 60)) == z
  {
  }

  lemma Unshift27Shift27(z: bv64)
    ensures Unshift27(z ^ (z >> 27)) == z
  {
  }

  lemma Shift27Unshift27(z: bv64)
    ensures Shift27(z ^ (z >> 27) ^ (z >> 54)) == z
  {
  }

  lemma Unshift31Shift31(z: bv64)
    ensures Unshift31(z ^ (z >> 31)) == z
  {
  }

  lemma Shift31Unshift31(z: bv64)
    ensures Shift31(z ^ (z >> 31) ^ (z >> 62)) == z
  {
  }

  lemma UntimesFirstTimesFirst(z: bv64)
    ensures UntimesFirst(z * 0xBF58_476D_1CE4_E5B9) == z
  {
  }

  lemma TimesFirstUntimesFirst(z: bv64)
    ensures TimesFirst(z * 0x96DE_1B17_3F11_9089) == z
  {
  }

  lemma UntimesSecondTimesSecond(z: bv64)
    ensures UntimesSecond(z * 0x94D0_49BB_1331_11EB) == z
  {
  }

  lemma TimesSecondUntimesSecond(z: bv64)
    ensures TimesSecond(z * 0x3196_42B2_D24D_8EC3) == z
  {
  }

  lemma Shift30Undone(z: bv64)
    ensures Unshift30(Shift30(z)) == z
  {
    hide Unshift30;
    Unshift30Shift30(z);
  }

  lemma Unshift30Undone(z: bv64)
    ensures Shift30(Unshift30(z)) == z
  {
    hide Shift30;
    Shift30Unshift30(z);
  }

  lemma Shift27Undone(z: bv64)
    ensures Unshift27(Shift27(z)) == z
  {
    hide Unshift27;
    Unshift27Shift27(z);
  }

  lemma Unshift27Undone(z: bv64)
    ensures Shift27(Unshift27(z)) == z
  {
    hide Shift27;
    Shift27Unshift27(z);
  }

  lemma Shift31Undone(z: bv64)
    ensures Unshift31(Shift31(z)) == z
  {
    hide Unshift31;
    Unshift31Shift31(z);
  }

  lemma Unshift31Undone(z: bv64)
    ensures Shift31(Unshift31(z)) == z
  {
    hide Shift31;
    Shift31Unshift31(z);
  }

  lemma TimesFirstUndone(z: bv64)
    ensures UntimesFirst(TimesFirst(z)) == z
  {
    hide UntimesFirst;
    UntimesFirstTimesFirst(z);
  }

  lemma UntimesFirstUndone(z: bv64)
    ensures TimesFirst(UntimesFirst(z)) == z
  {
    hide TimesFirst;
    TimesFirstUntimesFirst(z);
  }

  lemma TimesSecondUndone(z: bv64)
    ensures UntimesSecond(TimesSecond(z)) == z
  {
    hide UntimesSecond;
    UntimesSecondTimesSecond(z);
  }

  lemma UntimesSecondUndone(z: bv64)
    ensures TimesSecond(UntimesSecond(z)) == z
  {
    hide TimesSecond;
    TimesSecondUntimesSecond(z);
  }

  /** The mixing of a state is a permutation of the 64-bit words. */
  lemma MixIsPermutation(z: bv64)
    ensures Unmix(Mix(z)) == z
    ensures Mix(Unmix(z)) == z
  {
    hide Shift30, Shift27, Shift31, TimesFirst, TimesSecond;
    hide Unshift30, Unshift27, Unshift31, UntimesFirst, UntimesSecond;
    var y := TimesFirst(Shift30(z));
    var x := TimesSecond(Shift27(y));
    Shift31Undone(x);
    TimesSecondUndone(Shift27(y));
    Shift27Undone(y);
    TimesFirstUndone(Shift30(z));
    Shift30Undone(z);

    var a := UntimesSecond(Unshift31(z));
    var b := UntimesFirst(Unshift27(a));
    Unshift30Undone(b);
    UntimesFirstUndone(Unshift27(a));
    Unshift27Undone(a);
    UntimesSecondUndone(Unshift31(z));
    Unshift31Undone(z);
  }

  // --------------------------------------------- the state is a counter in disguise

  function Inc(x: bv64): bv64 { x + 1 }

  /** `n` modulo 2^64, by counting. */
  function Counter(n: nat): bv64
  {
    if n == 0 then 0 else Inc(Counter(n - 1))
  }

  function AtCount(seed: bv64, c: bv64): bv64 { seed + c * 0x9E37_79B9_7F4A_7C15 }

  /** The increment is odd, so it has an inverse too and the count can be read off the state. */
  function CountOf(seed: bv64, state: bv64): bv64 { (state - seed) * 0xF1DE_83E1_9937_733D }

  lemma AtCountZero(seed: bv64)
    ensures AtCount(seed, 0) == seed
  {
  }

  lemma NextOfSum(seed: bv64, c: bv64)
    ensures AtCount(seed, c + 1) == Next(seed + c * 0x9E37_79B9_7F4A_7C15)
  {
  }

  lemma NextCount(seed: bv64, c: bv64)
    ensures AtCount(seed, Inc(c)) == Next(AtCount(seed, c))
  {
    assert AtCount(seed, Inc(c)) == AtCount(seed, c + 1) by {
      hide AtCount;
    }
    NextOfSum(seed, c);
    assert Next(AtCount(seed, c)) == Next(seed + c * 0x9E37_79B9_7F4A_7C15) by {
      hide Next;
    }
    hide *;
  }

  lemma CountOfSum(seed: bv64, c: bv64)
    ensures CountOf(seed, seed + c * 0x9E37_79B9_7F4A_7C15) == c
  {
  }

  lemma CountOfAtCount(seed: bv64, c: bv64)
    ensures CountOf(seed, AtCount(seed, c)) == c
  {
    hide CountOf;
    CountOfSum(seed, c);
  }

  lemma AtCountQuotient(seed: bv64, state: bv64)
    ensures AtCount(seed, (state - seed) * 0xF1DE_83E1_9937_733D) == state
  {
  }

  lemma AtCountCountOf(seed: bv64, state: bv64)
    ensures AtCount(seed, CountOf(seed, state)) == state
  {
    hide AtCount;
    AtCountQuotient(seed, state);
  }

  lemma {:induction false} StateIsCounter(seed: bv64, n: nat)
    ensures StateAfter(seed, n) == AtCount(seed, Counter(n))
  {
    hide AtCount, Inc, Next;
    if n == 0 {
      AtCountZero(seed);
    } else {
      StateIsCounter(seed, n - 1);
      NextCount(seed, Counter(n - 1));
    }
  }

  // ------------------------------------------- the counter takes every value once

  function Join(odd: bool, half: bv64): bv64 { if odd then (half << 1) | 1 else half << 1 }

  /** The greatest word of `w` bits. */
  function Ones(w: nat): bv64 { if w == 0 then 0 else Join(true, Ones(w - 1)) }

  /** The bits of `x` are among those of `y`. */
  predicate Within(x: bv64, y: bv64) { x & !y == 0 }

  lemma FourOnes(x: bv64)
    ensures Join(true, Join(true, Join(true, Join(true, x)))) == (x << 4) | 0xF
  {
  }

  lemma OnesByFour(w: nat, x: bv64)
    requires Ones(w) == x
    ensures Ones(w + 4) == (x << 4) | 0xF
  {
    FourOnes(x);
    hide Join;
    assert Ones(w + 2) == Join(true, Join(true, x));
  }

  lemma AllOnes()
    ensures Ones(63) == 0x7FFF_FFFF_FFFF_FFFF
    ensures Ones(64) == 0xFFFF_FFFF_FFFF_FFFF
  {
    assert Ones(3) == 7;
    OnesByFour(3, 7);
    OnesByFour(7, 0x7F);
    OnesByFour(11, 0x7FF);
    OnesByFour(15, 0x7FFF);
    OnesByFour(19, 0x7_FFFF);
    OnesByFour(23, 0x7F_FFFF);
    OnesByFour(27, 0x7FF_FFFF);
    OnesByFour(31, 0x7FFF_FFFF);
    OnesByFour(35, 0x7_FFFF_FFFF);
    OnesByFour(39, 0x7F_FFFF_FFFF);
    OnesByFour(43, 0x7FF_FFFF_FFFF);
    OnesByFour(47, 0x7FFF_FFFF_FFFF);
    OnesByFour(51, 0x7_FFFF_FFFF_FFFF);
    OnesByFour(55, 0x7F_FFFF_FFFF_FFFF);
    OnesByFour(59, 0x7FF_FFFF_FFFF_FFFF);
    assert Ones(64) == Join(true, Ones(63));
  }

  lemma SplitWord(x: bv64)
    ensures x == Join(Odd(x), Half(x))
  {
  }

  lemma JoinSplit(odd: bool, half: bv64)
    requires Within(half, 0x7FFF_FFFF_FFFF_FFFF)
    ensures Odd(Join(odd, half)) == odd && Half(Join(odd, half)) == half
  {
  }

  lemma IncJoin(half: bv64)
    ensures Inc(Join(false, half)) == Join(true, half)
    ensures Inc(Join(true, half)) == Join(false, Inc(half))
  {
  }

  lemma WithinHalf(x: bv64, ones: bv64)
    requires Within(x, Join(true, ones))
    ensures Within(Half(x), ones)
  {
  }

  lemma WithinOnesMore(half: bv64, ones: bv64)
    requires Within(half, ones)
    ensures Within((half << 1) | 1, (ones << 1) | 1)
  {
  }

  lemma WithinZeroMore(half: bv64, ones: bv64)
    requires Within(half, ones)
    ensures Within(half << 1, (ones << 1) | 1)
  {
  }

  lemma WithinJoin(odd: bool, half: bv64, ones: bv64)
    requires Within(half, ones)
    ensures Within(Join(odd, half), Join(true, ones))
  {
    hide Within;
    if odd {
      WithinOnesMore(half, ones);
    } else {
      WithinZeroMore(half, ones);
    }
  }

  lemma WithinTransitive(x: bv64, y: bv64, z: bv64)
    requires Within(x, y) && Within(y, z)
    ensures Within(x, z)
  {
  }

  lemma WithinZero(x: bv64)
    requires Within(x, 0)
    ensures x == 0
  {
  }

  /** Nothing but ones, from the low end. */
  predicate LowOnes(x: bv64) { x & (x + 1) == 0 }

  lemma LowOnesJoin(x: bv64)
    requires LowOnes(x)
    ensures LowOnes(Join(true, x))
    ensures !Within(x, 0x7FFF_FFFF_FFFF_FFFF) ==> !Within(Join(true, x), 0x7FFF_FFFF_FFFF_FFFF)
  {
  }

  lemma {:induction false} OnesAreLow(w: nat)
    ensures LowOnes(Ones(w))
  {
    if w == 0 {
      assert Ones(0) == 0;
    } else {
      OnesAreLow(w - 1);
      hide LowOnes, Join;
      LowOnesJoin(Ones(w - 1));
    }
  }

  /** Once the top bit is a one, it stays. */
  lemma {:induction false} TopOneStays(w: nat, d: nat)
    ensures !Within(Ones(w), 0x7FFF_FFFF_FFFF_FFFF) ==> !Within(Ones(w + d), 0x7FFF_FFFF_FFFF_FFFF)
  {
    hide Within, Join, LowOnes;
    if d > 0 {
      TopOneStays(w, d - 1);
      OnesAreLow(w + d - 1);
      LowOnesJoin(Ones(w + d - 1));
    }
  }

  lemma OnesLow(w: nat)
    requires w <= 63
    ensures Within(Ones(w), 0x7FFF_FFFF_FFFF_FFFF)
  {
    AllOnes();
    hide Ones;
    TopOneStays(w, 63 - w);
  }

  /** Reading a counter gives back the count. */
  lemma {:induction false} ValueOfCounter(n: nat, w: nat)
    requires w <= 64 && n < Pow2(w)
    ensures Within(Counter(n), Ones(w)) && Value(Counter(n), w) == n
    decreases w
  {
    hide Within, Join, Inc, Odd, Half;
    if w == 0 {
      assert Counter(0) == 0 == Ones(0);
      WithinItself(0);
    } else {
      var m, odd := n / 2, n % 2 == 1;
      ValueOfCounter(m, w - 1);
      CounterByHalf(m);
      assert Counter(n) == Join(odd, Counter(m));
      OnesLow(w - 1);
      WithinTransitive(Counter(m), Ones(w - 1), 0x7FFF_FFFF_FFFF_FFFF);
      JoinSplit(odd, Counter(m));
      WithinJoin(odd, Counter(m), Ones(w - 1));
    }
  }

  lemma WithinItself(x: bv64)
    ensures Within(x, x)
  {
  }

  lemma {:induction false} CounterByHalf(m: nat)
    ensures Counter(2 * m) == Join(false, Counter(m))
    ensures Counter(2 * m + 1) == Join(true, Counter(m))
  {
    hide Join, Inc;
    if m == 0 {
      JoinZero();
    } else {
      CounterByHalf(m - 1);
      IncJoin(Counter(m - 1));
      assert Counter(2 * m) == Inc(Counter(2 * (m - 1) + 1));
    }
    IncJoin(Counter(m));
  }

  lemma JoinZero()
    ensures Join(false, 0) == 0
  {
  }

  /** And every word is the count of its value. */
  lemma {:induction false} CounterOfValue(x: bv64, w: nat)
    requires w <= 64 && Within(x, Ones(w))
    ensures Value(x, w) < Pow2(w) && Counter(Value(x, w)) == x
    decreases w
  {
    hide Within, Join, Inc, Odd, Half;
    if w == 0 {
      WithinZero(x);
    } else {
      WithinHalf(x, Ones(w - 1));
      CounterOfValue(Half(x), w - 1);
      SplitWord(x);
      CounterByHalf(Value(Half(x), w - 1));
    }
  }

  lemma AnyWord(x: bv64)
    ensures Within(x, 0xFFFF_FFFF_FFFF_FFFF)
  {
  }

  lemma CounterBijection(n: nat, x: bv64)
    ensures n < Pow2(64) ==> Value(Counter(n), 64) == n
    ensures Value(x, 64) < Pow2(64) && Counter(Value(x, 64)) == x
  {
    if n < Pow2(64) {
      ValueOfCounter(n, 64);
    }
    AllOnes();
    AnyWord(x);
    CounterOfValue(x, 64);
  }

  // ------------------------------------------------------------ the sequence of words

  /** The draw, from 0 and below 2^64, at which a generator gives `word`. */
  function Position(seed: bv64, word: bv64): nat { Value(Minus1(CountOf(seed, Unmix(word))), 64) }

  function Minus1(x: bv64): bv64 { x - 1 }

  lemma IncMinus1(x: bv64)
    ensures Inc(Minus1(x)) == x
    ensures Minus1(Inc(x)) == x
  {
  }

  /** From any seed, the first 2^64 words are all the 64-bit words, each once. */
  lemma EveryWordOnce(seed: bv64, word: bv64, n: nat)
    requires n < Pow2(64)
    ensures Position(seed, word) < Pow2(64)
    ensures Output(seed, n) == word <==> n == Position(seed, word)
  {
    hide Mix, Unmix, AtCount, CountOf, Inc, Minus1, Next, Value, Pow2;
    var p := Position(seed, word);
    var state := Unmix(word);
    var c := Minus1(CountOf(seed, state));
    CounterBijection(n, c);
    IncMinus1(CountOf(seed, state));
    StateIsCounter(seed, p + 1);
    AtCountCountOf(seed, state);
    MixIsPermutation(word);
    assert Output(seed, p) == word;

    StateIsCounter(seed, n + 1);
    MixIsPermutation(StateAfter(seed, n + 1));
    CountOfAtCount(seed, Counter(n + 1));
    IncMinus1(Counter(n));
  }

  lemma FirstWordsDistinct(seed: bv64, i: nat, j: nat)
    requires i < j < Pow2(64)
    ensures Output(seed, i) != Output(seed, j)
  {
    EveryWordOnce(seed, Output(seed, j), i);
    EveryWordOnce(seed, Output(seed, j), j);
  }

  lemma PrevNext(x: bv64, y: bv64)
    requires Next(x) == Next(y)
    ensures x == y
  {
  }

  lemma {:induction false} StatesDiffer(s: bv64, t: bv64, n: nat)
    requires s != t
    ensures StateAfter(s, n) != StateAfter(t, n)
  {
    hide Next;
    if n > 0 {
      StatesDiffer(s, t, n - 1);
      if Next(StateAfter(s, n - 1)) == Next(StateAfter(t, n - 1)) {
        PrevNext(StateAfter(s, n - 1), StateAfter(t, n - 1));
      }
    }
  }

  /** Generators with different seeds differ at every draw. */
  lemma SeedsDiffer(s: bv64, t: bv64, n: nat)
    requires s != t
    ensures Output(s, n) != Output(t, n)
  {
    hide Mix, Unmix;
    StatesDiffer(s, t, n + 1);
    MixIsPermutation(StateAfter(s, n + 1));
    MixIsPermutation(StateAfter(t, n + 1));
  }

  lemma {:induction false} StateAfterSum(seed: bv64, m: nat, n: nat)
    ensures StateAfter(seed, m + n) == StateAfter(StateAfter(seed, m), n)
  {
    hide Next;
    if n > 0 {
      StateAfterSum(seed, m, n - 1);
    }
  }

  /** Yet all seeds give one and the same cycle of words, entered at another point. */
  lemma SeedsShareTheCycle(s: bv64, t: bv64) returns (d: nat)
    ensures d < Pow2(64)
    ensures forall n: nat :: Output(t, n) == Output(s, d + n)
  {
    hide Mix, AtCount, CountOf, Inc, Next, Value, Pow2;
    var c := CountOf(s, t);
    d := Value(c, 64);
    CounterBijection(0, c);
    StateIsCounter(s, d);
    AtCountCountOf(s, t);
    forall n: nat
      ensures Output(t, n) == Output(s, d + n)
    {
      StateAfterSum(s, d, n + 1);
    }
  }

  /** And the cycle is exactly 2^64 long. */
  lemma WordsRepeat(seed: bv64, n: nat)
    ensures Output(seed, n + Pow2(64)) == Output(seed, n)
  {
    hide *;
    FullTurn();
    Turn(seed, n, Pow2(64));
  }

  lemma Turn(seed: bv64, n: nat, p: nat)
    requires Counter(p) == 0
    ensures Output(seed, n + p) == Output(seed, n)
  {
    hide Mix, AtCount, Next, Counter, StateAfter;
    StateIsCounter(seed, p);
    AtCountZero(seed);
    StateAfterSum(seed, p, n + 1);
    assert n + p + 1 == p + (n + 1);
  }

  /** The word that 2^64 counts reach has a count below 2^64, and one less than it is reached only once. */
  lemma FullTurn()
    ensures Counter(Pow2(64)) == 0
  {
    hide Inc, Minus1, Value, Pow2;
    var last := Pow2(64) - 1;
    var y := Counter(last + 1);
    var v := Value(y, 64);
    CounterBijection(last, y);
    IncMinus1(Counter(last));
    if v > 0 {
      CounterBijection(v - 1, y);
      IncMinus1(Counter(v - 1));
    }
  }

  // ----------------------------------------------------------- how even `below` is

  /** Among the first 2^64 draws, those for which `below(n)` answers `d`. */
  ghost function Drawing(seed: bv64, n: nat, d: nat): set<nat>
    requires n > 0
  {
    set i | i in Upto(Pow2(64)) && ToNat(Output(seed, i)) % n == d
  }

  lemma ToNatOfDraw(seed: bv64, i: nat)
    requires i < Pow2(64)
    ensures ToNat(Output(seed, i)) < Pow2(64)
    ensures Position(seed, Counter(ToNat(Output(seed, i)))) == i
  {
    CounterBijection(0, Output(seed, i));
    EveryWordOnce(seed, Output(seed, i), i);
    hide Output, Position, Value, Counter, Pow2;
  }

  lemma DrawOfNat(seed: bv64, v: nat)
    requires v < Pow2(64)
    ensures Position(seed, Counter(v)) < Pow2(64)
    ensures ToNat(Output(seed, Position(seed, Counter(v)))) == v
  {
    CounterBijection(v, 0);
    EveryWordOnce(seed, Counter(v), 0);
    EveryWordOnce(seed, Counter(v), Position(seed, Counter(v)));
    hide Output, Position, Value, Counter, Pow2;
  }

  /** Each answer below `n` comes for the floor of 2^64 / n draws of a whole period, or for one more. */
  lemma BelowCounts(seed: bv64, n: nat, d: nat)
    requires d < n
    ensures |Drawing(seed, n, d)| == |With(Pow2(64), n, d)| == Share(Pow2(64), n, d)
  {
    hide *;
    var f := (i: nat) => ToNat(Output(seed, i));
    var g := (v: nat) => Position(seed, Counter(v));
    WithSize(Pow2(64), n, d);
    DrawsInto(seed, n, d, f, g);
    NumbersInto(seed, n, d, f, g);
    BijectionSize(Drawing(seed, n, d), With(Pow2(64), n, d), f, g);
  }

  lemma DrawsInto(seed: bv64, n: nat, d: nat, f: nat -> nat, g: nat -> nat)
    requires d < n
    requires forall i: nat :: f(i) == ToNat(Output(seed, i))
    requires forall v: nat :: g(v) == Position(seed, Counter(v))
    ensures Into(Drawing(seed, n, d), With(Pow2(64), n, d), f, g)
  {
    hide Output, Position, ToNat, Counter, Pow2;
    forall i | i in Drawing(seed, n, d)
      ensures f(i) in With(Pow2(64), n, d) && g(f(i)) == i
    {
      ToNatOfDraw(seed, i);
    }
  }

  lemma NumbersInto(seed: bv64, n: nat, d: nat, f: nat -> nat, g: nat -> nat)
    requires d < n
    requires forall i: nat :: f(i) == ToNat(Output(seed, i))
    requires forall v: nat :: g(v) == Position(seed, Counter(v))
    ensures Into(With(Pow2(64), n, d), Drawing(seed, n, d), g, f)
  {
    hide Output, Position, ToNat, Counter, Pow2;
    forall v | v in With(Pow2(64), n, d)
      ensures g(v) in Drawing(seed, n, d) && f(g(v)) == v
    {
      DrawOfNat(seed, v);
    }
  }

  /** The documentation calls `below` uniform: it is, over a period, if and only if `n` divides 2^64. */
  lemma BelowIsUniformExactly(seed: bv64, n: nat)
    requires n > 0
    ensures (forall d, e :: 0 <= d < n && 0 <= e < n ==> |Drawing(seed, n, d)| == |Drawing(seed, n, e)|) <==>
      Pow2(64) % n == 0
  {
    UniformExactly(Pow2(64), n);
    hide Drawing, With, Pow2, Share;
    forall d | 0 <= d < n
      ensures |Drawing(seed, n, d)| == |With(Pow2(64), n, d)|
    {
      BelowCounts(seed, n, d);
    }
  }

  /** The seed 0 begins with the words published for SplitMix64. */
  lemma PublishedWords()
    ensures Output(0, 0) == 0xE220_A839_7B1D_CDAF
    ensures Output(0, 1) == 0x6E78_9E6A_A1B9_65F4
    ensures Output(0, 2) == 0x06C4_5D18_8009_454F
  {
    assert StateAfter(0, 1) == 0x9E37_79B9_7F4A_7C15;
    assert StateAfter(0, 2) == 0x3C6E_F372_FE94_F82A;
    assert StateAfter(0, 3) == 0xDAA6_6D2C_7DDF_743F;
  }
}
