/** How many of the first numbers leave each remainder, and how many sequences can be made of them. */
module Residues {
  import opened Arithmetic

  /** The numbers below `n`. */
  ghost function Upto(n: nat): (s: set<nat>)
    ensures forall v: nat :: v in s <==> v < n
  {
    if n == 0 then {} else Upto(n - 1) + {n - 1}
  }

  /** Those with remainder `d`. */
  ghost function With(n: nat, a: nat, d: nat): set<nat>
    requires a > 0
  {
    set v | v in Upto(n) && v % a == d
  }

  /** Each remainder has the floor of n / a of them, and the first n mod a remainders one more. */
  function Share(n: nat, a: nat, d: nat): nat
    requires a > 0
  {
    DivMod(n, a);
    n / a + if d < n % a then 1 else 0
  }

  lemma NextQuotient(n: nat, a: nat)
    requires a > 0
    ensures (n + 1) / a == if n % a == a - 1 then n / a + 1 else n / a
    ensures (n + 1) % a == if n % a == a - 1 then 0 else n % a + 1
  {
    DivMod(n, a);
    if n % a == a - 1 {
      Distribute(a, n / a, 1);
      DivUnique(n + 1, a, n / a + 1, 0);
    } else {
      DivUnique(n + 1, a, n / a, n % a + 1);
    }
  }

  lemma WithNext(n: nat, a: nat, d: nat)
    requires a > 0
    ensures |With(n + 1, a, d)| == |With(n, a, d)| + if n % a == d then 1 else 0
  {
    var before := With(n, a, d);
    assert With(n + 1, a, d) == if n % a == d then before + {n} else before;
    assert n !in before;
  }

  lemma ShareNext(n: nat, a: nat, d: nat)
    requires d < a
    ensures Share(n + 1, a, d) == Share(n, a, d) + if n % a == d then 1 else 0
  {
    NextQuotient(n, a);
    DivMod(n, a);
  }

  lemma {:induction false} WithSize(n: nat, a: nat, d: nat)
    requires d < a
    ensures |With(n, a, d)| == Share(n, a, d)
  {
    if n == 0 {
      assert With(0, a, d) == {};
      DivUnique(0, a, 0, 0);
    } else {
      hide With, Share;
      WithSize(n - 1, a, d);
      WithNext(n - 1, a, d);
      ShareNext(n - 1, a, d);
    }
  }

  /** All remainders are as frequent exactly when the divisor divides. */
  lemma UniformExactly(n: nat, a: nat)
    requires a > 0
    ensures (forall d, e :: 0 <= d < a && 0 <= e < a ==> |With(n, a, d)| == |With(n, a, e)|) <==> n % a == 0
  {
    hide With;
    DivMod(n, a);
    forall d | 0 <= d < a
      ensures |With(n, a, d)| == Share(n, a, d)
    {
      WithSize(n, a, d);
    }
    if n % a != 0 {
      assert |With(n, a, 0)| != |With(n, a, a - 1)|;
    }
  }

  // ------------------------------------------------------------------ bijections

  /** `f` takes `s` into `t`, and `g` takes it back. */
  ghost predicate Into(s: set<nat>, t: set<nat>, f: nat -> nat, g: nat -> nat)
  {
    forall x :: x in s ==> f(x) in t && g(f(x)) == x
  }

  /** Each into the other: as many of one as of the other. */
  lemma {:induction false} BijectionSize(s: set<nat>, t: set<nat>, f: nat -> nat, g: nat -> nat)
    requires Into(s, t, f, g) && Into(t, s, g, f)
    ensures |s| == |t|
    decreases |s|
  {
    if s != {} {
      var x :| x in s;
      assert f(x) in t;
      BijectionSize(s - {x}, t - {f(x)}, f, g);
    }
  }

  // ------------------------------------------------------------------ sequences

  /** The sequences of `len` numbers below `n`. */
  ghost function Sequences(n: nat, len: nat): set<seq<nat>>
  {
    if len == 0 then {[]} else Extended(Sequences(n, len - 1), Upto(n))
  }

  /** The sequences of one set followed by the numbers of another. */
  ghost function Extended(a: set<seq<nat>>, b: set<nat>): set<seq<nat>>
  {
    set s, v | s in a && v in b :: s + [v]
  }

  lemma {:induction false} SequencesAre(n: nat, len: nat, s: seq<nat>)
    ensures s in Sequences(n, len) <==> |s| == len && forall i :: 0 <= i < len ==> s[i] < n
    decreases len
  {
    if len > 0 {
      ExtendedHas(Sequences(n, len - 1), Upto(n), s);
      hide Extended, Upto;
      if s != [] {
        SequencesAre(n, len - 1, s[..|s| - 1]);
      }
    }
  }

  lemma ExtendedHas(a: set<seq<nat>>, b: set<nat>, s: seq<nat>)
    ensures s in Extended(a, b) <==> s != [] && s[..|s| - 1] in a && s[|s| - 1] in b
  {
    if s != [] {
      assert s == s[..|s| - 1] + [s[|s| - 1]];
    }
    if s in Extended(a, b) {
      var t, v :| t in a && v in b && s == t + [v];
      assert s[..|s| - 1] == t;
    }
  }

  lemma {:induction false} OneExtendedSize(t: seq<nat>, b: set<nat>)
    ensures |Extended({t}, b)| == |b|
    decreases |b|
  {
    if b == {} {
      assert Extended({t}, b) == {};
    } else {
      var v :| v in b;
      var rest := b - {v};
      OneExtendedSize(t, rest);
      forall s
        ensures s in Extended({t}, b) <==> s in Extended({t}, rest) + {t + [v]}
      {
        ExtendedHas({t}, b, s);
        ExtendedHas({t}, rest, s);
        assert (t + [v])[..|t|] == t;
      }
      ExtendedHas({t}, rest, t + [v]);
      hide Extended;
      assert Extended({t}, b) == Extended({t}, rest) + {t + [v]};
    }
  }

  /** As many as pairs. */
  lemma {:induction false} ExtendedSize(a: set<seq<nat>>, b: set<nat>)
    ensures |Extended(a, b)| == |a| * |b|
    decreases |a|
  {
    if a == {} {
      assert Extended(a, b) == {};
    } else {
      var t :| t in a;
      var rest := a - {t};
      ExtendedSize(rest, b);
      OneExtendedSize(t, b);
      Apart(a, rest, t, b);
      SumTimes(|rest|, 1, |b|);
      hide Extended;
      assert |a| == |rest| + 1;
    }
  }

  lemma Apart(a: set<seq<nat>>, rest: set<seq<nat>>, t: seq<nat>, b: set<nat>)
    requires t in a && rest == a - {t}
    ensures |Extended(a, b)| == |Extended(rest, b)| + |Extended({t}, b)|
  {
    forall s
      ensures s in Extended(a, b) <==> s in Extended(rest, b) + Extended({t}, b)
      ensures !(s in Extended(rest, b) && s in Extended({t}, b))
    {
      ExtendedHas(a, b, s);
      ExtendedHas(rest, b, s);
      ExtendedHas({t}, b, s);
    }
    hide Extended;
    assert Extended(a, b) == Extended(rest, b) + Extended({t}, b);
    assert Extended(rest, b) !! Extended({t}, b);
  }
}
