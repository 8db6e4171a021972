/** What `split` and `combine` promise: any k shares recover the secret, k-1 say nothing about it
 *  (exactly as long as the health test of the random source cannot reject the coefficients), an
 *  altered share never yields the original secret, and shares survive serialization.
 */
module ShamirTheorems {
  import opened Results
  import opened Gf256
  import opened GfInt
  import opened Interpolation
  import opened Shamir
  import Aleatorio

  // ------------------------------------------------------------ any k shares recover

  lemma IndexInjective(i: u8, j: u8)
    ensures Index(i) == Index(j) ==> i == j
    ensures Index(i) == ZERO <==> i == 0
  {
    hide FromByte, ToInt;
    FromByteInjective(i, j);
    FromByteInjective(i, 0);
  }

  lemma EvalAtZero(p: Poly)
    requires p != []
    ensures Eval(p, ZERO) == p[0]
  {
    hide Xor, Mul;
    MulComm(ZERO, Eval(p[1..], ZERO));
    MulZero(Eval(p[1..], ZERO));
    XorUnits(p[0], ZERO);
  }

  /** The shares numbered by `picked`, in that order. */
  function Subset(shares: seq<Share>, picked: seq<nat>): (r: seq<Share>)
    requires forall i :: 0 <= i < |picked| ==> picked[i] < |shares|
    ensures |r| == |picked|
  {
    seq(|picked|, i requires 0 <= i < |picked| => shares[picked[i]])
  }

  lemma DealtSharesBelongTogether(payload: seq<Gf>, coefs: seq<seq<Gf>>, k: u8, n: u8, picked: seq<nat>)
    requires |coefs| == |payload| && picked != []
    requires Distinct(picked) && forall i :: 0 <= i < |picked| ==> picked[i] < n
    ensures var shares := Subset(SharesOf(payload, coefs, k, n), picked);
      && Consistent(shares)
      && forall i :: 0 <= i < |shares| ==> shares[i] == ShareAt(payload, coefs, k, Index(picked[i] + 1))
  {
    hide Xor, Mul, Eval, Index;
    var shares := Subset(SharesOf(payload, coefs, k, n), picked);
    forall i | 0 <= i < |shares|
      ensures shares[i] == ShareAt(payload, coefs, k, Index(picked[i] + 1)) && !Mismatch(shares[i], shares[0])
    {
      IndexInjective(picked[i] + 1, 0);
    }
    forall i, j | 0 <= i < j < |shares|
      ensures Indices(shares)[i] != Indices(shares)[j]
    {
      IndexInjective(picked[i] + 1, picked[j] + 1);
    }
  }

  /** Whatever the coefficients, any k or more distinct shares in any order give back the secret. */
  lemma AnySharesRecover(secret: seq<Gf>, k: u8, n: u8, coefs: seq<seq<Gf>>, tag: seq<Gf> -> Tag, picked: seq<nat>)
    requires MIN_THRESHOLD <= k <= n
    requires |coefs| == |secret| + TAG_LEN && forall pos :: 0 <= pos < |coefs| ==> |coefs[pos]| == k - 1
    requires |picked| >= k && Distinct(picked) && forall i :: 0 <= i < |picked| ==> picked[i] < n
    ensures CombineSpec(Subset(SharesOf(secret + tag(secret), coefs, k, n), picked), tag) == Ok(secret)
  {
    hide Xor, Mul, Eval, AtZero, Index;
    var payload := secret + tag(secret);
    var shares := Subset(SharesOf(payload, coefs, k, n), picked);
    DealtSharesBelongTogether(payload, coefs, k, n, picked);
    var usadas := shares[..k];
    var xs := Indices(usadas);
    forall pos | 0 <= pos < |payload|
      ensures AtZero(xs, Column(usadas, pos)) == payload[pos]
    {
      var p := [payload[pos]] + coefs[pos];
      assert Column(usadas, pos) == Evals(p, xs);
      assert Distinct(xs) by {
        assert forall a :: 0 <= a < |xs| ==> xs[a] == Indices(shares)[a];
      }
      InterpolationAtZero(p, xs);
      EvalAtZero(p);
    }
    assert Recovered(usadas, |payload|) == payload;
    assert payload[..|secret|] == secret && payload[|secret|..] == tag(secret);
  }

  // --------------------------------------------------------- k-1 shares say nothing

  /** The coefficients `c` give the byte `b` the shares `ys` at the indices `xs`. */
  ghost predicate Explains(c: seq<Gf>, b: Gf, xs: seq<Gf>, ys: seq<Gf>)
  {
    |c| == |xs| && Evals([b] + c, xs) == ys
  }

  /** The indices that shares can carry. */
  ghost predicate ShareIndices(xs: seq<Gf>)
  {
    Distinct(xs) && ZERO !in xs
  }

  /** The only coefficients that lead from `b` to the shares `ys`. */
  function CoefficientsFor(b: Gf, xs: seq<Gf>, ys: seq<Gf>): (c: seq<Gf>)
    requires |xs| == |ys|
    ensures |c| == |xs|
  {
    Through([ZERO] + xs, [b] + ys)[1..]
  }

  /** For any k-1 shares and any candidate byte, exactly one choice of coefficients explains them. */
  lemma ExactlyOneExplanation(b: Gf, xs: seq<Gf>, ys: seq<Gf>, c: seq<Gf>)
    requires |xs| == |ys| && ShareIndices(xs)
    ensures Explains(c, b, xs, ys) <==> c == CoefficientsFor(b, xs, ys)
  {
    hide Xor, Mul, Eval, Through;
    var points, values := [ZERO] + xs, [b] + ys;
    assert Distinct(points);
    var p := Through(points, values);
    ThroughEvals(points, values);
    assert Eval(p, points[0]) == Evals(p, points)[0] == b;
    EvalAtZero(p);
    assert p == [b] + p[1..];
    assert Evals(p, points)[1..] == ys;
    forall i | 0 <= i < |xs|
      ensures Evals(p, xs)[i] == ys[i]
    {
      assert Evals(p, points)[i + 1] == values[i + 1];
      assert points[i + 1] == xs[i];
    }
    assert Evals(p, xs) == ys;
    if Explains(c, b, xs, ys) {
      EvalAtZero([b] + c);
      forall i | 0 <= i < |points|
        ensures Evals([b] + c, points)[i] == values[i]
      {
        if i > 0 {
          assert Evals([b] + c, xs)[i - 1] == ys[i - 1];
        }
      }
      assert Evals([b] + c, points) == values;
      EvalsThrough([b] + c, points);
      assert ([b] + c)[1..] == c;
    }
  }

  /** These coefficients, one list per byte, give the payload of a secret the shares `ys` at the indices `xs`. */
  ghost predicate ExplainsAll(coefs: seq<seq<Gf>>, payload: seq<Gf>, xs: seq<Gf>, ys: seq<seq<Gf>>)
    requires |ys| == |payload|
  {
    |coefs| == |payload| && forall pos :: 0 <= pos < |payload| ==> Explains(coefs[pos], payload[pos], xs, ys[pos])
  }

  function AllCoefficientsFor(payload: seq<Gf>, xs: seq<Gf>, ys: seq<seq<Gf>>): (coefs: seq<seq<Gf>>)
    requires |ys| == |payload| && forall pos :: 0 <= pos < |ys| ==> |ys[pos]| == |xs|
    ensures |coefs| == |payload|
  {
    seq(|payload|, pos requires 0 <= pos < |payload| => CoefficientsFor(payload[pos], xs, ys[pos]))
  }

  /** For every secret of the length in question, its tag included, exactly one choice of all coefficients leads
   *  to the k-1 shares seen.
   */
  lemma EverySecretOnce(secret: seq<Gf>, tag: seq<Gf> -> Tag, xs: seq<Gf>, ys: seq<seq<Gf>>, coefs: seq<seq<Gf>>)
    requires ShareIndices(xs) && |ys| == |secret| + TAG_LEN
    requires forall pos :: 0 <= pos < |ys| ==> |ys[pos]| == |xs|
    ensures ExplainsAll(coefs, secret + tag(secret), xs, ys) <==>
      coefs == AllCoefficientsFor(secret + tag(secret), xs, ys)
  {
    hide Explains, CoefficientsFor, ShareIndices;
    var payload := secret + tag(secret);
    forall pos, c | 0 <= pos < |payload|
      ensures Explains(c, payload[pos], xs, ys[pos]) <==> c == CoefficientsFor(payload[pos], xs, ys[pos])
    {
      ExactlyOneExplanation(payload[pos], xs, ys[pos], c);
    }
    if ExplainsAll(coefs, payload, xs, ys) {
      assert coefs == AllCoefficientsFor(payload, xs, ys);
    }
  }

  /** Some coefficients that the random source can deliver lead from `b` to the shares `ys`. */
  ghost predicate Possible(b: Gf, xs: seq<Gf>, ys: seq<Gf>)
  {
    exists c :: Explains(c, b, xs, ys) && Aleatorio.Healthy(c)
  }

  /** Every candidate byte is still possible after seeing any k-1 shares. */
  ghost predicate NothingLearned(k: u8)
  {
    forall xs: seq<Gf>, ys: seq<Gf>, b: Gf :: |xs| == k - 1 == |ys| && ShareIndices(xs) ==> Possible(b, xs, ys)
  }

  /** The indices 1, ..., m. */
  function FirstIndices(m: u8): (xs: seq<Gf>)
    ensures |xs| == m
  {
    seq(m, i requires 0 <= i < m => Index(i + 1))
  }

  lemma FirstIndicesAreShareIndices(m: u8)
    requires m < 0xff
    ensures ShareIndices(FirstIndices(m))
  {
    hide Index;
    var xs := FirstIndices(m);
    forall i, j | 0 <= i < j < m
      ensures xs[i] != xs[j]
    {
      IndexInjective(i + 1, j + 1);
    }
    forall i | 0 <= i < m
      ensures xs[i] != ZERO
    {
      IndexInjective(i + 1, 0);
    }
  }

  lemma {:induction false} EvalZeros(b: Gf, m: nat, x: Gf)
    ensures Eval(Constant(m, ZERO), x) == ZERO
    ensures Eval([b] + Constant(m, ZERO), x) == b
    decreases m
  {
    hide Xor, Mul;
    if m > 0 {
      EvalZeros(ZERO, m - 1, x);
      assert Constant(m, ZERO)[1..] == Constant(m - 1, ZERO);
      MulZero(x);
      XorUnits(ZERO, ZERO);
    }
    assert ([b] + Constant(m, ZERO))[1..] == Constant(m, ZERO);
    MulZero(x);
    XorUnits(b, ZERO);
  }

  /** The documentation promises that k-1 shares reveal nothing. The random source refuses any buffer
   *  with eight equal bytes in a row, so from k = 9 on some coefficients are never drawn: shares that
   *  are all equal to `b` rule out the byte `b`. Up to k = 8 the promise holds in full.
   */
  lemma SecrecyExactly(k: u8)
    requires MIN_THRESHOLD <= k
    ensures NothingLearned(k) <==> k <= Aleatorio.REPETICION_QUE_DELATA
  {
    hide Xor, Mul, Eval, Through;
    if k <= Aleatorio.REPETICION_QUE_DELATA {
      forall xs: seq<Gf>, ys: seq<Gf>, b: Gf | |xs| == k - 1 == |ys| && ShareIndices(xs)
        ensures Possible(b, xs, ys)
      {
        var c := CoefficientsFor(b, xs, ys);
        ExactlyOneExplanation(b, xs, ys, c);
        assert Aleatorio.Healthy(c);
      }
    } else {
      AllEqualSharesRuleOut(k, ZERO);
      FirstIndicesAreShareIndices(k - 1);
      assert !Possible(ZERO, FirstIndices(k - 1), Constant(k - 1, ZERO));
    }
  }

  /** From k = 9 on: k-1 shares that all equal `b` cannot come from the byte `b`. */
  lemma AllEqualSharesRuleOut(k: u8, b: Gf)
    requires Aleatorio.REPETICION_QUE_DELATA < k
    ensures !Possible(b, FirstIndices(k - 1), Constant(k - 1, b))
  {
    hide Xor, Mul, Eval, Through;
    var xs, ys := FirstIndices(k - 1), Constant(k - 1, b);
    FirstIndicesAreShareIndices(k - 1);
    var zeros := Constant(k - 1, ZERO);
    forall i | 0 <= i < |xs|
      ensures Evals([b] + zeros, xs)[i] == ys[i]
    {
      EvalZeros(b, k - 1, xs[i]);
    }
    assert Evals([b] + zeros, xs) == ys;
    ExactlyOneExplanation(b, xs, ys, zeros);
    assert Aleatorio.RunAt(zeros, 0);
    forall c | Explains(c, b, xs, ys)
      ensures !Aleatorio.Healthy(c)
    {
      ExactlyOneExplanation(b, xs, ys, c);
    }
  }

  // --------------------------------------------------------- what is dealt says nothing

  /** The shares carry the bytes `y` at one position. */
  ghost predicate CarryAt(shares: seq<Share>, y: seq<Gf>, pos: nat)
  {
    |y| == |shares| && forall i :: 0 <= i < |shares| ==> pos < |shares[i].y| && shares[i].y[pos] == y[i]
  }

  /** The shares carry the bytes `ys`, one list per byte of the payload. */
  ghost predicate Carry(shares: seq<Share>, ys: seq<seq<Gf>>)
  {
    && (forall i :: 0 <= i < |shares| ==> |shares[i].y| == |ys|)
    && forall pos :: 0 <= pos < |ys| ==> CarryAt(shares, ys[pos], pos)
  }

  /** Coefficients for a secret and its tag, k-1 for each byte. */
  ghost predicate FitsSecret(coefs: seq<seq<Gf>>, secret: seq<Gf>, k: u8)
  {
    |coefs| == |secret| + TAG_LEN && forall pos :: 0 <= pos < |coefs| ==> |coefs[pos]| == k - 1
  }

  /** Positions among `n` shares, all different. */
  ghost predicate Picks(picked: seq<nat>, n: u8)
  {
    Distinct(picked) && forall i :: 0 <= i < |picked| ==> picked[i] < n
  }

  function IndicesOf(picked: seq<nat>, n: u8): (xs: seq<Gf>)
    requires forall i :: 0 <= i < |picked| ==> picked[i] < n
    ensures |xs| == |picked|
  {
    seq(|picked|, i requires 0 <= i < |picked| => Index(picked[i] + 1))
  }

  lemma PickedAreShareIndices(picked: seq<nat>, n: u8)
    requires Picks(picked, n)
    ensures ShareIndices(IndicesOf(picked, n))
  {
    hide Index;
    var xs := IndicesOf(picked, n);
    forall i, j | 0 <= i < j < |xs|
      ensures xs[i] != xs[j]
    {
      IndexInjective(picked[i] + 1, picked[j] + 1);
    }
    forall i | 0 <= i < |xs|
      ensures xs[i] != ZERO
    {
      IndexInjective(picked[i] + 1, 0);
    }
  }

  /** One byte of the shares dealt at some positions is what the coefficients of that byte explain. */
  lemma DealtByte(payload: seq<Gf>, coefs: seq<seq<Gf>>, k: u8, n: u8, picked: seq<nat>, ys: seq<Gf>, pos: nat)
    requires |coefs| == |payload| && pos < |payload| && |coefs[pos]| == |picked| == |ys| && Picks(picked, n)
    ensures CarryAt(Subset(SharesOf(payload, coefs, k, n), picked), ys, pos)
      <==> Explains(coefs[pos], payload[pos], IndicesOf(picked, n), ys)
  {
    hide Xor, Mul, Eval, Index;
    var shares := Subset(SharesOf(payload, coefs, k, n), picked);
    var evals := Evals([payload[pos]] + coefs[pos], IndicesOf(picked, n));
    assert forall i :: 0 <= i < |picked| ==> shares[i].y[pos] == evals[i];
  }

  lemma DealtLengths(payload: seq<Gf>, coefs: seq<seq<Gf>>, k: u8, n: u8, picked: seq<nat>)
    requires |coefs| == |payload| && Picks(picked, n)
    ensures var shares := Subset(SharesOf(payload, coefs, k, n), picked);
      forall i :: 0 <= i < |shares| ==> |shares[i].y| == |payload|
  {
    hide Eval, Index;
  }

  /** Any k-1 of the shares dealt carry given bytes under one choice of coefficients and
   *  no other, whatever the secret. */
  lemma DealtSharesExplained(secret: seq<Gf>, tag: seq<Gf> -> Tag, k: u8, n: u8, coefs: seq<seq<Gf>>,
                             picked: seq<nat>, ys: seq<seq<Gf>>)
    requires MIN_THRESHOLD <= k <= n && FitsSecret(coefs, secret, k) && Picks(picked, n) && |picked| == k - 1
    requires |ys| == |secret| + TAG_LEN && forall pos :: 0 <= pos < |ys| ==> |ys[pos]| == k - 1
    ensures Carry(Subset(SharesOf(secret + tag(secret), coefs, k, n), picked), ys)
       <==> coefs == AllCoefficientsFor(secret + tag(secret), IndicesOf(picked, n), ys)
  {
    var payload, xs := secret + tag(secret), IndicesOf(picked, n);
    PickedAreShareIndices(picked, n);
    EverySecretOnce(secret, tag, xs, ys, coefs);
    DealtLengths(payload, coefs, k, n, picked);
    hide Explains, AllCoefficientsFor, ShareIndices, IndicesOf, Subset, SharesOf, CarryAt, Picks;
    var shares := Subset(SharesOf(payload, coefs, k, n), picked);
    forall pos | 0 <= pos < |payload|
      ensures CarryAt(shares, ys[pos], pos) <==> Explains(coefs[pos], payload[pos], xs, ys[pos])
    {
      DealtByte(payload, coefs, k, n, picked, ys[pos], pos);
    }
    assert Carry(shares, ys) <==> ExplainsAll(coefs, payload, xs, ys);
  }

  /** What shares carry, byte by byte. */
  function Carried(shares: seq<Share>, len: nat): (ys: seq<seq<Gf>>)
    requires forall i :: 0 <= i < |shares| ==> |shares[i].y| == len
    ensures |ys| == len && forall pos :: 0 <= pos < len ==> |ys[pos]| == |shares|
  {
    seq(len, pos requires 0 <= pos < len => Column(shares, pos))
  }

  /** Shares with the same indices are equal if and only if they carry the same. */
  lemma AlikeShares(a: seq<Share>, b: seq<Share>, len: nat)
    requires |a| == |b| && forall i :: 0 <= i < |a| ==> |a[i].y| == |b[i].y| == len
    requires forall i :: 0 <= i < |a| ==> a[i].index == b[i].index && a[i].threshold == b[i].threshold
    ensures a == b <==> Carry(b, Carried(a, len))
  {
    var ys := Carried(a, len);
    if Carry(b, ys) {
      forall i | 0 <= i < |a|
        ensures a[i] == b[i]
      {
        forall pos | 0 <= pos < len
          ensures a[i].y[pos] == b[i].y[pos]
        {
          assert CarryAt(b, ys[pos], pos);
        }
        assert a[i].y == b[i].y;
      }
    }
  }

  lemma SameDealt(p: seq<Gf>, c: seq<seq<Gf>>, q: seq<Gf>, d: seq<seq<Gf>>, k: u8, n: u8, picked: seq<nat>)
    requires |c| == |p| == |q| == |d| && Picks(picked, n)
    ensures var a, b := Subset(SharesOf(p, c, k, n), picked), Subset(SharesOf(q, d, k, n), picked);
      (forall i :: 0 <= i < |a| ==> |a[i].y| == |p|) && (a == b <==> Carry(b, Carried(a, |p|)))
  {
    var a, b := Subset(SharesOf(p, c, k, n), picked), Subset(SharesOf(q, d, k, n), picked);
    DealtLengths(p, c, k, n, picked);
    DealtLengths(q, d, k, n, picked);
    assert forall i :: 0 <= i < |picked| ==> a[i].index == b[i].index && a[i].threshold == b[i].threshold;
    hide *;
    AlikeShares(a, b, |p|);
  }

  /** So whatever k-1 shares are dealt, every other secret of the same length could have been dealt with exactly the
   *  same ones, by exactly one choice of coefficients; up to k = 8 the random source can deliver it.
   */
  lemma DealtSharesHide(secret: seq<Gf>, other: seq<Gf>, tag: seq<Gf> -> Tag, k: u8, n: u8, coefs: seq<seq<Gf>>,
                        picked: seq<nat>) returns (d: seq<seq<Gf>>)
    requires MIN_THRESHOLD <= k <= n && FitsSecret(coefs, secret, k) && Picks(picked, n) && |picked| == k - 1
    requires |other| == |secret|
    ensures FitsSecret(d, other, k)
    ensures forall c | FitsSecret(c, other, k) :: c == d <==>
      Subset(SharesOf(other + tag(other), c, k, n), picked)
        == Subset(SharesOf(secret + tag(secret), coefs, k, n), picked)
    ensures k <= Aleatorio.REPETICION_QUE_DELATA ==> forall pos :: 0 <= pos < |d| ==> Aleatorio.Healthy(d[pos])
  {
    var p, q := secret + tag(secret), other + tag(other);
    SameDealt(p, coefs, p, coefs, k, n, picked);
    var ys := Carried(Subset(SharesOf(p, coefs, k, n), picked), |p|);
    d := AllCoefficientsFor(q, IndicesOf(picked, n), ys);
    forall pos | 0 <= pos < |d|
      ensures |d[pos]| == k - 1
    {
      assert |CoefficientsFor(q[pos], IndicesOf(picked, n), ys[pos])| == k - 1;
    }
    hide AllCoefficientsFor, IndicesOf, Subset, SharesOf, Carry, Carried;
    forall c | FitsSecret(c, other, k)
      ensures c == d <==> Subset(SharesOf(q, c, k, n), picked) == Subset(SharesOf(p, coefs, k, n), picked)
    {
      SameDealt(p, coefs, q, c, k, n, picked);
      DealtSharesExplained(other, tag, k, n, c, picked, ys);
    }
  }

  /** Changing any coefficient changes what any k-1 of the shares, or more, carry. */
  lemma EveryCoefficientCounts(secret: seq<Gf>, tag: seq<Gf> -> Tag, k: u8, n: u8, c: seq<seq<Gf>>, d: seq<seq<Gf>>,
                               picked: seq<nat>)
    requires MIN_THRESHOLD <= k <= n && FitsSecret(c, secret, k) && FitsSecret(d, secret, k) && c != d
    requires Picks(picked, n) && |picked| >= k - 1
    ensures Subset(SharesOf(secret + tag(secret), c, k, n), picked) != Subset(SharesOf(secret + tag(secret), d, k, n),
        picked)
  {
    var few := picked[..k - 1];
    var e := DealtSharesHide(secret, secret, tag, k, n, c, few);
    var a, b := SharesOf(secret + tag(secret), c, k, n), SharesOf(secret + tag(secret), d, k, n);
    hide SharesOf, FitsSecret, Xor, Mul, Eval, Index;
    assert Subset(a, few) == Subset(a, picked)[..k - 1] && Subset(b, few) == Subset(b, picked)[..k - 1];
  }

  // ------------------------------------------------------------- altered shares

  lemma LambdaNonZero(xs: seq<Gf>, i: nat)
    requires i < |xs| && Distinct(xs) && ZERO !in xs
    ensures Lambda(xs, i) != ZERO
  {
    hide Xor, Mul;
    var den := Product(Offsets(Without(xs, i), xs[i]));
    OffsetsNonZero(xs, i);
    ProductNonZero(Without(xs, i));
    InverseLaw(den);
    MulZero(den);
    OneIsNotZero();
    NoZeroDivisors(Product(Without(xs, i)), Inv(den));
  }

  /** Changing one value changes what is interpolated. */
  lemma OneValueMatters(xs: seq<Gf>, ys: seq<Gf>, i: nat, v: Gf)
    requires i < |xs| == |ys| && Distinct(xs) && ZERO !in xs
    requires v != ys[i]
    ensures AtZero(xs, ys[i := v]) != AtZero(xs, ys)
  {
    hide Xor, Mul, Lambda;
    var s, t := Terms(xs, ys), Terms(xs, ys[i := v]);
    SumWithout(s, i);
    SumWithout(t, i);
    assert Without(s, i) == Without(t, i);
    var rest := Sum(Without(s, i));
    if Sum(s) == Sum(t) {
      XorCancel(s[i], rest);
      XorCancel(t[i], rest);
      LambdaNonZero(xs, i);
      MulComm(ys[i], Lambda(xs, i));
      MulComm(v, Lambda(xs, i));
      Cancel(Lambda(xs, i), ys[i], v);
    }
  }

  function Altered(shares: seq<Share>, i: nat, y: seq<Gf>): seq<Share>
    requires i < |shares|
  {
    shares[i := shares[i].(y := y)]
  }

  /** A share with a changed byte changes that byte of what is recovered. */
  lemma OneByteMatters(usadas: seq<Share>, len: nat, i: nat, y: seq<Gf>, pos: nat)
    requires i < |usadas| && |y| == len && forall j :: 0 <= j < |usadas| ==> |usadas[j].y| == len
    requires Distinct(Indices(usadas)) && ZERO !in Indices(usadas)
    requires pos < len && y[pos] != usadas[i].y[pos]
    ensures Recovered(Altered(usadas, i, y), len)[pos] != Recovered(usadas, len)[pos]
  {
    hide Xor, Mul, AtZero, Distinct;
    assert Indices(Altered(usadas, i, y)) == Indices(usadas);
    assert Column(Altered(usadas, i, y), pos) == Column(usadas, pos)[i := y[pos]];
    OneValueMatters(Indices(usadas), Column(usadas, pos), i, y[pos]);
  }

  lemma UsedAreAlike(shares: seq<Share>, needed: nat)
    requires shares != [] && needed <= |shares| && Consistent(shares)
    ensures Distinct(Indices(shares[..needed])) && ZERO !in Indices(shares[..needed])
    ensures forall j :: 0 <= j < |shares| ==> |shares[j].y| == |shares[0].y|
  {
    hide Xor, Mul, AtZero;
    var xs := Indices(shares[..needed]);
    assert forall a :: 0 <= a < |xs| ==> xs[a] == Indices(shares)[a] && !Mismatch(shares[a], shares[0]);
    assert forall j :: 0 <= j < |shares| ==> !Mismatch(shares[j], shares[0]);
  }

  /** Data of another length are noticed at once, unless there is only one share. */
  lemma LengthIsNoticed(shares: seq<Share>, i: nat, y: seq<Gf>)
    requires i < |shares| && Consistent(shares) && |y| != |shares[0].y|
    ensures |shares| > 1 ==> !Consistent(Altered(shares, i, y))
  {
    hide Xor, Mul, AtZero, Distinct;
    if |shares| > 1 {
      var altered := Altered(shares, i, y);
      var other := if i == 0 then 1 else i;
      assert !Mismatch(shares[other], shares[0]);
      assert Mismatch(altered[other], altered[0]);
    }
  }

  /** What was recovered is the secret and its tag. */
  lemma RecoveredIsTagged(shares: seq<Share>, tag: seq<Gf> -> Tag, secret: seq<Gf>)
    requires shares != [] && |shares[0].y| >= TAG_LEN && CombineSpec(shares, tag) == Ok(secret)
    ensures shares[0].threshold <= |shares| && Consistent(shares)
    ensures Recovered(shares[..shares[0].threshold], |shares[0].y|) == secret + tag(secret)
  {
    hide Xor, Mul, AtZero, Distinct;
    var recuperado := Recovered(shares[..shares[0].threshold], |shares[0].y|);
    var corte := |recuperado| - TAG_LEN;
    assert recuperado == recuperado[..corte] + recuperado[corte..];
  }

  /** Altering the data of one of the shares that are used never gives the original secret back. */
  lemma AlteredShareIsNoticed(shares: seq<Share>, tag: seq<Gf> -> Tag, secret: seq<Gf>, i: nat, y: seq<Gf>)
    requires shares != [] && |shares[0].y| >= TAG_LEN && CombineSpec(shares, tag) == Ok(secret)
    requires i < shares[0].threshold && y != shares[i].y && (i == 0 ==> |y| >= TAG_LEN)
    ensures var altered := CombineSpec(shares[i := shares[i].(y := y)], tag);
      altered == Err(VerificationFailed) || altered == Err(Inconsistent) || (altered.Ok? && altered.value != secret)
  {
    hide Xor, Mul, AtZero, Distinct, Consistent;
    var needed, len := shares[0].threshold, |shares[0].y|;
    RecoveredIsTagged(shares, tag, secret);
    var altered := Altered(shares, i, y);
    if CombineSpec(altered, tag) == Ok(secret) {
      RecoveredIsTagged(altered, tag, secret);
      UsedAreAlike(shares, needed);
      assert altered[..needed] == Altered(shares[..needed], i, y);
      if |y| != len {
        LengthIsNoticed(shares, i, y);
      } else {
        var pos :| 0 <= pos < len && y[pos] != shares[i].y[pos];
        OneByteMatters(shares[..needed], len, i, y, pos);
      }
    }
  }

  // ------------------------------------------------------- what `combine` answers

  /** The shares are not those of one split: some differs from the first in threshold or length, or has index zero,
   *  or two have one index.
   */
  ghost predicate Unlike(shares: seq<Share>)
  {
    || (exists i :: 0 <= i < |shares| &&
          (shares[i].threshold != shares[0].threshold || |shares[i].y| != |shares[0].y| || shares[i].index == ZERO))
    || (exists i, j :: 0 <= i < j < |shares| && shares[i].index == shares[j].index)
  }

  lemma UnlikeIs(shares: seq<Share>)
    requires shares != []
    ensures Unlike(shares) <==> !Consistent(shares)
  {
    var xs := Indices(shares);
    assert forall i, j :: 0 <= i < j < |shares| ==>
      (xs[i] == xs[j] <==> shares[i].index == shares[j].index);
    assert (exists i :: 0 <= i < |shares| && Mismatch(shares[i], shares[0])) <==>
      exists i :: 0 <= i < |shares| &&
        (shares[i].threshold != shares[0].threshold || |shares[i].y| != |shares[0].y| || shares[i].index == ZERO);
    hide Indices, Mismatch;
  }

  /** Every answer of `combine`, in its order: too few, unlike, the tag does not match, or the secret; `r` is any bytes
   *  that the first `threshold` shares interpolate to.
   */
  lemma CombineAnswers(shares: seq<Share>, tag: seq<Gf> -> Tag)
    requires shares != [] ==> |shares[0].y| >= TAG_LEN
    ensures shares == [] ==> CombineSpec(shares, tag) == Err(NotEnoughShares(2, 0))
    ensures shares != [] && |shares| < shares[0].threshold ==>
      CombineSpec(shares, tag) == Err(NotEnoughShares(shares[0].threshold, |shares|))
    ensures shares != [] && |shares| >= shares[0].threshold && Unlike(shares) ==>
      CombineSpec(shares, tag) == Err(Inconsistent)
    ensures shares != [] && |shares| >= shares[0].threshold && !Unlike(shares) ==>
      var k, cut := shares[0].threshold, |shares[0].y| - 8;
      && (forall i :: 0 <= i < k ==> |shares[..k][i].y| == |shares[0].y|)
      && var r := Recovered(shares[..k], |shares[0].y|);
         CombineSpec(shares, tag) == if tag(r[..cut]) == r[cut..] then Ok(r[..cut]) else Err(VerificationFailed)
  {
    if shares != [] && |shares| >= shares[0].threshold {
      UnlikeIs(shares);
      if !Unlike(shares) {
        UsedAreAlike(shares, shares[0].threshold);
      }
      hide Unlike, AtZero, Distinct, Indices, Consistent;
    }
  }

  // -------------------------------------------------------------- serialization

  const HEADER_LEN: nat := 10
  const MAGIC: seq<Gf> := [Gf(0x51), Gf(0x53), Gf(0x53), Gf(0x32)]

  /** What every share dealt by `split` or accepted by `FromBytes` satisfies. */
  ghost predicate WellFormed(s: Share)
  {
    s.threshold >= MIN_THRESHOLD && s.index != ZERO && |s.y| > TAG_LEN
  }

  /** `(n as u32).to_be_bytes()`. */
  function Be32(n: nat): (b: seq<Gf>)
    ensures |b| == 4
  {
    [FromInt(n / 0x100_0000), FromInt(n / 0x1_0000), FromInt(n / 0x100), FromInt(n)]
  }

  function FromBe32(b: seq<Gf>): nat
    requires |b| == 4
  {
    ((ToInt(b[0]) * 0x100 + ToInt(b[1])) * 0x100 + ToInt(b[2])) * 0x100 + ToInt(b[3])
  }

  function ToBytes(s: Share): (b: seq<Gf>)
    ensures |b| == HEADER_LEN + |s.y|
  {
    MAGIC + [FromInt(s.threshold), s.index] + Be32(|s.y|) + s.y
  }

  function FromBytes(b: seq<Gf>): Result<Share, ShamirError>
  {
    if |b| < HEADER_LEN || b[0..4] != MAGIC then Err(Malformed)
    else
      var threshold := ToInt(b[4]);
      var index := b[5];
      if threshold < MIN_THRESHOLD || index == ZERO then Err(Malformed)
      else
        var len := FromBe32(b[6..10]);
        if len <= TAG_LEN || |b| != HEADER_LEN + len then Err(Malformed)
        else Ok(Share(threshold, index, b[HEADER_LEN..]))
  }

  lemma FromIntMod(n: int)
    ensures FromInt(n) == FromInt(n % 0x100)
  {
    hide FromByte;
  }

  lemma DigitsOf(a: u8, b: u8, c: u8, d: u8)
    ensures var n := ((a * 0x100 + b) * 0x100 + c) * 0x100 + d;
      n / 0x100_0000 % 0x100 == a && n / 0x1_0000 % 0x100 == b && n / 0x100 % 0x100 == c && n % 0x100 == d
  {
  }

  lemma FromDigits(n: u32)
    ensures n == ((n / 0x100_0000 % 0x100 * 0x100 + n / 0x1_0000 % 0x100) * 0x100 + n / 0x100 % 0x100) * 0x100
      + n % 0x100
  {
    var a := n / 0x100;
    var b := a / 0x100;
    assert b == n / 0x1_0000 && b / 0x100 == n / 0x100_0000;
  }

  lemma Be32RoundTrip(n: u32)
    ensures FromBe32(Be32(n)) == n
  {
    hide FromInt, ToInt;
    FromDigits(n);
    FromIntToInt(n / 0x100_0000);
    FromIntToInt(n / 0x1_0000);
    FromIntToInt(n / 0x100);
    FromIntToInt(n);
  }

  lemma FromBe32RoundTrip(b: seq<Gf>)
    requires |b| == 4
    ensures Be32(FromBe32(b)) == b
  {
    hide FromInt, ToInt;
    var n := FromBe32(b);
    DigitsOf(ToInt(b[0]), ToInt(b[1]), ToInt(b[2]), ToInt(b[3]));
    FromIntMod(n / 0x100_0000);
    FromIntMod(n / 0x1_0000);
    FromIntMod(n / 0x100);
    FromIntMod(n);
    ToIntFromInt(b[0]);
    ToIntFromInt(b[1]);
    ToIntFromInt(b[2]);
    ToIntFromInt(b[3]);
  }

  function Value(a: Gf): nat { a.v as nat }

  /** Four bytes at offset `o`, as `from_be_bytes` takes them. */
  function At32(b: seq<Gf>, o: nat): nat
    requires o + 4 <= |b|
  {
    0x100_0000 * Value(b[o]) + 0x1_0000 * Value(b[o + 1]) + 0x100 * Value(b[o + 2]) + Value(b[o + 3])
  }

  lemma ValueIs(a: Gf)
    ensures ToInt(a) == Value(a)
  {
    ToIntIs(a);
  }

  lemma FieldValue(b: seq<Gf>, o: nat)
    requires o + 4 <= |b|
    ensures FromBe32(b[o..o + 4]) == At32(b, o)
  {
    ValueIs(b[o]);
    ValueIs(b[o + 1]);
    ValueIs(b[o + 2]);
    ValueIs(b[o + 3]);
    hide ToInt, Value;
  }

  lemma ShareSlices(s: Share)
    ensures var b := ToBytes(s);
      && |b| == 10 + |s.y| && b[..4] == [Gf(0x51), Gf(0x53), Gf(0x53), Gf(0x32)]
      && b[4] == FromInt(s.threshold) && b[5] == s.index && b[6..10] == Be32(|s.y|) && b[10..] == s.y
  {
    hide FromInt, Be32;
    var b := ToBytes(s);
    assert b[..4] == MAGIC;
  }

  /** Where everything lies in a serialized share: "QSS2", the threshold, the index, the length, the data. */
  lemma ShareLayout(s: Share)
    requires |s.y| < 0x1_0000_0000
    ensures var b := ToBytes(s);
      && |b| == 10 + |s.y| && b[..4] == [Gf(0x51), Gf(0x53), Gf(0x53), Gf(0x32)]
      && Value(b[4]) == s.threshold && b[5] == s.index && At32(b, 6) == |s.y| && b[10..] == s.y
  {
    ShareSlices(s);
    hide *;
    var b := ToBytes(s);
    FromIntToInt(s.threshold);
    ValueIs(b[4]);
    Be32RoundTrip(|s.y|);
    FieldValue(b, 6);
    SmallByte(s.threshold);
  }

  lemma SmallByte(n: u8)
    ensures n % 0x100 == n
  {
  }

  /** Serializing and parsing are inverse on well-formed shares, and nothing else parses. */
  lemma ShareRoundTrip(s: Share, b: seq<Gf>)
    requires |s.y| < 0x1_0000_0000
    ensures FromBytes(b) == Ok(s) <==> WellFormed(s) && b == ToBytes(s)
  {
    hide FromInt, ToInt, Be32, FromBe32;
    if WellFormed(s) {
      var t := ToBytes(s);
      assert t[0..4] == MAGIC && t[6..10] == Be32(|s.y|) && t[HEADER_LEN..] == s.y;
      FromIntToInt(s.threshold);
      Be32RoundTrip(|s.y|);
      assert FromBytes(t) == Ok(s);
    }
    if FromBytes(b) == Ok(s) {
      ToIntFromInt(b[4]);
      FromBe32RoundTrip(b[6..10]);
      assert b == b[0..4] + [b[4], b[5]] + b[6..10] + b[HEADER_LEN..];
    }
  }

  /** `split` deals well-formed shares only. */
  lemma SplitDealsWellFormed(secret: seq<Gf>, k: u8, n: u8, coefs: seq<seq<Gf>>, tag: seq<Gf> -> Tag, j: nat)
    requires secret != [] && MIN_THRESHOLD <= k && j < n
    requires |coefs| == |secret| + TAG_LEN
    ensures WellFormed(SharesOf(secret + tag(secret), coefs, k, n)[j])
  {
    hide Index, Eval;
    IndexInjective(j + 1, 0);
  }
}
