/** Shares of different splits handed to `combine` together: when what comes out is one of the secrets. */
module ShamirMixtures {
  import opened Results
  import opened Gf256
  import opened GfInt
  import opened Interpolation
  import opened Shamir
  import opened ShamirTheorems
  import Aleatorio

  /** A split: the secret, and the coefficients drawn for it and its tag. */
  datatype Reparto = Reparto(secret: seq<Gf>, coefs: seq<seq<Gf>>)
  {
    ghost predicate OfThreshold(k: u8)
    {
      FitsSecret(coefs, secret, k)
    }

    /** The share with index `x`. */
    function At(k: u8, tag: seq<Gf> -> Tag, x: Gf): (s: Share)
      requires |coefs| == |secret| + TAG_LEN
      ensures |s.y| == |coefs| && s.index == x && s.threshold == k
    {
      ShareAt(secret + tag(secret), coefs, k, x)
    }
  }

  /** Shares that `combine` takes for those of one split of this length. */
  ghost predicate Acceptable(shares: seq<Share>, k: u8, len: nat)
  {
    && 1 <= k <= |shares| && Consistent(shares)
    && shares[0].threshold == k && |shares[0].y| == len + TAG_LEN
    && forall i :: 0 <= i < |shares| ==> |shares[i].y| == len + TAG_LEN
  }

  /** How far each share is from the one that the split dealt under its index, at one byte. */
  function Apart(r: Reparto, k: u8, tag: seq<Gf> -> Tag, usadas: seq<Share>, pos: nat): (d: seq<Gf>)
    requires |r.coefs| == |r.secret| + TAG_LEN && pos < |r.coefs|
    requires forall i :: 0 <= i < |usadas| ==> |usadas[i].y| == |r.coefs|
    ensures |d| == |usadas|
  {
    seq(|usadas|, i requires 0 <= i < |usadas| => Xor(usadas[i].y[pos], r.At(k, tag, usadas[i].index).y[pos]))
  }

  lemma AlikeLengths(shares: seq<Share>, k: u8, len: nat)
    requires Acceptable(shares, k, len)
    ensures Distinct(Indices(shares[..k])) && ZERO !in Indices(shares[..k])
  {
    UsedAreAlike(shares, k);
  }

  /** One byte comes out right exactly when the weighted distances cancel out. */
  lemma ByteRecovered(r: Reparto, k: u8, tag: seq<Gf> -> Tag, usadas: seq<Share>, pos: nat)
    requires r.OfThreshold(k) && 1 <= k == |usadas| && pos < |r.coefs|
    requires forall i :: 0 <= i < |usadas| ==> |usadas[i].y| == |r.coefs|
    requires Distinct(Indices(usadas)) && ZERO !in Indices(usadas)
    ensures AtZero(Indices(usadas), Apart(r, k, tag, usadas, pos)) == ZERO
       <==> AtZero(Indices(usadas), Column(usadas, pos)) == (r.secret + tag(r.secret))[pos]
  {
    hide Xor, Mul, Eval, AtZero, Distinct;
    var xs, ys, us := Indices(usadas), Column(usadas, pos), Apart(r, k, tag, usadas, pos);
    var p := [(r.secret + tag(r.secret))[pos]] + r.coefs[pos];
    var zs := Evals(p, xs);
    forall i | 0 <= i < |xs|
      ensures us[i] == Xor(ys[i], zs[i])
    {
      assert r.At(k, tag, usadas[i].index).y[pos] == Eval(p, xs[i]);
    }
    AtZeroAdd(xs, ys, zs, us);
    InterpolationAtZero(p, xs);
    EvalAtZero(p);
    XorUnits(AtZero(xs, ys), AtZero(xs, zs));
  }

  /** The weighted distances cancel out at every byte. */
  ghost predicate CancelOut(r: Reparto, k: u8, tag: seq<Gf> -> Tag, usadas: seq<Share>)
    requires |r.coefs| == |r.secret| + TAG_LEN
    requires forall i :: 0 <= i < |usadas| ==> |usadas[i].y| == |r.coefs|
  {
    forall pos :: 0 <= pos < |r.coefs| ==> AtZero(Indices(usadas), Apart(r, k, tag, usadas, pos)) == ZERO
  }

  /** Any shares at all, dealt, foreign or forged: `combine` answers the secret of a split if and only if their
   *  weighted distances from the shares of that split cancel out at every byte.
   */
  lemma CombineGivesExactly(r: Reparto, k: u8, tag: seq<Gf> -> Tag, shares: seq<Share>)
    requires r.OfThreshold(k) && Acceptable(shares, k, |r.secret|)
    ensures CombineSpec(shares, tag) == Ok(r.secret) <==> CancelOut(r, k, tag, shares[..k])
  {
    hide Xor, Mul, AtZero, Distinct, Consistent, Apart;
    var usadas, payload := shares[..k], r.secret + tag(r.secret);
    AlikeLengths(shares, k, |r.secret|);
    var recuperado := Recovered(usadas, |payload|);
    forall pos | 0 <= pos < |payload|
      ensures AtZero(Indices(usadas), Apart(r, k, tag, usadas, pos)) == ZERO <==> recuperado[pos] == payload[pos]
    {
      ByteRecovered(r, k, tag, usadas, pos);
    }
    assert CancelOut(r, k, tag, usadas) <==> recuperado == payload;
    AnswersExactly(shares, tag, r.secret);
  }

  lemma AnswersExactly(shares: seq<Share>, tag: seq<Gf> -> Tag, secret: seq<Gf>)
    requires shares != [] && shares[0].threshold <= |shares| && Consistent(shares) && |shares[0].y| >= TAG_LEN
    requires forall i :: 0 <= i < |shares| ==> |shares[i].y| == |shares[0].y|
    ensures CombineSpec(shares, tag) == Ok(secret)
       <==> Recovered(shares[..shares[0].threshold], |shares[0].y|) == secret + tag(secret)
  {
    hide Xor, Mul, AtZero, Distinct, Consistent, Recovered;
    if CombineSpec(shares, tag) == Ok(secret) {
      RecoveredIsTagged(shares, tag, secret);
    }
    var payload := secret + tag(secret);
    assert payload[..|secret|] == secret && payload[|secret|..] == tag(secret);
  }

  // --------------------------------------------------------- one foreign share

  lemma NothingApart(xs: seq<Gf>, us: seq<Gf>)
    requires |xs| == |us| && forall i :: 0 <= i < |us| ==> us[i] == ZERO
    ensures AtZero(xs, us) == ZERO
  {
    hide Xor, Mul, AtZero;
    XorUnits(ZERO, ZERO);
    AtZeroAdd(xs, us, us, us);
    XorUnits(AtZero(xs, us), AtZero(xs, us));
  }

  lemma OneApart(xs: seq<Gf>, us: seq<Gf>, i: nat)
    requires i < |xs| == |us| && Distinct(xs) && ZERO !in xs
    requires forall j :: 0 <= j < |us| && j != i ==> us[j] == ZERO
    ensures AtZero(xs, us) == ZERO <==> us[i] == ZERO
  {
    hide Xor, Mul, AtZero, Distinct;
    if us[i] == ZERO {
      NothingApart(xs, us);
    } else {
      NothingApart(xs, us[i := ZERO]);
      OneValueMatters(xs, us, i, ZERO);
    }
  }

  lemma ApartIs(r: Reparto, k: u8, tag: seq<Gf> -> Tag, usadas: seq<Share>, pos: nat, i: nat)
    requires |r.coefs| == |r.secret| + TAG_LEN && pos < |r.coefs| && i < |usadas|
    requires forall j :: 0 <= j < |usadas| ==> |usadas[j].y| == |r.coefs|
    ensures Apart(r, k, tag, usadas, pos)[i] == ZERO
       <==> usadas[i].y[pos] == r.At(k, tag, usadas[i].index).y[pos]
  {
    hide Xor;
    XorUnits(usadas[i].y[pos], r.At(k, tag, usadas[i].index).y[pos]);
  }

  ghost predicate OthersDealt(r: Reparto, k: u8, tag: seq<Gf> -> Tag, usadas: seq<Share>, i: nat)
    requires |r.coefs| == |r.secret| + TAG_LEN
  {
    forall j :: 0 <= j < |usadas| && j != i ==> usadas[j] == r.At(k, tag, usadas[j].index)
  }

  lemma OneByteApart(r: Reparto, k: u8, tag: seq<Gf> -> Tag, usadas: seq<Share>, i: nat, pos: nat)
    requires |r.coefs| == |r.secret| + TAG_LEN && pos < |r.coefs| && i < |usadas|
    requires forall j :: 0 <= j < |usadas| ==> |usadas[j].y| == |r.coefs|
    requires Distinct(Indices(usadas)) && ZERO !in Indices(usadas) && OthersDealt(r, k, tag, usadas, i)
    ensures AtZero(Indices(usadas), Apart(r, k, tag, usadas, pos)) == ZERO
       <==> usadas[i].y[pos] == r.At(k, tag, usadas[i].index).y[pos]
  {
    hide Xor, Mul, AtZero, Distinct, Apart, Reparto.At;
    forall j | 0 <= j < |usadas| && j != i
      ensures Apart(r, k, tag, usadas, pos)[j] == ZERO
    {
      ApartIs(r, k, tag, usadas, pos, j);
    }
    ApartIs(r, k, tag, usadas, pos, i);
    OneApart(Indices(usadas), Apart(r, k, tag, usadas, pos), i);
  }

  lemma OneCancels(r: Reparto, k: u8, tag: seq<Gf> -> Tag, usadas: seq<Share>, i: nat)
    requires |r.coefs| == |r.secret| + TAG_LEN && i < |usadas| && usadas[i].threshold == k
    requires forall j :: 0 <= j < |usadas| ==> |usadas[j].y| == |r.coefs|
    requires Distinct(Indices(usadas)) && ZERO !in Indices(usadas) && OthersDealt(r, k, tag, usadas, i)
    ensures CancelOut(r, k, tag, usadas) <==> usadas[i] == r.At(k, tag, usadas[i].index)
  {
    hide AtZero, Distinct, Apart, OthersDealt, Reparto.At;
    var suya := r.At(k, tag, usadas[i].index);
    forall pos | 0 <= pos < |r.coefs|
      ensures AtZero(Indices(usadas), Apart(r, k, tag, usadas, pos)) == ZERO <==> usadas[i].y[pos] == suya.y[pos]
    {
      OneByteApart(r, k, tag, usadas, i, pos);
    }
    assert usadas[i] == suya <==> usadas[i].y == suya.y;
  }

  lemma SameThreshold(shares: seq<Share>, k: u8, len: nat, i: nat)
    requires Acceptable(shares, k, len) && i < |shares|
    ensures shares[i].threshold == k
  {
    assert !Mismatch(shares[i], shares[0]);
  }

  /** With one share that the split may not have dealt among those used, exactly if it is the one it would have. */
  lemma OneForeignShare(r: Reparto, k: u8, tag: seq<Gf> -> Tag, shares: seq<Share>, i: nat)
    requires r.OfThreshold(k) && Acceptable(shares, k, |r.secret|) && i < k
    requires OthersDealt(r, k, tag, shares[..k], i)
    ensures CombineSpec(shares, tag) == Ok(r.secret) <==> shares[i] == r.At(k, tag, shares[i].index)
  {
    hide AtZero, Distinct, Consistent, Apart, Reparto.At, CombineSpec, CancelOut;
    AlikeLengths(shares, k, |r.secret|);
    SameThreshold(shares, k, |r.secret|, i);
    CombineGivesExactly(r, k, tag, shares);
    OneCancels(r, k, tag, shares[..k], i);
  }

  // ---------------------------------------------------------------- two splits

  /** The values in which two splits differ, at the indices chosen, and zero elsewhere. */
  function Between(a: Reparto, b: Reparto, k: u8, tag: seq<Gf> -> Tag, xs: seq<Gf>, chosen: seq<bool>, pos: nat)
    : (d: seq<Gf>)
    requires |a.coefs| == |b.coefs| == |a.secret| + TAG_LEN == |b.secret| + TAG_LEN
    requires pos < |a.coefs| && |chosen| == |xs|
    ensures |d| == |xs|
  {
    seq(|xs|, i requires 0 <= i < |xs| =>
      if chosen[i] then Xor(a.At(k, tag, xs[i]).y[pos], b.At(k, tag, xs[i]).y[pos]) else ZERO)
  }

  ghost predicate BetweenCancels(a: Reparto, b: Reparto, k: u8, tag: seq<Gf> -> Tag, xs: seq<Gf>, chosen: seq<bool>)
    requires |a.coefs| == |b.coefs| == |a.secret| + TAG_LEN == |b.secret| + TAG_LEN && |chosen| == |xs|
  {
    forall pos :: 0 <= pos < |a.coefs| ==> AtZero(xs, Between(a, b, k, tag, xs, chosen, pos)) == ZERO
  }

  /** The shares marked come from `b`, the others from `a`. */
  ghost predicate Mixture(a: Reparto, b: Reparto, k: u8, tag: seq<Gf> -> Tag, shares: seq<Share>, marked: seq<bool>)
    requires |a.coefs| == |b.coefs| == |a.secret| + TAG_LEN == |b.secret| + TAG_LEN
  {
    && |marked| == |shares|
    && forall i :: 0 <= i < |shares| ==>
         shares[i] == (if marked[i] then b else a).At(k, tag, shares[i].index)
  }

  function Unmarked(marked: seq<bool>): (r: seq<bool>)
    ensures |r| == |marked|
  {
    seq(|marked|, i requires 0 <= i < |marked| => !marked[i])
  }

  lemma ApartIsBetween(a: Reparto, b: Reparto, k: u8, tag: seq<Gf> -> Tag, usadas: seq<Share>, marked: seq<bool>,
                       pos: nat)
    requires |a.coefs| == |b.coefs| == |a.secret| + TAG_LEN == |b.secret| + TAG_LEN && pos < |a.coefs|
    requires Mixture(a, b, k, tag, usadas, marked)
    ensures Apart(a, k, tag, usadas, pos) == Between(a, b, k, tag, Indices(usadas), marked, pos)
    ensures Apart(b, k, tag, usadas, pos) == Between(a, b, k, tag, Indices(usadas), Unmarked(marked), pos)
  {
    hide Xor, Reparto.At;
    forall i | 0 <= i < |usadas|
      ensures Apart(a, k, tag, usadas, pos)[i] == Between(a, b, k, tag, Indices(usadas), marked, pos)[i]
      ensures Apart(b, k, tag, usadas, pos)[i] == Between(a, b, k, tag, Indices(usadas), Unmarked(marked), pos)[i]
    {
      var u, v := a.At(k, tag, usadas[i].index).y[pos], b.At(k, tag, usadas[i].index).y[pos];
      XorUnits(u, v);
      XorUnits(u, u);
      XorUnits(v, v);
    }
  }

  /** Shares of two splits of one length and threshold: the secret of the first comes out exactly if the weighted
   *  differences at the indices of the second's shares cancel out at every byte; and the other way round.
   */
  lemma MixedSplits(a: Reparto, b: Reparto, k: u8, tag: seq<Gf> -> Tag, shares: seq<Share>, marked: seq<bool>)
    requires a.OfThreshold(k) && b.OfThreshold(k) && |a.secret| == |b.secret|
    requires Acceptable(shares, k, |a.secret|) && Mixture(a, b, k, tag, shares, marked)
    ensures CombineSpec(shares, tag) == Ok(a.secret)
       <==> BetweenCancels(a, b, k, tag, Indices(shares[..k]), marked[..k])
    ensures CombineSpec(shares, tag) == Ok(b.secret)
       <==> BetweenCancels(a, b, k, tag, Indices(shares[..k]), Unmarked(marked[..k]))
  {
    hide Xor, Mul, AtZero, Distinct, Consistent, Apart, Between, Reparto.At;
    var usadas := shares[..k];
    assert Mixture(a, b, k, tag, usadas, marked[..k]);
    CombineGivesExactly(a, k, tag, shares);
    CombineGivesExactly(b, k, tag, shares);
    forall pos | 0 <= pos < |a.coefs|
      ensures Apart(a, k, tag, usadas, pos) == Between(a, b, k, tag, Indices(usadas), marked[..k], pos)
      ensures Apart(b, k, tag, usadas, pos) == Between(a, b, k, tag, Indices(usadas), Unmarked(marked[..k]), pos)
    {
      ApartIsBetween(a, b, k, tag, usadas, marked[..k], pos);
    }
  }

  // ----------------------------------------------- a mixture that is not noticed

  lemma BitsOfOne()
    ensures FromNumber(1) == Bits(true, false, false, false, false, false, false, false)
  {
    hide ToGf;
  }

  lemma OneOfBits()
    ensures ToGf(Bits(true, false, false, false, false, false, false, false)) == ONE
  {
    hide Shifted, Half, Odd;
  }

  lemma IndexOne()
    ensures Index(1) == ONE
  {
    hide ToGf, FromNumber;
    BitsOfOne();
    OneOfBits();
  }

  /** At 1 a polynomial is the sum of its coefficients. */
  lemma {:induction false} EvalAtOne(p: Poly)
    ensures Eval(p, ONE) == Sum(p)
  {
    hide Xor, Mul;
    if p != [] {
      EvalAtOne(p[1..]);
      MulOne(Sum(p[1..]));
    }
  }

  lemma SumChanged(c: seq<Gf>, m: nat, d: Gf)
    requires m < |c|
    ensures Sum(c[m := Xor(c[m], d)]) == Xor(d, Sum(c))
  {
    hide Xor, Sum;
    var c' := c[m := Xor(c[m], d)];
    SumWithout(c, m);
    SumWithout(c', m);
    assert Without(c', m) == Without(c, m);
    XorUnits(c[m], d);
    XorAssoc(d, c[m], Sum(Without(c, m)));
  }

  /** A change of any coefficient that makes up for another constant term, at 1. */
  lemma SameAtOne(b: Gf, s: Gf, c: seq<Gf>, m: nat)
    requires m < |c|
    ensures Eval([b] + c[m := Xor(c[m], Xor(s, b))], ONE) == Eval([s] + c, ONE)
  {
    hide Xor, Mul, Eval, Sum;
    var c' := c[m := Xor(c[m], Xor(s, b))];
    EvalAtOne([b] + c');
    EvalAtOne([s] + c);
    SumFirst(b, c');
    SumFirst(s, c);
    SumChanged(c, m, Xor(s, b));
    XorAssoc(b, Xor(s, b), Sum(c));
    XorUnits(s, b);
    XorCancel(b, s);
  }

  lemma SumFirst(a: Gf, c: seq<Gf>)
    ensures Sum([a] + c) == Xor(a, Sum(c))
  {
    hide Xor;
    assert ([a] + c)[1..] == c;
  }

  /** The first or the fourth coefficient can be changed without making eight equal ones in a row. */
  lemma HealthyChange(c: seq<Gf>, d: Gf) returns (m: nat)
    requires c != [] && Aleatorio.Healthy(c)
    ensures m < |c| && Aleatorio.Healthy(c[m := Xor(c[m], d)])
  {
    hide Xor;
    XorUnits(c[0], d);
    XorUnits(c[0], Xor(c[0], d));
    m := 0;
    var first := c[0 := Xor(c[0], d)];
    if d == ZERO {
      assert first == c;
    } else if !Aleatorio.Healthy(first) {
      var q: nat :| q < |first| && Aleatorio.RunAt(first, q);
      OnlyFirstChanged(c, first, q);
      m := 3;
      FourthIsHealthy(c, d);
    }
  }

  lemma OnlyFirstChanged(c: seq<Gf>, first: seq<Gf>, q: nat)
    requires |first| == |c| > 0 && first[1..] == c[1..] && Aleatorio.Healthy(c) && Aleatorio.RunAt(first, q)
    ensures |c| >= 8 && forall j :: 1 <= j < 8 ==> c[j] == c[4]
  {
    if q > 0 {
      assert forall j :: q <= j < q + 8 ==> c[j] == c[1..][j - 1] == first[1..][j - 1] == first[j];
      assert Aleatorio.RunAt(c, q);
    } else {
      assert forall j :: 1 <= j < 8 ==> c[j] == c[1..][j - 1] == first[1..][j - 1] == first[j];
    }
  }

  lemma FourthIsHealthy(c: seq<Gf>, d: Gf)
    requires d != ZERO && Aleatorio.Healthy(c) && |c| >= 8 && forall j :: 1 <= j < 8 ==> c[j] == c[4]
    ensures Aleatorio.Healthy(c[3 := Xor(c[3], d)])
  {
    hide Xor;
    var c' := c[3 := Xor(c[3], d)];
    assert c'[3] != c'[4] by {
      XorCancel(c[3], d);
      XorUnits(c[3], c[3]);
    }
    forall q: nat | q < |c'|
      ensures !Aleatorio.RunAt(c', q)
    {
      if 3 < q <= |c'| - 8 {
        assert forall j :: q <= j < q + 8 ==> c'[j] == c[j];
        assert !Aleatorio.RunAt(c, q);
      }
    }
  }

  /** For every split and every other secret of its length there are coefficients that the random source can
   *  deliver with which the other split deals the same first share: `combine` cannot tell whose it is, and a
   *  mixture with that share goes unseen.
   */
  lemma SplitsCanShare(a: Reparto, k: u8, tag: seq<Gf> -> Tag, secret: seq<Gf>) returns (b: Reparto)
    requires MIN_THRESHOLD <= k && a.OfThreshold(k) && |secret| == |a.secret|
    requires forall pos :: 0 <= pos < |a.coefs| ==> Aleatorio.Healthy(a.coefs[pos])
    ensures b.secret == secret && b.OfThreshold(k)
    ensures forall pos :: 0 <= pos < |b.coefs| ==> Aleatorio.Healthy(b.coefs[pos])
    ensures b.At(k, tag, Index(1)) == a.At(k, tag, Index(1))
  {
    hide Xor, Mul, Eval, Index, Aleatorio.Healthy;
    var p, q := a.secret + tag(a.secret), secret + tag(secret);
    var coefs: seq<seq<Gf>> := [];
    while |coefs| < |p|
      invariant |coefs| <= |p|
      invariant forall pos :: 0 <= pos < |coefs| ==> |coefs[pos]| == k - 1 && Aleatorio.Healthy(coefs[pos])
      invariant forall pos :: 0 <= pos < |coefs| ==>
        Eval([q[pos]] + coefs[pos], ONE) == Eval([p[pos]] + a.coefs[pos], ONE)
    {
      var at := |coefs|;
      var c, d := a.coefs[at], Xor(p[at], q[at]);
      var m := HealthyChange(c, d);
      SameAtOne(q[at], p[at], c, m);
      coefs := coefs + [c[m := Xor(c[m], d)]];
    }
    b := Reparto(secret, coefs);
    IndexOne();
    assert b.At(k, tag, ONE).y == a.At(k, tag, ONE).y;
  }
}
