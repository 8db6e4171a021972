/** Polynomials over GF(2^8), interpolation at 0 as `combine` computes it, and the
 *  one-to-one correspondence between polynomials and their values.
 */
module Interpolation {
  import opened Gf256

  /** Coefficients from degree 0 upwards. */
  type Poly = seq<Gf>

  function Eval(p: Poly, x: Gf): Gf
  {
    if p == [] then ZERO else Xor(p[0], Mul(x, Eval(p[1..], x)))
  }

  function Evals(p: Poly, xs: seq<Gf>): (ys: seq<Gf>)
    ensures |ys| == |xs|
  {
    seq(|xs|, i requires 0 <= i < |xs| => Eval(p, xs[i]))
  }

  ghost predicate Distinct<T>(xs: seq<T>)
  {
    forall i, j :: 0 <= i < j < |xs| ==> xs[i] != xs[j]
  }

  /** `s` without its element at `i`. */
  function Without<T>(s: seq<T>, i: nat): (r: seq<T>)
    requires i < |s|
    ensures |r| == |s| - 1
  {
    s[..i] + s[i + 1..]
  }

  function Sum(s: seq<Gf>): Gf { if s == [] then ZERO else Xor(s[0], Sum(s[1..])) }

  function Product(s: seq<Gf>): Gf { if s == [] then ONE else Mul(s[0], Product(s[1..])) }

  function Offsets(xs: seq<Gf>, x: Gf): (r: seq<Gf>)
    ensures |r| == |xs|
  {
    seq(|xs|, i requires 0 <= i < |xs| => Xor(x, xs[i]))
  }

  /** The Lagrange coefficient of `xs[i]` at 0: the product of x_j / (x_i - x_j). */
  function Lambda(xs: seq<Gf>, i: nat): Gf
    requires i < |xs|
  {
    Mul(Product(Without(xs, i)), Inv(Product(Offsets(Without(xs, i), xs[i]))))
  }

  function Terms(xs: seq<Gf>, ys: seq<Gf>): (r: seq<Gf>)
    requires |xs| == |ys|
    ensures |r| == |xs|
  {
    seq(|xs|, i requires 0 <= i < |xs| => Mul(ys[i], Lambda(xs, i)))
  }

  /** Interpolation at 0. */
  function AtZero(xs: seq<Gf>, ys: seq<Gf>): Gf
    requires |xs| == |ys|
  {
    Sum(Terms(xs, ys))
  }

  // ------------------------------------------------------ division by x - r

  /** The quotient of `p` by x - r. */
  function Quotient(p: Poly, r: Gf): (q: Poly)
    ensures |q| == if p == [] then 0 else |p| - 1
  {
    if |p| <= 1 then [] else [Eval(p[1..], r)] + Quotient(p[1..], r)
  }

  /** p(x) = p(r) + (x - r) q(x). */
  lemma {:induction false} Division(p: Poly, r: Gf, x: Gf)
    ensures Eval(p, x) == Xor(Eval(p, r), Mul(Xor(x, r), Eval(Quotient(p, r), x)))
  {
    hide Xor, Mul;
    if p == [] {
      MulZero(Xor(x, r));
      XorUnits(ZERO, ZERO);
    } else if |p| == 1 {
      MulZero(Xor(x, r));
      MulZero(x);
      MulZero(r);
      XorUnits(p[0], ZERO);
      assert Eval(p[1..], x) == ZERO && Eval(p[1..], r) == ZERO;
    } else {
      Division(p[1..], r, x);
      assert Quotient(p, r)[1..] == Quotient(p[1..], r);
      DivisionStep(p[0], x, r, Eval(p[1..], r), Eval(Quotient(p[1..], r), x));
    }
  }

  /** c + x (v + (x - r) w) = (c + r v) + (x - r) (v + x w). */
  lemma DivisionStep(c: Gf, x: Gf, r: Gf, v: Gf, w: Gf)
    ensures Xor(c, Mul(x, Xor(v, Mul(Xor(x, r), w)))) == Xor(Xor(c, Mul(r, v)), Mul(Xor(x, r), Xor(v, Mul(x, w))))
  {
    hide Xor, Mul;
    var d := Xor(x, r);
    MulDistributes(x, v, Mul(d, w));
    MulDistributes(d, v, Mul(x, w));
    MulDistributes(x, r, v);
    MulLeftComm(x, d, w);
    XorAssoc(c, Mul(r, v), Xor(Mul(d, v), Mul(d, Mul(x, w))));
    XorUnits(Mul(x, v), Mul(r, v));
    XorAssoc(Mul(r, v), Mul(d, v), Mul(d, Mul(x, w)));
    XorCancel(Mul(r, v), Mul(x, v));
  }

  lemma MulLeftComm(a: Gf, b: Gf, c: Gf)
    ensures Mul(a, Mul(b, c)) == Mul(b, Mul(a, c))
  {
    hide Xor, Mul;
    MulAssoc(a, b, c);
    MulComm(a, b);
    MulAssoc(b, a, c);
  }

  // ------------------------------------------------- sums and products less a term

  lemma {:induction false} SumWithout(s: seq<Gf>, m: nat)
    requires m < |s|
    ensures Sum(s) == Xor(s[m], Sum(Without(s, m)))
  {
    hide Xor;
    if m == 0 {
      assert Without(s, 0) == s[1..];
    } else {
      SumWithout(s[1..], m - 1);
      assert Without(s, m)[1..] == Without(s[1..], m - 1);
      SumSwap(s[0], s[m], Sum(Without(s[1..], m - 1)));
    }
  }

  lemma SumSwap(a: Gf, b: Gf, c: Gf)
    ensures Xor(a, Xor(b, c)) == Xor(b, Xor(a, c))
  {
    hide Xor;
    XorAssoc(a, b, c);
    XorUnits(a, b);
    XorAssoc(b, a, c);
  }

  lemma {:induction false} ProductWithout(s: seq<Gf>, m: nat)
    requires m < |s|
    ensures Product(s) == Mul(s[m], Product(Without(s, m)))
  {
    hide Mul;
    if m == 0 {
      assert Without(s, 0) == s[1..];
    } else {
      ProductWithout(s[1..], m - 1);
      assert Without(s, m)[1..] == Without(s[1..], m - 1);
      MulLeftComm(s[0], s[m], Product(Without(s[1..], m - 1)));
    }
  }

  lemma {:induction false} ProductNonZero(s: seq<Gf>)
    requires ZERO !in s
    ensures Product(s) != ZERO
  {
    hide Mul;
    if s != [] {
      ProductNonZero(s[1..]);
      NoZeroDivisors(s[0], Product(s[1..]));
    }
  }

  lemma {:induction false} SumScale(s: seq<Gf>, t: seq<Gf>, c: Gf)
    requires |s| == |t|
    requires forall i :: 0 <= i < |s| ==> t[i] == Mul(c, s[i])
    ensures Sum(t) == Mul(c, Sum(s))
  {
    hide Xor, Mul;
    if s == [] {
      MulZero(c);
    } else {
      SumScale(s[1..], t[1..], c);
      MulDistributes(c, s[0], Sum(s[1..]));
    }
  }

  lemma {:induction false} SumAdd(s: seq<Gf>, t: seq<Gf>, u: seq<Gf>)
    requires |s| == |t| == |u|
    requires forall i :: 0 <= i < |s| ==> u[i] == Xor(s[i], t[i])
    ensures Sum(u) == Xor(Sum(s), Sum(t))
  {
    hide Xor, Mul;
    if s == [] {
      XorUnits(ZERO, ZERO);
    } else {
      SumAdd(s[1..], t[1..], u[1..]);
      XorSwap(s[0], t[0], Sum(s[1..]), Sum(t[1..]));
    }
  }

  // ----------------------------------------------------- Lagrange coefficients

  lemma OffsetsNonZero(xs: seq<Gf>, i: nat)
    requires i < |xs| && Distinct(xs)
    ensures ZERO !in Offsets(Without(xs, i), xs[i])
    ensures Product(Offsets(Without(xs, i), xs[i])) != ZERO
  {
    hide Xor, Mul;
    var w := Without(xs, i);
    forall j | 0 <= j < |w|
      ensures Offsets(w, xs[i])[j] != ZERO
    {
      assert w[j] == xs[if j < i then j else j + 1];
      XorUnits(xs[i], w[j]);
    }
    ProductNonZero(Offsets(w, xs[i]));
  }

  /** Where two elements go when one of them is taken out, and what is left without both. */
  lemma WithoutTwo<T>(xs: seq<T>, m: nat, i: nat)
    requires m < |xs| && i < |xs| && i != m
    ensures var i0, m0 := if i < m then i else i - 1, if m < i then m else m - 1;
      && m0 < |Without(xs, i)| && Without(xs, i)[m0] == xs[m]
      && i0 < |Without(xs, m)| && Without(xs, m)[i0] == xs[i]
      && Without(Without(xs, i), m0) == Without(Without(xs, m), i0)
  {
  }

  lemma OffsetsWithout(xs: seq<Gf>, m: nat, x: Gf)
    requires m < |xs|
    ensures Offsets(xs, x)[m] == Xor(x, xs[m])
    ensures Without(Offsets(xs, x), m) == Offsets(Without(xs, m), x)
  {
    hide Xor;
  }

  lemma LambdaAlgebra(x: Gf, num: Gf, d: Gf, e: Gf)
    requires d != ZERO && e != ZERO
    ensures Mul(d, Mul(Mul(x, num), Inv(Mul(d, e)))) == Mul(x, Mul(num, Inv(e)))
  {
    hide *;
    InvMul(d, e);
    InverseLaw(d);
    MulSwap(x, num, Inv(d), Inv(e));
    MulAssoc(d, Mul(x, Inv(d)), Mul(num, Inv(e)));
    MulLeftComm(d, x, Inv(d));
    MulOne(x);
  }

  /** The weight of a point, less one other point, by the products they share. */
  lemma LambdaParts(xs: seq<Gf>, m: nat, i: nat)
    requires m < |xs| && i < |xs| && i != m && Distinct(xs)
    ensures var i0 := if i < m then i else i - 1;
      var rest := Without(Without(xs, m), i0);
      var num, d, e := Product(rest), Xor(xs[i], xs[m]), Product(Offsets(rest, xs[i]));
      && i0 < |Without(xs, m)|
      && d != ZERO && e != ZERO
      && Lambda(xs, i) == Mul(Mul(xs[m], num), Inv(Mul(d, e)))
      && Lambda(Without(xs, m), i0) == Mul(num, Inv(e))
  {
    var i0, m0 := if i < m then i else i - 1, if m < i then m else m - 1;
    WithoutTwo(xs, m, i);
    var w := Without(xs, i);
    ProductWithout(w, m0);
    OffsetsWithout(w, m0, xs[i]);
    ProductWithout(Offsets(w, xs[i]), m0);
    DistinctWithout(xs, m);
    OffsetsNonZero(Without(xs, m), i0);
    XorUnits(xs[i], xs[m]);
    hide Xor, Mul, Inv, Product, Offsets, Without;
  }

  /** Dropping the point `m` multiplies the coefficient of `i` by (x_i - x_m) / x_m. */
  lemma LambdaDrop(xs: seq<Gf>, m: nat, i: nat)
    requires m < |xs| && i < |xs| && i != m && Distinct(xs)
    ensures (if i < m then i else i - 1) < |Without(xs, m)|
    ensures Mul(Xor(xs[i], xs[m]), Lambda(xs, i)) == Mul(xs[m], Lambda(Without(xs, m), if i < m then i else i - 1))
  {
    hide *;
    LambdaParts(xs, m, i);
    var rest := Without(Without(xs, m), if i < m then i else i - 1);
    LambdaAlgebra(xs[m], Product(rest), Xor(xs[i], xs[m]), Product(Offsets(rest, xs[i])));
  }

  lemma DistinctWithout<T>(xs: seq<T>, m: nat)
    requires m < |xs| && Distinct(xs)
    ensures Distinct(Without(xs, m))
  {
    var v := Without(xs, m);
    assert forall j :: 0 <= j < |v| ==> v[j] == xs[if j < m then j else j + 1];
  }

  // ------------------------------------------------------- interpolation at 0

  lemma AtZeroAdd(xs: seq<Gf>, ys: seq<Gf>, zs: seq<Gf>, us: seq<Gf>)
    requires |xs| == |ys| == |zs| == |us|
    requires forall i :: 0 <= i < |xs| ==> us[i] == Xor(ys[i], zs[i])
    ensures AtZero(xs, us) == Xor(AtZero(xs, ys), AtZero(xs, zs))
  {
    hide Xor, Mul, Lambda;
    var s, t, u := Terms(xs, ys), Terms(xs, zs), Terms(xs, us);
    forall i | 0 <= i < |xs|
      ensures u[i] == Xor(s[i], t[i])
    {
      MulDistributes(ys[i], zs[i], Lambda(xs, i));
    }
    SumAdd(s, t, u);
  }

  lemma AtZeroScale(xs: seq<Gf>, ys: seq<Gf>, zs: seq<Gf>, c: Gf)
    requires |xs| == |ys| == |zs|
    requires forall i :: 0 <= i < |xs| ==> zs[i] == Mul(c, ys[i])
    ensures AtZero(xs, zs) == Mul(c, AtZero(xs, ys))
  {
    hide Xor, Mul, Lambda;
    var s, t := Terms(xs, ys), Terms(xs, zs);
    forall i | 0 <= i < |xs|
      ensures t[i] == Mul(c, s[i])
    {
      MulAssoc(c, ys[i], Lambda(xs, i));
    }
    SumScale(s, t, c);
  }

  /** Values that vanish at the point `m` interpolate as x_m times their quotients on the other points. */
  lemma AtZeroDrop(xs: seq<Gf>, m: nat, qs: seq<Gf>, zs: seq<Gf>)
    requires m < |xs| == |qs| == |zs| && Distinct(xs)
    requires forall i :: 0 <= i < |xs| ==> zs[i] == Mul(Xor(xs[i], xs[m]), qs[i])
    ensures AtZero(xs, zs) == Mul(xs[m], AtZero(Without(xs, m), Without(qs, m)))
  {
    hide Xor, Mul, Lambda;
    var v, w := Without(xs, m), Without(qs, m);
    var s, t := Terms(xs, zs), Terms(v, w);
    XorUnits(xs[m], xs[m]);
    MulZero(qs[m]);
    MulZero(Lambda(xs, m));
    assert s[m] == ZERO;
    SumWithout(s, m);
    XorUnits(Sum(Without(s, m)), ZERO);
    forall j | 0 <= j < |t|
      ensures Without(s, m)[j] == Mul(xs[m], t[j])
    {
      var i := if j < m then j else j + 1;
      assert Without(s, m)[j] == s[i] && w[j] == qs[i];
      LambdaDrop(xs, m, i);
      MulComm(Xor(xs[i], xs[m]), qs[i]);
      MulAssoc(qs[i], Xor(xs[i], xs[m]), Lambda(xs, i));
      MulLeftComm(qs[i], xs[m], Lambda(v, j));
    }
    SumScale(t, Without(s, m), xs[m]);
  }

  function Constant(n: nat, c: Gf): (r: seq<Gf>)
    ensures |r| == n
  {
    seq(n, _ => c)
  }

  /** The Lagrange coefficients at 0 add up to 1. */
  lemma {:induction false} LambdasSumToOne(xs: seq<Gf>)
    requires xs != [] && Distinct(xs)
    ensures AtZero(xs, Constant(|xs|, ONE)) == ONE
    decreases |xs|
  {
    hide Xor, Mul;
    var n := |xs|;
    var ones := Constant(n, ONE);
    if n == 1 {
      LambdaSingle(xs);
    } else {
      hide Lambda;
      var z0, z1 := Offsets(xs, xs[0]), Offsets(xs, xs[1]);
      var d := Xor(xs[0], xs[1]);
      forall i | 0 <= i < n
        ensures z0[i] == Mul(Xor(xs[i], xs[0]), ONE) && z1[i] == Mul(Xor(xs[i], xs[1]), ONE)
        ensures Constant(n, d)[i] == Xor(z0[i], z1[i]) == Mul(d, ONE)
      {
        MulOne(Xor(xs[i], xs[0]));
        MulOne(Xor(xs[i], xs[1]));
        MulOne(d);
        XorUnits(xs[0], xs[i]);
        XorUnits(xs[1], xs[i]);
        XorSwap(xs[0], xs[i], xs[1], xs[i]);
        XorUnits(xs[i], xs[i]);
        XorUnits(d, ZERO);
      }
      AtZeroDrop(xs, 0, ones, z0);
      AtZeroDrop(xs, 1, ones, z1);
      DistinctWithout(xs, 0);
      DistinctWithout(xs, 1);
      LambdasSumToOne(Without(xs, 0));
      LambdasSumToOne(Without(xs, 1));
      assert Without(ones, 0) == Constant(n - 1, ONE) == Without(ones, 1);
      AtZeroAdd(xs, z0, z1, Constant(n, d));
      AtZeroScale(xs, ones, Constant(n, d), d);
      MulOne(xs[0]);
      MulOne(xs[1]);
      MulOne(d);
      XorUnits(xs[0], xs[1]);
      Cancel(d, AtZero(xs, ones), ONE);
    }
  }

  lemma LambdaSingle(xs: seq<Gf>)
    requires |xs| == 1
    ensures AtZero(xs, Constant(1, ONE)) == ONE
  {
    hide Xor, Mul, Inv;
    var t := Terms(xs, Constant(1, ONE));
    assert Without(xs, 0) == [] && Offsets([], xs[0]) == [];
    assert Lambda(xs, 0) == Mul(ONE, Inv(ONE));
    XorUnits(ONE, ZERO);
    OneIsNotZero();
    InverseLaw(ONE);
    MulOne(ONE);
    assert Sum(t) == Xor(t[0], Sum(t[1..])) && Sum(t[1..]) == ZERO;
    XorUnits(t[0], ZERO);
  }

  lemma OneIsNotZero()
    ensures ONE != ZERO
  {
  }

  /** Lagrange: a polynomial of degree below the number of points is recovered at 0 from its values. */
  lemma {:induction false} InterpolationAtZero(p: Poly, xs: seq<Gf>)
    requires |p| <= |xs| && Distinct(xs)
    ensures AtZero(xs, Evals(p, xs)) == Eval(p, ZERO)
    decreases |xs|
  {
    hide Xor, Mul, Lambda;
    var n := |xs|;
    if xs != [] {
      var r := xs[0];
      var v := Without(xs, 0);
      var q := Quotient(p, r);
      var ones := Constant(n, ONE);
      var heads := Constant(n, Eval(p, r));
      var qs := Evals(q, xs);
      var zs := seq(n, i requires 0 <= i < n => Mul(Xor(xs[i], r), qs[i]));
      forall i | 0 <= i < n
        ensures Evals(p, xs)[i] == Xor(heads[i], zs[i]) && heads[i] == Mul(Eval(p, r), ones[i])
      {
        Division(p, r, xs[i]);
        MulOne(Eval(p, r));
      }
      AtZeroAdd(xs, heads, zs, Evals(p, xs));
      AtZeroScale(xs, ones, heads, Eval(p, r));
      LambdasSumToOne(xs);
      MulOne(Eval(p, r));
      AtZeroDrop(xs, 0, qs, zs);
      assert Without(qs, 0) == Evals(q, v);
      DistinctWithout(xs, 0);
      InterpolationAtZero(q, v);
      Division(p, r, ZERO);
      XorUnits(r, ZERO);
    }
  }

  // ------------------------------------ polynomials and values correspond one to one

  /** v + (x - r) q. */
  function Attach(q: Poly, r: Gf, v: Gf): (p: Poly)
    ensures |p| == |q| + 1
  {
    if q == [] then [v] else [Xor(v, Mul(r, q[0]))] + Attach(q[1..], r, q[0])
  }

  lemma {:induction false} AttachEval(q: Poly, r: Gf, v: Gf, x: Gf)
    ensures Eval(Attach(q, r, v), x) == Xor(v, Mul(Xor(x, r), Eval(q, x)))
  {
    hide Xor, Mul;
    if q == [] {
      MulZero(Xor(x, r));
      MulZero(x);
      assert Attach(q, r, v)[1..] == [];
    } else {
      AttachEval(q[1..], r, q[0], x);
      assert Attach(q, r, v)[1..] == Attach(q[1..], r, q[0]);
      AttachStep(v, q[0], x, r, Eval(q[1..], x));
    }
  }

  /** (v + r c) + x (c + (x - r) w) = v + (x - r) (c + x w). */
  lemma AttachStep(v: Gf, c: Gf, x: Gf, r: Gf, w: Gf)
    ensures Xor(Xor(v, Mul(r, c)), Mul(x, Xor(c, Mul(Xor(x, r), w)))) == Xor(v, Mul(Xor(x, r), Xor(c, Mul(x, w))))
  {
    hide Xor, Mul;
    var d := Xor(x, r);
    MulDistributes(x, c, Mul(d, w));
    MulDistributes(d, c, Mul(x, w));
    MulDistributes(x, r, c);
    MulLeftComm(x, d, w);
    XorAssoc(v, Mul(r, c), Xor(Mul(x, c), Mul(d, Mul(x, w))));
    XorAssoc(Mul(r, c), Mul(x, c), Mul(d, Mul(x, w)));
    XorUnits(Mul(r, c), Mul(x, c));
  }

  /** Dividing and attaching are inverse. */
  lemma {:induction false} AttachQuotient(p: Poly, r: Gf)
    requires p != []
    ensures Attach(Quotient(p, r), r, Eval(p, r)) == p
  {
    hide Xor, Mul;
    if |p| == 1 {
      assert Eval(p[1..], r) == ZERO;
      MulZero(r);
      XorUnits(p[0], ZERO);
    } else {
      var v := Eval(p[1..], r);
      AttachQuotient(p[1..], r);
      assert Quotient(p, r)[1..] == Quotient(p[1..], r);
      XorCancel(p[0], Mul(r, v));
    }
  }

  /** The values that the quotient by x - r must take for the polynomial to take the values `ys`. */
  function Slopes(xs: seq<Gf>, ys: seq<Gf>, r: Gf, v: Gf): (s: seq<Gf>)
    requires |xs| == |ys|
    ensures |s| == |xs|
  {
    seq(|xs|, i requires 0 <= i < |xs| => Mul(Inv(Xor(xs[i], r)), Xor(ys[i], v)))
  }

  /** The polynomial with as many coefficients as points that takes the values `ys` at `xs`. */
  function Through(xs: seq<Gf>, ys: seq<Gf>): (p: Poly)
    requires |xs| == |ys|
    ensures |p| == |xs|
    decreases |xs|
  {
    if xs == [] then [] else Attach(Through(xs[1..], Slopes(xs[1..], ys[1..], xs[0], ys[0])), xs[0], ys[0])
  }

  /** Values to polynomial to values. */
  lemma {:induction false} ThroughEvals(xs: seq<Gf>, ys: seq<Gf>)
    requires |xs| == |ys| && Distinct(xs)
    ensures Evals(Through(xs, ys), xs) == ys
    decreases |xs|
  {
    hide Xor, Mul, Inv;
    if xs != [] {
      var r, v := xs[0], ys[0];
      var ss := Slopes(xs[1..], ys[1..], r, v);
      var q := Through(xs[1..], ss);
      ThroughEvals(xs[1..], ss);
      forall i | 0 <= i < |xs|
        ensures Eval(Through(xs, ys), xs[i]) == ys[i]
      {
        AttachEval(q, r, v, xs[i]);
        XorUnits(xs[i], r);
        if i == 0 {
          MulZero(Eval(q, r));
          XorUnits(v, ZERO);
        } else {
          var d := Xor(xs[i], r);
          assert Eval(q, xs[i]) == Evals(q, xs[1..])[i - 1] == Mul(Inv(d), Xor(ys[i], v));
          UndoSlope(d, ys[i], v);
        }
      }
    }
  }

  lemma UndoSlope(d: Gf, y: Gf, v: Gf)
    requires d != ZERO
    ensures Xor(v, Mul(d, Mul(Inv(d), Xor(y, v)))) == y
  {
    hide Xor, Mul, Inv;
    MulAssoc(d, Inv(d), Xor(y, v));
    InverseLaw(d);
    MulOne(Xor(y, v));
    XorUnits(v, y);
    XorUnits(y, v);
    XorCancel(y, v);
    XorCancel(v, y);
  }

  /** Polynomial to values to polynomial. */
  lemma {:induction false} EvalsThrough(p: Poly, xs: seq<Gf>)
    requires |p| == |xs| && Distinct(xs)
    ensures Through(xs, Evals(p, xs)) == p
    decreases |xs|
  {
    hide Xor, Mul, Inv;
    if xs != [] {
      var r, v := xs[0], Eval(p, xs[0]);
      var q := Quotient(p, r);
      var ys := Evals(p, xs);
      var ss := Slopes(xs[1..], ys[1..], r, v);
      forall i | 0 <= i < |ss|
        ensures ss[i] == Eval(q, xs[1..][i])
      {
        var x := xs[i + 1];
        Division(p, r, x);
        XorUnits(x, r);
        TakeSlope(Xor(x, r), ys[i + 1], v, Eval(q, x));
      }
      assert ss == Evals(q, xs[1..]);
      EvalsThrough(q, xs[1..]);
      AttachQuotient(p, r);
    }
  }

  lemma TakeSlope(d: Gf, y: Gf, v: Gf, w: Gf)
    requires d != ZERO && y == Xor(v, Mul(d, w))
    ensures Mul(Inv(d), Xor(y, v)) == w
  {
    hide Xor, Mul, Inv;
    XorUnits(v, Mul(d, w));
    XorCancel(Mul(d, w), v);
    MulAssoc(Inv(d), d, w);
    MulComm(Inv(d), d);
    InverseLaw(d);
    MulOne(w);
  }
}
