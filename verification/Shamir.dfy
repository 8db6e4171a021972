/** `src/shamir.rs`: k-of-n secret sharing over GF(2^8), with the integrity tag inside what is shared.
 *
 *  A `u8` of the original is a `Gf`. SHA-256 is a parameter `tag`: any function to eight bytes.
 *  The random coefficients are a parameter too: `draws[pos]` is what the request for the
 *  coefficients of byte `pos` answered.
 */
module Shamir {
  import opened Results
  import opened Gf256
  import opened GfInt
  import opened Interpolation
  import Aleatorio

  const TAG_LEN: nat := 8
  const MIN_THRESHOLD: nat := 2

  type Tag = s: seq<Gf> | |s| == TAG_LEN witness [ZERO, ZERO, ZERO, ZERO, ZERO, ZERO, ZERO, ZERO]

  datatype ShamirError =
    | BadParameters
    | EmptySecret
    | NotEnoughShares(needed: nat, got: nat)
    | Inconsistent
    | VerificationFailed
    | Malformed
    | SinEntropia(causa: Aleatorio.SinEntropia)

  datatype Share = Share(threshold: u8, index: Gf, y: seq<Gf>)

  type Draws = seq<Result<seq<Gf>, Aleatorio.SinEntropia>>

  function Index(i: u8): Gf { FromByte(i) }

  // ------------------------------------------------------------------ split

  /** The share with index `x`: one polynomial per byte, the byte its constant term. */
  function ShareAt(payload: seq<Gf>, coefs: seq<seq<Gf>>, k: u8, x: Gf): (s: Share)
    requires |coefs| == |payload|
    ensures |s.y| == |payload|
  {
    Share(k, x, seq(|payload|, pos requires 0 <= pos < |payload| => Eval([payload[pos]] + coefs[pos], x)))
  }

  function SharesOf(payload: seq<Gf>, coefs: seq<seq<Gf>>, k: u8, n: u8): (r: seq<Share>)
    requires |coefs| == |payload|
    ensures |r| == n
  {
    seq(n, j requires 0 <= j < n => ShareAt(payload, coefs, k, Index(j + 1)))
  }

  /** The request numbered `pos` is the first that fails. */
  ghost predicate FailsFirst(draws: Draws, pos: nat)
  {
    pos < |draws| && draws[pos].Err? && forall q :: 0 <= q < pos ==> draws[q].Ok?
  }

  /** One answer per payload byte, each success as long as the buffer of coefficients. */
  ghost predicate FitsRequests(draws: Draws, len: nat, k: int)
  {
    |draws| == len && forall pos :: 0 <= pos < len && draws[pos].Ok? ==> |draws[pos].value| == k - 1
  }

  function Drawn(draws: Draws): (coefs: seq<seq<Gf>>)
    requires forall pos :: 0 <= pos < |draws| ==> draws[pos].Ok?
    ensures |coefs| == |draws|
  {
    seq(|draws|, pos requires 0 <= pos < |draws| => draws[pos].value)
  }

  method Split(secret: seq<Gf>, threshold: u8, shares: u8, tag: seq<Gf> -> Tag, draws: Draws)
    returns (r: Result<seq<Share>, ShamirError>)
    requires FitsRequests(draws, |secret| + TAG_LEN, threshold)
    ensures secret == [] ==> r == Err(EmptySecret)
    ensures secret != [] && (threshold < MIN_THRESHOLD || shares < threshold) ==> r == Err(BadParameters)
    ensures secret != [] && MIN_THRESHOLD <= threshold <= shares ==>
      if forall pos :: 0 <= pos < |draws| ==> draws[pos].Ok?
      then r == Ok(SharesOf(secret + tag(secret), Drawn(draws), threshold, shares))
      else exists pos: nat :: FailsFirst(draws, pos) && r == Err(SinEntropia(draws[pos].error))
    ensures r.Ok? ==> |r.value| == shares && forall j, pos ::
      0 <= j < shares && 0 <= pos < |secret| + TAG_LEN ==>
        && draws[pos].Ok?
        && |r.value[j].y| == |secret| + TAG_LEN
        && r.value[j].y[pos] == Eval([(secret + tag(secret))[pos]] + draws[pos].value, Index(j + 1))
  {
    hide Xor, Mul, Eval, Index;
    if secret == [] {
      return Err(EmptySecret);
    }
    if threshold < MIN_THRESHOLD || shares < threshold {
      return Err(BadParameters);
    }
    var payload := secret + tag(secret);
    var fuera: seq<Share> := seq(shares, j requires 0 <= j < shares => Share(threshold, Index(j + 1), []));
    for at := 0 to |payload|
      invariant forall q :: 0 <= q < at ==> draws[q].Ok?
      invariant |fuera| == shares
      invariant forall j :: 0 <= j < shares ==>
        fuera[j] == ShareAt(payload[..at], Drawn(draws[..at]), threshold, Index(j + 1))
    {
      match draws[at] {
        case Err(e) =>
          assert FailsFirst(draws, at);
          return Err(SinEntropia(e));
        case Ok(coeficientes) =>
          ghost var before := fuera;
          for j := 0 to shares
            invariant |fuera| == shares
            invariant forall i :: j <= i < shares ==> fuera[i] == before[i]
            invariant forall i :: 0 <= i < j ==>
              fuera[i] == ShareAt(payload[..at + 1], Drawn(draws[..at + 1]), threshold, Index(i + 1))
          {
            var acc := Horner(coeficientes, payload[at], fuera[j].index);
            ghost var was := fuera[j];
            fuera := fuera[j := fuera[j].(y := fuera[j].y + [acc])];
            assert fuera[j].y == ShareAt(payload[..at + 1], Drawn(draws[..at + 1]), threshold, was.index).y;
          }
      }
    }
    assert payload[..|payload|] == payload && draws[..|payload|] == draws;
    assert fuera == SharesOf(payload, Drawn(draws), threshold, shares);
    r := Ok(fuera);
  }

  /** From the highest degree down, ending in the constant term. */
  method Horner(coeficientes: seq<Gf>, termino: Gf, x: Gf) returns (acc: Gf)
    ensures acc == Eval([termino] + coeficientes, x)
  {
    hide Xor, Mul;
    acc := ZERO;
    var i := |coeficientes|;
    while i > 0
      invariant 0 <= i <= |coeficientes|
      invariant acc == Eval(coeficientes[i..], x)
    {
      i := i - 1;
      MulComm(acc, x);
      assert coeficientes[i..][1..] == coeficientes[i + 1..];
      acc := GfMul(acc, x);
      XorUnits(acc, coeficientes[i]);
      acc := Xor(acc, coeficientes[i]);
    }
    assert coeficientes[0..] == coeficientes;
    MulComm(acc, x);
    acc := GfMul(acc, x);
    XorUnits(acc, termino);
    acc := Xor(acc, termino);
    assert ([termino] + coeficientes)[1..] == coeficientes;
  }

  // ---------------------------------------------------------------- combine

  ghost predicate Mismatch(s: Share, primera: Share)
  {
    s.threshold != primera.threshold || |s.y| != |primera.y| || s.index == ZERO
  }

  function Indices(shares: seq<Share>): (r: seq<Gf>)
    ensures |r| == |shares|
  {
    seq(|shares|, i requires 0 <= i < |shares| => shares[i].index)
  }

  function Column(shares: seq<Share>, pos: nat): (r: seq<Gf>)
    requires forall i :: 0 <= i < |shares| ==> pos < |shares[i].y|
    ensures |r| == |shares|
  {
    seq(|shares|, i requires 0 <= i < |shares| => shares[i].y[pos])
  }

  /** What interpolating every byte at 0 recovers. */
  function Recovered(usadas: seq<Share>, len: nat): (r: seq<Gf>)
    requires forall i :: 0 <= i < |usadas| ==> |usadas[i].y| == len
    ensures |r| == len
  {
    seq(len, pos requires 0 <= pos < len => AtZero(Indices(usadas), Column(usadas, pos)))
  }

  ghost predicate Consistent(shares: seq<Share>)
    requires shares != []
  {
    && (forall i :: 0 <= i < |shares| ==> !Mismatch(shares[i], shares[0]))
    && Distinct(Indices(shares))
  }

  /** What `combine` answers. */
  ghost function CombineSpec(shares: seq<Share>, tag: seq<Gf> -> Tag): Result<seq<Gf>, ShamirError>
    requires shares != [] ==> |shares[0].y| >= TAG_LEN
  {
    if shares == [] then Err(NotEnoughShares(MIN_THRESHOLD, 0))
    else
      var needed := shares[0].threshold;
      if |shares| < needed then Err(NotEnoughShares(needed, |shares|))
      else if !Consistent(shares) then Err(Inconsistent)
      else
        var recuperado := Recovered(shares[..needed], |shares[0].y|);
        var corte := |recuperado| - TAG_LEN;
        if tag(recuperado[..corte]) == recuperado[corte..] then Ok(recuperado[..corte])
        else Err(VerificationFailed)
  }

  method Combine(shares: seq<Share>, tag: seq<Gf> -> Tag) returns (r: Result<seq<Gf>, ShamirError>)
    requires shares != [] ==> |shares[0].y| >= TAG_LEN
    ensures r == CombineSpec(shares, tag)
  {
    hide Xor, Mul, AtZero, Lambda;
    if shares == [] {
      return Err(NotEnoughShares(MIN_THRESHOLD, 0));
    }
    var primera := shares[0];
    var needed := primera.threshold;
    if |shares| < needed {
      return Err(NotEnoughShares(needed, |shares|));
    }
    var distintas := SameSplit(shares);
    if !distintas {
      return Err(Inconsistent);
    }
    var usadas := shares[..needed];
    var lambdas := Lambdas(Indices(usadas));
    var recuperado := new Gf[|primera.y|];
    for pos := 0 to recuperado.Length
      invariant recuperado[..pos] == Recovered(usadas, |primera.y|)[..pos]
    {
      var acc := Weighted(Column(usadas, pos), Indices(usadas), lambdas);
      recuperado[pos] := acc;
    }
    var corte := recuperado.Length - TAG_LEN;
    var secreto := recuperado[..corte];
    assert recuperado[..recuperado.Length] == recuperado[..] == Recovered(usadas, |primera.y|);
    if tag(secreto) != recuperado[corte..] {
      return Err(VerificationFailed);
    }
    r := Ok(secreto);
  }

  /** The two checks that all shares belong together. */
  method SameSplit(shares: seq<Share>) returns (ok: bool)
    requires shares != []
    ensures ok == Consistent(shares)
  {
    var primera := shares[0];
    for i := 0 to |shares|
      invariant forall j :: 0 <= j < i ==> !Mismatch(shares[j], primera)
    {
      var s := shares[i];
      if s.threshold != primera.threshold || |s.y| != |primera.y| || s.index == ZERO {
        assert Mismatch(shares[i], primera);
        return false;
      }
    }
    for i := 0 to |shares|
      invariant forall a, b :: 0 <= a < i && a < b < |shares| ==> shares[a].index != shares[b].index
    {
      for j := i + 1 to |shares|
        invariant forall b :: i < b < j ==> shares[i].index != shares[b].index
      {
        if shares[j].index == shares[i].index {
          assert Indices(shares)[i] == Indices(shares)[j];
          return false;
        }
      }
    }
    ok := true;
  }

  method Lambdas(xs: seq<Gf>) returns (lambdas: seq<Gf>)
    ensures |lambdas| == |xs|
    ensures forall i :: 0 <= i < |xs| ==> lambdas[i] == Lambda(xs, i)
  {
    hide Xor, Mul, Inv;
    lambdas := [];
    for i := 0 to |xs|
      invariant |lambdas| == i
      invariant forall a :: 0 <= a < i ==> lambdas[a] == Lambda(xs, a)
    {
      var num, den := ONE, ONE;
      for j := 0 to |xs|
        invariant num == Product(Skip(xs, i, j))
        invariant den == Product(Offsets(Skip(xs, i, j), xs[i]))
      {
        if i != j {
          SkipNext(xs, i, j);
          num := GfMul(num, xs[j]);
          den := GfMul(den, Xor(xs[i], xs[j]));
        } else {
          assert Skip(xs, i, j + 1) == Skip(xs, i, j);
        }
      }
      assert Skip(xs, i, |xs|) == Without(xs, i);
      var inverso := GfInv(den);
      var lambda := GfMul(num, inverso);
      lambdas := lambdas + [lambda];
    }
  }

  /** The first `j` elements, less the one at `i`. */
  function Skip(xs: seq<Gf>, i: nat, j: nat): seq<Gf>
    requires i < |xs| && j <= |xs|
  {
    if i < j then xs[..i] + xs[i + 1..j] else xs[..j]
  }

  lemma SkipNext(xs: seq<Gf>, i: nat, j: nat)
    requires i < |xs| && j < |xs| && i != j
    ensures Product(Skip(xs, i, j + 1)) == Mul(Product(Skip(xs, i, j)), xs[j])
    ensures Product(Offsets(Skip(xs, i, j + 1), xs[i]))
      == Mul(Product(Offsets(Skip(xs, i, j), xs[i])), Xor(xs[i], xs[j]))
  {
    hide Xor, Mul;
    assert Skip(xs, i, j + 1) == Skip(xs, i, j) + [xs[j]];
    assert Offsets(Skip(xs, i, j + 1), xs[i]) == Offsets(Skip(xs, i, j), xs[i]) + [Xor(xs[i], xs[j])];
    ProductAppend(Skip(xs, i, j), xs[j]);
    ProductAppend(Offsets(Skip(xs, i, j), xs[i]), Xor(xs[i], xs[j]));
  }

  lemma {:induction false} ProductAppend(s: seq<Gf>, x: Gf)
    ensures Product(s + [x]) == Mul(Product(s), x)
  {
    hide Xor, Mul;
    if s == [] {
      assert Product([x]) == Mul(x, Product([]));
      MulComm(x, ONE);
      assert s + [x] == [x];
    } else {
      assert (s + [x])[1..] == s[1..] + [x];
      ProductAppend(s[1..], x);
      MulAssoc(s[0], Product(s[1..]), x);
    }
  }

  lemma {:induction false} SumAppend(s: seq<Gf>, x: Gf)
    ensures Sum(s + [x]) == Xor(Sum(s), x)
  {
    hide Xor, Mul;
    if s == [] {
      assert Sum([x]) == Xor(x, Sum([]));
      XorUnits(x, ZERO);
      assert s + [x] == [x];
    } else {
      assert (s + [x])[1..] == s[1..] + [x];
      SumAppend(s[1..], x);
      XorAssoc(s[0], Sum(s[1..]), x);
    }
  }

  /** The weighted sum of one byte position. */
  method Weighted(ys: seq<Gf>, ghost xs: seq<Gf>, lambdas: seq<Gf>) returns (acc: Gf)
    requires |ys| == |xs| == |lambdas|
    requires forall i :: 0 <= i < |xs| ==> lambdas[i] == Lambda(xs, i)
    ensures acc == AtZero(xs, ys)
  {
    hide Xor, Mul, Lambda;
    acc := ZERO;
    for i := 0 to |ys|
      invariant acc == Sum(Terms(xs, ys)[..i])
    {
      var t := GfMul(ys[i], lambdas[i]);
      assert Terms(xs, ys)[..i + 1] == Terms(xs, ys)[..i] + [t];
      SumAppend(Terms(xs, ys)[..i], t);
      acc := Xor(acc, t);
    }
    assert Terms(xs, ys)[..|ys|] == Terms(xs, ys);
  }
}
