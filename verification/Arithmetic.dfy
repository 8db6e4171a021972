/** Quotients and remainders by a variable divisor. */
module Arithmetic {

  lemma DivUnique(n: int, c: int, q: int, r: int)
    requires c > 0 && n == c * q + r && 0 <= r < c
    ensures n / c == q && n % c == r
  {
    var d := n / c;
    assert c * (d - q) == r - n % c;
    MulAway(c, d - q);
  }

  lemma MulAway(c: int, k: int)
    requires c > 0
    ensures k >= 1 ==> c * k >= c
    ensures k <= -1 ==> c * k <= -c
  {
  }

  lemma DivMod(n: int, c: int)
    requires c > 0
    ensures n == c * (n / c) + n % c
    ensures 0 <= n % c < c
    ensures n >= 0 ==> n / c >= 0
  {
    MulAway(c, n / c);
  }

  /** A remainder of something below twice the divisor. */
  lemma ModTwice(n: int, c: int)
    requires 0 <= n < 2 * c
    ensures n % c == if n < c then n else n - c
  {
    if n < c {
      DivUnique(n, c, 0, n);
    } else {
      DivUnique(n, c, 1, n - c);
    }
  }

  lemma ModShift(x: int, q: int, c: int)
    requires c > 0
    ensures (c * q + x) % c == x % c
    ensures (c * q + x) / c == q + x / c
  {
    DivMod(x, c);
    Distribute(c, q, x / c);
    DivUnique(c * q + x, c, q + x / c, x % c);
  }

  lemma Distribute(c: int, p: int, q: int)
    ensures c * (p + q) == c * p + c * q
  {
  }

  lemma SumTimes(x: int, y: int, e: int)
    ensures (x + y) * e == x * e + y * e
  {
  }

  lemma ProductIsNat(x: nat, y: nat)
    ensures x * y >= 0
  {
  }

  lemma MulNext(w: int, n: int)
    ensures w * n == w * (n - 1) + w
  {
  }
}
