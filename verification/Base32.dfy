/** Unpadded Base32 packing of `src/lab/papel.rs`, whose 16-bit accumulator is never masked, against bits:
 *  section 6 of RFC 4648 without the alphabet and without the padding characters.
 */
module Base32 {
  import opened Arithmetic
  import opened Results
  import opened Padme

  /** A symbol of five bits. */
  type quinary = x: int | 0 <= x < 32

  // ------------------------------------------------------------------------ bits

  /** The low `w` bits of `v`, most significant first. */
  function BitsOf(v: nat, w: nat): (b: seq<bool>)
    ensures |b| == w
    decreases w
  {
    if w == 0 then [] else BitsOf(v / 2, w - 1) + [v % 2 == 1]
  }

  /** The bits of a list of numbers of `w` bits each. */
  function Flat(s: seq<nat>, w: nat): (b: seq<bool>)
    ensures |b| == w * |s|
  {
    if s == [] then []
    else
      MulNext(w, |s|);
      Flat(s[..|s| - 1], w) + BitsOf(s[|s| - 1], w)
  }

  lemma {:induction false} BitsInjective(u: nat, v: nat, w: nat)
    requires u < Pow2(w) && v < Pow2(w) && BitsOf(u, w) == BitsOf(v, w)
    ensures u == v
    decreases w
  {
    if w > 0 {
      var a, b := BitsOf(u, w), BitsOf(v, w);
      assert a[..w - 1] == BitsOf(u / 2, w - 1) && b[..w - 1] == BitsOf(v / 2, w - 1);
      assert a[w - 1] == b[w - 1];
      BitsInjective(u / 2, v / 2, w - 1);
    }
  }

  function Raised(x: nat, w: nat, v: nat): nat { x * Pow2(w) + v }

  /** Shifting `v` in below. */
  lemma {:induction false} BitsAppend(x: nat, n: nat, v: nat, w: nat)
    requires v < Pow2(w)
    ensures BitsOf(Raised(x, w, v), n + w) == BitsOf(x, n) + BitsOf(v, w)
    decreases w
  {
    if w > 0 {
      var p := Pow2(w - 1);
      DoubleProduct(x, p);
      assert (2 * (x * p) + v) / 2 == x * p + v / 2 && (2 * (x * p) + v) % 2 == v % 2;
      BitsAppend(x, n, v / 2, w - 1);
    }
  }

  lemma DoubleProduct(x: int, p: int)
    ensures x * (2 * p) == 2 * (x * p)
  {
  }

  /** The low bits of the low bits. */
  lemma {:induction false} BitsLow(x: nat, n: nat, w: nat)
    ensures BitsOf(x, w + n)[w..] == BitsOf(x, n)
    decreases n
  {
    if n > 0 {
      BitsLow(x / 2, n - 1, w);
    }
  }

  /** Truncation to `m` bits keeps the lower ones. */
  lemma {:induction false} BitsTruncate(x: nat, m: nat, n: nat)
    requires n <= m
    ensures BitsOf(x % Pow2(m), n) == BitsOf(x, n)
    decreases n
  {
    if n > 0 {
      HalfOfRemainder(x, Pow2(m - 1));
      BitsTruncate(x / 2, m - 1, n - 1);
    }
  }

  lemma HalfOfRemainder(x: nat, p: nat)
    requires p > 0
    ensures (x % (2 * p)) / 2 == (x / 2) % p
    ensures (x % (2 * p)) % 2 == x % 2
  {
    var k, r := x / (2 * p), x % (2 * p);
    DivMod(x, 2 * p);
    MulAssociates(2, p, k);
    assert x == 2 * (p * k) + r;
    assert x / 2 == p * k + r / 2;
    DivUnique(x / 2, p, k, r / 2);
  }

  function Shr(x: nat, s: nat): nat { if s == 0 then x else Shr(x / 2, s - 1) }

  /** Shifting to the right. */
  lemma {:induction false} BitsShifted(x: nat, s: nat, n: nat)
    ensures BitsOf(Shr(x, s), n) == BitsOf(x, n + s)[..n]
    decreases s
  {
    if s > 0 {
      BitsShifted(x / 2, s - 1, n);
      assert BitsOf(x, n + s)[..n + s - 1] == BitsOf(x / 2, n + s - 1);
    }
  }

  lemma {:induction false} BitsOfZero(n: nat)
    ensures BitsOf(0, n) == ZeroBits(n)
    ensures Pow2(n) > 0
  {
    if n > 0 {
      BitsOfZero(n - 1);
    }
  }

  function ZeroBits(n: nat): seq<bool> { seq(n, _ => false) }

  predicate Below(s: seq<nat>, p: nat) { forall i :: 0 <= i < |s| ==> s[i] < p }

  lemma FlatLast(s: seq<nat>, x: nat, w: nat)
    ensures Flat(s + [x], w) == Flat(s, w) + BitsOf(x, w)
  {
    assert (s + [x])[..|s|] == s;
  }

  /** Numbers of `w` bits are read off their bits, as far as those go. */
  lemma {:induction false} FlatInjective(s: seq<nat>, t: seq<nat>, w: nat)
    requires |s| == |t| && Below(s, Pow2(w)) && Below(t, Pow2(w)) && Flat(s, w) == Flat(t, w)
    ensures s == t
  {
    if s != [] {
      var n := |s| - 1;
      BelowLast(s, Pow2(w));
      BelowLast(t, Pow2(w));
      hide *;
      LastSplit(s, w);
      LastSplit(t, w);
      SplitSum(Flat(s[..n], w), BitsOf(s[n], w), Flat(t[..n], w), BitsOf(t[n], w));
      BitsInjective(s[n], t[n], w);
      FlatInjective(s[..n], t[..n], w);
      assert s == s[..n] + [s[n]] && t == t[..n] + [t[n]];
    }
  }

  lemma BelowLast(s: seq<nat>, p: nat)
    requires Below(s, p) && s != []
    ensures Below(s[..|s| - 1], p) && s[|s| - 1] < p
  {
  }

  lemma LastSplit(s: seq<nat>, w: nat)
    requires s != []
    ensures Flat(s, w) == Flat(s[..|s| - 1], w) + BitsOf(s[|s| - 1], w)
  {
  }

  lemma SplitSum(a: seq<bool>, b: seq<bool>, c: seq<bool>, d: seq<bool>)
    requires |a| == |c| && a + b == c + d
    ensures a == c && b == d
  {
    assert a == (a + b)[..|a|] && b == (a + b)[|a|..];
    assert c == (c + d)[..|c|] && d == (c + d)[|c|..];
  }

  // ------------------------------------------------------------ the accumulator

  /** `(acc << w) | v` in sixteen bits: `v` falls where the shift left zeros. */
  function Shifted(acc: u16, w: nat, v: nat): (r: u16)
  {
    Raised(acc, w, v) % 0x1_0000
  }

  /** `(acc >> s) & mask`, for a mask of `w` ones. */
  function Taken(acc: nat, s: nat, w: nat): (r: nat)
    ensures r < Pow2(w)
  {
    Shr(acc, s) % Pow2(w)
  }

  lemma Sixteen()
    ensures Pow2(5) == 32 && Pow2(8) == 256 && Pow2(16) == 0x1_0000
  {
    assert Pow2(4) == 16;
    Pow2Add(4, 4);
    Pow2Add(8, 8);
  }

  /** Pushing `w` more bits: what falls off the top of the accumulator was written already. */
  lemma Push(acc: u16, bits: nat, w: nat, v: nat)
    requires bits + w <= 16 && v < Pow2(w)
    ensures BitsOf(Shifted(acc, w, v), bits + w) == BitsOf(acc, bits) + BitsOf(v, w)
  {
    hide BitsOf, Pow2, Raised;
    BitsSixteen(Raised(acc, w, v), bits + w);
    BitsAppend(acc, bits, v, w);
  }

  lemma BitsSixteen(x: nat, n: nat)
    requires n <= 16
    ensures BitsOf(x % 0x1_0000, n) == BitsOf(x, n)
  {
    Sixteen();
    BitsTruncate(x, 16, n);
    hide BitsOf, Pow2;
  }

  /** Taking the `w` highest of the bits left. */
  lemma Pop(acc: nat, bits: nat, w: nat)
    requires w <= bits
    ensures BitsOf(acc, bits) == BitsOf(Taken(acc, bits - w, w), w) + BitsOf(acc, bits - w)
  {
    var s := bits - w;
    BitsTruncate(Shr(acc, s), w, w);
    BitsShifted(acc, s, w);
    BitsLow(acc, s, w);
    hide BitsOf, Pow2, Shr;
  }

  // ------------------------------------------------------------------- packing

  /** The symbols hold the bits of the data in order, and then zeros up to a whole symbol. */
  ghost predicate Packs(datos: seq<byte>, out: seq<quinary>)
  {
    && |out| == (8 * |datos| + 4) / 5
    && Flat(out, 5) == Flat(datos, 8) + ZeroBits(5 * |out| - 8 * |datos|)
  }

  lemma PacksUnique(datos: seq<byte>, s: seq<quinary>, t: seq<quinary>)
    requires Packs(datos, s) && Packs(datos, t)
    ensures s == t
  {
    Sixteen();
    FlatInjective(s, t, 5);
  }

  method ABase32(datos: seq<byte>) returns (out: seq<quinary>)
    ensures Packs(datos, out)
  {
    hide Flat, BitsOf, Shifted, Taken, Pow2;
    Sixteen();
    out := [];
    var acc: u16, bits: nat := 0, 0;
    EmptyBits();
    for i := 0 to |datos|
      invariant bits < 5
      invariant Flat(out, 5) + BitsOf(acc, bits) == Flat(datos[..i], 8)
    {
      var b := datos[i];
      ghost var pending := BitsOf(acc, bits);
      Push(acc, bits, 8, b);
      FlatLast(datos[..i], b, 8);
      assert datos[..i + 1] == datos[..i] + [b];
      acc := Shifted(acc, 8, b);
      bits := bits + 8;
      assert Flat(out, 5) + BitsOf(acc, bits) == Flat(datos[..i + 1], 8);
      while bits >= 5
        invariant bits <= 16
        invariant Flat(out, 5) + BitsOf(acc, bits) == Flat(datos[..i + 1], 8)
      {
        var s := Taken(acc, bits - 5, 5);
        Pop(acc, bits, 5);
        FlatLast(out, s, 5);
        out := out + [s];
        bits := bits - 5;
      }
    }
    assert datos[..|datos|] == datos;
    if bits > 0 {
      var s := Taken(Shifted(acc, 5 - bits, 0), 0, 5);
      LastSymbol(acc, bits);
      FlatLast(out, s, 5);
      out := out + [s];
    } else {
      assert Flat(out, 5) == Flat(datos, 8) + ZeroBits(0);
    }
  }

  lemma EmptyBits()
    ensures BitsOf(0, 0) == [] && forall w :: Flat([], w) == []
  {
  }

  /** `(acc << (5 - bits)) & 0x1f`. */
  lemma LastSymbol(acc: u16, bits: nat)
    requires 0 < bits < 5
    ensures BitsOf(Taken(Shifted(acc, 5 - bits, 0), 0, 5), 5) == BitsOf(acc, bits) + ZeroBits(5 - bits)
  {
    BitsOfZero(5 - bits);
    Push(acc, bits, 5 - bits, 0);
    var x := Shifted(acc, 5 - bits, 0);
    BitsTruncate(x, 5, 5);
    assert Shr(x, 0) == x;
    hide Shifted, BitsOf, Pow2, Shr;
  }

  // ----------------------------------------------------------------- unpacking

  /** As many of the bytes asked for as the symbols hold whole. */
  function Whole(simbolos: seq<quinary>, cuantos: nat): nat
  {
    if 5 * |simbolos| / 8 < cuantos then 5 * |simbolos| / 8 else cuantos
  }

  /** Exactly `cuantos` bytes: those that the symbols hold, and zeros for the rest. */
  ghost predicate Unpacks(simbolos: seq<quinary>, cuantos: nat, out: seq<byte>)
  {
    && |out| == cuantos
    && var w := Whole(simbolos, cuantos);
       && Flat(out[..w], 8) == Flat(simbolos, 5)[..8 * w]
       && forall j :: w <= j < cuantos ==> out[j] == 0
  }

  method DeBase32(simbolos: seq<quinary>, cuantos: nat) returns (out: seq<byte>)
    ensures Unpacks(simbolos, cuantos, out)
  {
    hide Flat, BitsOf, Shifted, Taken, Pow2;
    Sixteen();
    out := [];
    var acc: u16, bits: nat := 0, 0;
    EmptyBits();
    var i := 0;
    while i < |simbolos| && !(0 < cuantos == |out|)
      invariant i <= |simbolos| && bits < 8
      invariant Flat(out, 8) + BitsOf(acc, bits) == Flat(simbolos[..i], 5)
      invariant cuantos > 0 ==> |out| <= cuantos
    {
      var s := simbolos[i];
      Push(acc, bits, 5, s);
      FlatLast(simbolos[..i], s, 5);
      assert simbolos[..i + 1] == simbolos[..i] + [s];
      acc := Shifted(acc, 5, s);
      bits := bits + 5;
      assert Flat(out, 8) + BitsOf(acc, bits) == Flat(simbolos[..i + 1], 5);
      if bits >= 8 {
        var b := Taken(acc, bits - 8, 8);
        Pop(acc, bits, 8);
        FlatLast(out, b, 8);
        out := out + [b];
        bits := bits - 8;
      }
      i := i + 1;
    }
    UnpackedSoFar(simbolos, i, out, BitsOf(acc, bits), |out|);
    ghost var w := Whole(simbolos, cuantos);
    UnpackedSoFar(simbolos, i, out, BitsOf(acc, bits), w);
    if |out| > cuantos {
      out := out[..cuantos];
    }
    while |out| < cuantos
      invariant w <= |out| <= cuantos
      invariant Flat(out[..w], 8) == Flat(simbolos, 5)[..8 * w]
      invariant forall j :: w <= j < |out| ==> out[j] == 0
    {
      assert (out + [0])[..w] == out[..w];
      out := out + [0];
    }
  }

  /** Bits already consumed are bits of the whole. */
  lemma UnpackedSoFar(simbolos: seq<quinary>, i: nat, out: seq<byte>, rest: seq<bool>, w: nat)
    requires i <= |simbolos| && Flat(out, 8) + rest == Flat(simbolos[..i], 5) && w <= |out|
    ensures 8 * w <= 5 * |simbolos| && Flat(out[..w], 8) == Flat(simbolos, 5)[..8 * w]
  {
    FlatPrefix(simbolos, i, 5);
    FlatPrefix(out, w, 8);
    hide Flat;
    assert |Flat(simbolos[..i], 5)| == 5 * i == 8 * |out| + |rest|;
    PrefixOfPrefix(Flat(out, 8), rest, Flat(simbolos[..i], 5), Flat(simbolos, 5), 8 * w);
  }

  lemma PrefixOfPrefix(a: seq<bool>, rest: seq<bool>, taken: seq<bool>, all: seq<bool>, k: nat)
    requires a + rest == taken && |taken| <= |all| && taken == all[..|taken|] && k <= |a|
    ensures a[..k] == all[..k]
  {
    assert a[..k] == taken[..k];
  }

  lemma {:induction false} FlatPrefix(s: seq<nat>, k: nat, w: nat)
    requires k <= |s|
    ensures w * k <= w * |s| && Flat(s[..k], w) == Flat(s, w)[..w * k]
    decreases |s|
  {
    if k == |s| {
      assert s[..k] == s;
    } else {
      var n := |s| - 1;
      FlatPrefix(s[..n], k, w);
      assert s[..n][..k] == s[..k];
      MulNext(w, |s|);
    }
  }

  /** Unpacking undoes packing, even with one symbol more than was written, as the reader of a sheet takes. */
  lemma UnpackPacked(datos: seq<byte>, simbolos: seq<quinary>, read: seq<quinary>, out: seq<byte>)
    requires Packs(datos, simbolos) && simbolos <= read && Unpacks(read, |datos|, out)
    ensures out == datos
  {
    EnoughSymbols(datos, simbolos, read);
    FlatOfRead(datos, simbolos, read, out);
    Sixteen();
    hide *;
    SamePrefix(Flat(out, 8), Flat(read, 5), Flat(simbolos, 5), Flat(datos, 8));
    BytesBelow(out);
    BytesBelow(datos);
    FlatInjective(out, datos, 8);
  }

  lemma EnoughSymbols(datos: seq<byte>, simbolos: seq<quinary>, read: seq<quinary>)
    requires Packs(datos, simbolos) && |simbolos| <= |read|
    ensures Whole(read, |datos|) == |datos| && 8 * |datos| <= 5 * |simbolos|
    ensures Flat(simbolos, 5)[..8 * |datos|] == Flat(datos, 8)
  {
    hide Flat;
  }

  lemma FlatOfRead(datos: seq<byte>, simbolos: seq<quinary>, read: seq<quinary>, out: seq<byte>)
    requires simbolos <= read && Whole(read, |datos|) == |datos| && Unpacks(read, |datos|, out)
    ensures |out| == |datos| && Flat(out, 8) == Flat(read, 5)[..8 * |datos|]
    ensures Flat(simbolos, 5) == Flat(read, 5)[..5 * |simbolos|] && |Flat(read, 5)| == 5 * |read|
    ensures |Flat(out, 8)| == 8 * |datos| == |Flat(datos, 8)| && |Flat(simbolos, 5)| == 5 * |simbolos|
  {
    hide Flat, BitsOf;
    assert out[..|datos|] == out && read[..|simbolos|] == simbolos;
    FlatPrefix(read, |simbolos|, 5);
  }

  lemma BytesBelow(s: seq<byte>)
    ensures Below(s, 256)
  {
  }

  lemma SamePrefix(a: seq<bool>, all: seq<bool>, some: seq<bool>, d: seq<bool>)
    requires |a| == |d| <= |some| <= |all|
    requires a == all[..|a|] && some == all[..|some|] && d == some[..|d|]
    ensures a == d
  {
  }
}
