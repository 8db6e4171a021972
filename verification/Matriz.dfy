/** The matrix carrier of `src/lab/papel.rs`: a bit for each square module of points. */
module Matriz {
  import opened Arithmetic
  import opened Base32
  import opened Lienzo
  import opened Padme
  import opened Results

  /** What each square of a grid shows. */
  type Puntos = (nat, nat) -> bool

  /** The square a coordinate falls in. */
  function Cell(x: nat, e: nat): nat
    requires e > 0
  {
    x / e
  }

  /** The sheet shows the grid, in squares of side `e`. */
  ghost predicate Shows(h: Hoja, e: nat, d: Puntos)
    requires h.Valid()
  {
    e > 0 && forall x: nat, y: nat :: h.Tinta(x, y) == (x < h.ancho && y < h.alto && d(Cell(x, e), Cell(y, e)))
  }

  /** The grid `d` with one square changed. */
  ghost predicate Changed(d: Puntos, d': Puntos, X: nat, Y: nat, t: bool)
  {
    forall X': nat, Y': nat :: d'(X', Y') == if X' == X && Y' == Y then t else d(X', Y')
  }

  lemma SquareOf(x: nat, X: nat, e: nat)
    requires e > 0
    ensures X * e <= x < X * e + e <==> Cell(x, e) == X
  {
    if X * e <= x < X * e + e {
      DivUnique(x, e, X, x - X * e);
    }
    DivMod(x, e);
  }

  lemma PaintShows(h: Hoja, h': Hoja, X: nat, Y: nat, e: nat, t: bool, d: Puntos, d': Puntos)
    requires h.Valid() && h'.Valid() && Painted(h, h', X, Y, e, t) && Shows(h, e, d) && Changed(d, d', X, Y, t)
    ensures Shows(h', e, d')
  {
    hide Hoja.Tinta, Hoja.Valid, Cell;
    forall x: nat, y: nat
      ensures h'.Tinta(x, y) == (x < h'.ancho && y < h'.alto && d'(Cell(x, e), Cell(y, e)))
    {
      SquareOf(x, X, e);
      SquareOf(y, Y, e);
    }
  }

  lemma ShowsUniform(h: Hoja, e: nat, d: Puntos, X: nat, Y: nat)
    requires h.Valid() && Shows(h, e, d)
    requires X * e >= 0 && Y * e >= 0 && X * e + e <= h.ancho && Y * e + e <= h.alto
    ensures Uniform(h, X * e, Y * e, e, e, d(X, Y))
  {
    hide Hoja.Tinta, Hoja.Valid;
    forall x: nat, y: nat | X * e <= x < X * e + e && Y * e <= y < Y * e + e
      ensures h.Tinta(x, y) == d(X, Y)
    {
      SquareOf(x, X, e);
      SquareOf(y, Y, e);
    }
  }

  lemma InTheSheet(X: nat, e: nat, total: nat)
    requires e > 0 && X < total / e
    ensures 0 <= X * e && X * e + e <= total
  {
    DivMod(total, e);
    var q := total / e;
    assert e * q == X * e + e + e * (q - X - 1);
  }

  // -------------------------------------------------------------------- bits

  /** `(v >> k) & 1 == 1`. */
  predicate Bit(v: nat, k: nat) { Shr(v, k) % 2 == 1 }

  lemma {:induction false} BitAt(v: nat, w: nat, k: nat)
    requires k < w
    ensures BitsOf(v, w)[k] == Bit(v, w - 1 - k)
    decreases w
  {
    if k < w - 1 {
      BitAt(v / 2, w - 1, k);
    }
  }

  lemma {:induction false} FlatAt(s: seq<nat>, i: nat)
    requires i < 8 * |s|
    ensures Flat(s, 8)[i] == Bit(s[i / 8], 7 - i % 8)
  {
    hide Bit, BitsOf;
    var n := |s| - 1;
    assert Flat(s, 8) == Flat(s[..n], 8) + BitsOf(s[n], 8);
    if i < 8 * n {
      FlatAt(s[..n], i);
    } else {
      BitAt(s[n], 8, i - 8 * n);
    }
  }

  /** The byte of eight bits, each set in its place. */
  method AByte(bits: seq<bool>) returns (a: byte)
    requires |bits| == 8
    ensures BitsOf(a, 8) == bits
  {
    hide BitsOf, Raised, Pow2;
    Sixteen();
    var v, high: nat := 0, 0;
    EmptyBits();
    RaisedZero(8);
    for k := 0 to 8
      invariant v == Raised(high, 8 - k, 0) && high < Pow2(k)
      invariant BitsOf(high, k) == bits[..k]
    {
      OneMore(high, k, bits[k]);
      v := v + if bits[k] then Pow2(7 - k) else 0;
      high := 2 * high + if bits[k] then 1 else 0;
      assert bits[..k + 1] == bits[..k] + [bits[k]];
    }
    RaisedNone(high);
    a := v;
    assert bits[..8] == bits;
  }

  lemma RaisedZero(w: nat)
    ensures Raised(0, w, 0) == 0
  {
    hide Pow2;
  }

  lemma RaisedNone(v: nat)
    ensures Raised(v, 0, 0) == v
  {
  }

  lemma OneMore(high: nat, k: nat, b: bool)
    requires k < 8
    ensures var more := 2 * high + if b then 1 else 0;
      && Raised(high, 8 - k, 0) + (if b then Pow2(7 - k) else 0) == Raised(more, 7 - k, 0)
      && BitsOf(more, k + 1) == BitsOf(high, k) + [b]
      && (high < Pow2(k) ==> more < Pow2(k + 1))
  {
    var p := Pow2(7 - k);
    DoubleProduct(high, p);
    assert Pow2(8 - k) == 2 * p;
    hide Pow2, BitsOf;
    OneMoreBit(high, k, b);
    TwicePlus(high, p);
  }

  lemma OneMoreBit(high: nat, k: nat, b: bool)
    ensures var more := 2 * high + if b then 1 else 0;
      BitsOf(more, k + 1) == BitsOf(high, k) + [b] && (high < Pow2(k) ==> more < Pow2(k + 1))
  {
  }

  lemma TwicePlus(x: int, p: int)
    ensures (2 * x) * p == 2 * (x * p)
    ensures (2 * x + 1) * p == 2 * (x * p) + p
  {
  }

  /** Bytes to bits and back, eight at a time. */
  method ABytes(bits: seq<bool>) returns (out: seq<byte>)
    requires |bits| % 8 == 0
    ensures Flat(out, 8) == bits
  {
    hide Flat;
    out := [];
    EmptyBits();
    while 8 * |out| < |bits|
      invariant 8 * |out| <= |bits|
      invariant Flat(out, 8) == bits[..8 * |out|]
      decreases |bits| - 8 * |out|
    {
      var i := 8 * |out|;
      var a := AByte(bits[i..i + 8]);
      FlatLast(out, a, 8);
      out := out + [a];
      assert bits[..i + 8] == bits[..i] + bits[i..i + 8];
    }
    assert bits[..|bits|] == bits;
  }

  // ----------------------------------------------------------------- the carrier

  function Punto(bits: seq<bool>, mx: nat, X: nat, Y: nat): bool
  {
    CellIsNat(X, Y, mx);
    X < mx && Y * mx + X < |bits| && bits[Y * mx + X]
  }

  lemma CellIsNat(X: nat, Y: nat, mx: nat)
    ensures Y * mx + X >= 0
  {
  }

  /** The grid that shows these bits, `mx` to a row. */
  function Rejilla(bits: seq<bool>, mx: nat): Puntos { (X: nat, Y: nat) => Punto(bits, mx, X, Y) }

  lemma CellOf(i: nat, mx: nat, X: nat, Y: nat)
    requires mx > 0 && X < mx
    ensures Y * mx + X == i <==> X == i % mx && Y == i / mx
  {
    if Y * mx + X == i {
      DivUnique(i, mx, Y, X);
    }
    DivMod(i, mx);
  }

  lemma OneBitMore(bits: seq<bool>, mx: nat, i: nat)
    requires mx > 0 && i < |bits|
    ensures i / mx >= 0 && Changed(Rejilla(bits[..i], mx), Rejilla(bits[..i + 1], mx), i % mx, i / mx, bits[i])
  {
    DivMod(i, mx);
    CellIsNat(0, i / mx, mx);
    forall X: nat, Y: nat
      ensures Punto(bits[..i + 1], mx, X, Y)
        == if X == i % mx && Y == i / mx then bits[i] else Punto(bits[..i], mx, X, Y)
    {
      CellIsNat(X, Y, mx);
      if X < mx {
        CellOf(i, mx, X, Y);
      }
    }
  }

  /** What the reader makes of module `i`. */
  function VotoDe(h: Hoja, lado: nat, mx: nat, i: nat): bool
    requires h.Valid() && mx > 0
  {
    DivMod(i, mx);
    Voto(h, i % mx, i / mx, lado)
  }

  function Votos(h: Hoja, lado: nat, mx: nat, n: nat): (b: seq<bool>)
    requires h.Valid() && (n > 0 ==> mx > 0)
    ensures |b| == n
  {
    seq(n, i requires 0 <= i < n => VotoDe(h, lado, mx, i))
  }

  /** Square modules of `lado` points to a side. */
  datatype Matriz = Matriz(lado: nat)
  {
    function Columnas(ancho: nat): nat
      requires lado > 0
    {
      Cell(ancho, lado)
    }

    function CapacidadBytes(ancho: nat, alto: nat): nat
      requires lado > 0
    {
      ProductIsNat(Cell(ancho, lado), Cell(alto, lado));
      Cell(ancho, lado) * Cell(alto, lado) / 8
    }

    method Imprimir(datos: seq<byte>, ancho: nat, alto: nat) returns (hoja: Lienzo)
      requires lado > 0 && (datos != [] ==> Columnas(ancho) > 0)
      ensures fresh(hoja) && fresh(hoja.px) && hoja.Valid() && hoja.ancho == ancho && hoja.alto == alto
      ensures Shows(hoja.Copia(), lado, Rejilla(Flat(datos, 8), Columnas(ancho)))
    {
      hide Shows, Rejilla, Flat, Painted, Changed, Cell, Bit, Lienzo.Copia, Hoja.Valid;
      hoja := new Lienzo.Nuevo(ancho, alto);
      var mx := Cell(ancho, lado);
      ghost var bits := Flat(datos, 8);
      ShowsNothing(hoja.Copia(), lado, bits, mx);
      for i := 0 to 8 * |datos|
        invariant hoja.Valid() && fresh(hoja.px)
        invariant Shows(hoja.Copia(), lado, Rejilla(bits[..i], mx))
      {
        DivMod(i, mx);
        var bit := Bit(datos[i / 8], 7 - i % 8);
        FlatAt(datos, i);
        ghost var before := hoja.Copia();
        PintarPunto(hoja, i % mx, i / mx, lado, bit);
        OneBitMore(bits, mx, i);
        PaintShows(before, hoja.Copia(), i % mx, i / mx, lado, bit, Rejilla(bits[..i], mx), Rejilla(bits[..i + 1], mx));
      }
      assert bits[..8 * |datos|] == bits;
    }

    /** The bytes that the votes of the modules make. */
    method Leer(hoja: Lienzo, cuantos: nat) returns (out: seq<byte>)
      requires hoja.Valid() && lado > 0 && (cuantos > 0 ==> Columnas(hoja.ancho) > 0)
      ensures |out| == cuantos && Flat(out, 8) == Votos(hoja.Copia(), lado, Columnas(hoja.ancho), 8 * cuantos)
    {
      hide Flat, Cell, VotoDe, Lienzo.Copia, Hoja.Valid;
      var mx := Cell(hoja.ancho, lado);
      var bits: seq<bool> := [];
      for i := 0 to cuantos * 8
        invariant |bits| == i
        invariant forall j :: 0 <= j < i ==> bits[j] == VotoDe(hoja.Copia(), lado, mx, j)
      {
        DivMod(i, mx);
        var negro := LeerPunto(hoja, i % mx, i / mx, lado);
        VotoIs(hoja.Copia(), lado, mx, i);
        bits := bits + [negro];
      }
      assert bits == Votos(hoja.Copia(), lado, mx, 8 * cuantos);
      out := ABytes(bits);
    }
  }

  lemma VotoIs(h: Hoja, lado: nat, mx: nat, i: nat)
    requires h.Valid() && mx > 0
    ensures i % mx >= 0 && i / mx >= 0 && VotoDe(h, lado, mx, i) == Voto(h, i % mx, i / mx, lado)
  {
    DivMod(i, mx);
  }

  lemma ShowsNothing(h: Hoja, e: nat, bits: seq<bool>, mx: nat)
    requires h.Valid() && Blanca(h) && e > 0
    ensures Shows(h, e, Rejilla(bits[..0], mx))
  {
    hide Hoja.Tinta, Hoja.Valid, Cell;
  }

  // ------------------------------------------------------------------- theorems

  /** Points of module `i` that differ between what was printed and what is read. */
  function InvertedOf(h: Hoja, g: Hoja, lado: nat, mx: nat, i: nat): nat
    requires h.Valid() && g.Valid() && mx > 0
  {
    DivMod(i, mx);
    InvertedIn(h, g, i % mx, i / mx, lado)
  }

  /** The damage that a module of this colour stands. */
  predicate Stands(t: bool, inverted: nat, lado: nat)
  {
    if t then 2 * inverted < lado * lado else 2 * inverted <= lado * lado
  }

  lemma ModuleInSheet(i: nat, mx: nat, my: nat)
    requires mx > 0 && i < mx * my
    ensures i % mx < mx && i / mx < my
  {
    DivMod(i, mx);
    QuotientBelow(i, mx, my);
  }

  lemma QuotientBelow(i: nat, mx: nat, my: nat)
    requires mx > 0 && i < mx * my
    ensures i / mx < my
  {
    var q := i / mx;
    DivMod(i, mx);
    Distribute(mx, my, q - my);
    MulAway(mx, q - my);
  }

  lemma ModuleReads(m: Matriz, h: Hoja, g: Hoja, bits: seq<bool>, i: nat)
    requires m.lado > 0 && h.Valid() && g.Valid()
    requires m.Columnas(h.ancho) > 0 && i < |bits| <= m.Columnas(h.ancho) * Cell(h.alto, m.lado)
    requires Shows(h, m.lado, Rejilla(bits, m.Columnas(h.ancho)))
    ensures var mx := m.Columnas(h.ancho);
      VotoDe(g, m.lado, mx, i) == bits[i] <==> Stands(bits[i], InvertedOf(h, g, m.lado, mx, i), m.lado)
  {
    var e, mx, my := m.lado, m.Columnas(h.ancho), Cell(h.alto, m.lado);
    DivMod(i, mx);
    var X, Y := i % mx, i / mx;
    ModuleInSheet(i, mx, my);
    InTheSheet(X, e, h.ancho);
    InTheSheet(Y, e, h.alto);
    ShowsUniform(h, e, Rejilla(bits, mx), X, Y);
    CellOf(i, mx, X, Y);
    assert Rejilla(bits, mx)(X, Y) == bits[i];
    DamagedSquare(h, g, X, Y, e, bits[i]);
  }

  /** Reading a damaged sheet gives back the data if and only if in every module written less than half of the
   *  points were inverted, or exactly half of a blank one.
   */
  lemma ReadsExactly(m: Matriz, datos: seq<byte>, h: Hoja, g: Hoja, out: seq<byte>)
    requires m.lado > 0 && h.Valid() && g.Valid() && g.ancho == h.ancho && g.alto == h.alto
    requires |datos| <= m.CapacidadBytes(h.ancho, h.alto) && (datos != [] ==> m.Columnas(h.ancho) > 0)
    requires Shows(h, m.lado, Rejilla(Flat(datos, 8), m.Columnas(h.ancho)))
    requires |out| == |datos| && Flat(out, 8) == Votos(g, m.lado, m.Columnas(h.ancho), 8 * |datos|)
    ensures out == datos <==> forall i :: 0 <= i < 8 * |datos| ==>
      Stands(Flat(datos, 8)[i], InvertedOf(h, g, m.lado, m.Columnas(h.ancho), i), m.lado)
  {
    var bits, mx := Flat(datos, 8), m.Columnas(h.ancho);
    CapacityHolds(m, h.ancho, h.alto, |datos|);
    hide Flat, Stands, VotoDe, InvertedOf, Shows, Rejilla, Cell, Hoja.Valid;
    forall i | 0 <= i < 8 * |datos|
      ensures VotoDe(g, m.lado, mx, i) == bits[i] <==> Stands(bits[i], InvertedOf(h, g, m.lado, mx, i), m.lado)
    {
      ModuleReads(m, h, g, bits, i);
    }
    var votos := Votos(g, m.lado, mx, 8 * |datos|);
    assert forall i :: 0 <= i < 8 * |datos| ==> votos[i] == VotoDe(g, m.lado, mx, i);
    if forall i :: 0 <= i < 8 * |datos| ==> votos[i] == bits[i] {
      assert votos == bits;
      SameBytes(out, datos);
    }
  }

  lemma SameBytes(s: seq<byte>, t: seq<byte>)
    requires |s| == |t| && Flat(s, 8) == Flat(t, 8)
    ensures s == t
  {
    Sixteen();
    BytesBelow(s);
    BytesBelow(t);
    hide Flat, Pow2;
    FlatInjective(s, t, 8);
  }

  lemma CapacityHolds(m: Matriz, ancho: nat, alto: nat, n: nat)
    requires m.lado > 0 && n <= m.CapacidadBytes(ancho, alto)
    ensures 8 * n <= m.Columnas(ancho) * Cell(alto, m.lado)
  {
  }

  /** In particular a clean print reads back, and so does one with fewer than half of the points of each
   *  module inverted.
   */
  lemma CleanReads(m: Matriz, datos: seq<byte>, h: Hoja, out: seq<byte>)
    requires m.lado > 0 && h.Valid()
    requires |datos| <= m.CapacidadBytes(h.ancho, h.alto) && (datos != [] ==> m.Columnas(h.ancho) > 0)
    requires Shows(h, m.lado, Rejilla(Flat(datos, 8), m.Columnas(h.ancho)))
    requires |out| == |datos| && Flat(out, 8) == Votos(h, m.lado, m.Columnas(h.ancho), 8 * |datos|)
    ensures out == datos
  {
    hide Flat, Votos, Shows, Rejilla, Cell, Hoja.Valid, Matriz.CapacidadBytes;
    ReadsExactly(m, datos, h, h, out);
    Square(m.lado);
    forall i | 0 <= i < 8 * |datos|
      ensures Stands(Flat(datos, 8)[i], InvertedOf(h, h, m.lado, m.Columnas(h.ancho), i), m.lado)
    {
      var mx := m.Columnas(h.ancho);
      DivMod(i, mx);
      Corner(i % mx, i / mx, m.lado);
      NothingInverted(h, i % mx * m.lado, i / mx * m.lado, m.lado, m.lado);
    }
  }

  lemma Square(n: nat)
    requires n > 0
    ensures n * n > 0
  {
  }

  lemma {:induction false} NothingInverted(h: Hoja, x: nat, y: nat, w: nat, rows: nat)
    requires h.Valid()
    ensures Inverted(h, h, x, y, w, rows) == 0
  {
    if rows > 0 {
      NothingInverted(h, x, y, w, rows - 1);
      NothingInvertedInRow(h, x, y + rows - 1, w);
    }
  }

  lemma {:induction false} NothingInvertedInRow(h: Hoja, x: nat, y: nat, n: nat)
    requires h.Valid()
    ensures InvertedInRow(h, h, x, y, n) == 0
  {
    if n > 0 {
      NothingInvertedInRow(h, x, y, n - 1);
    }
  }
}
