/** The sheet of points of `src/lab/papel.rs`, painting and reading on it squares of points, and what a square
 *  tells after some of its points were inverted.
 */
module Lienzo {
  import opened Arithmetic

  /** A sheet as a value, row by row; `true` is ink. */
  datatype Hoja = Hoja(ancho: nat, alto: nat, px: seq<bool>)
  {
    ghost predicate Valid() { |px| == ancho * alto }

    /** Outside the sheet there is only paper. */
    function Tinta(x: nat, y: nat): bool
      requires Valid()
    {
      x < ancho && y < alto && (IndexInside(x, y, ancho, alto); px[y * ancho + x])
    }
  }

  lemma IndexInside(x: nat, y: nat, ancho: nat, alto: nat)
    requires x < ancho && y < alto
    ensures 0 <= y * ancho + x < ancho * alto
  {
    SumTimes(y, 1, ancho);
    SumTimes(y + 1, alto - y - 1, ancho);
    ProductIsNat(alto - y - 1, ancho);
    ProductIsNat(y, ancho);
  }

  lemma IndexUnique(x: nat, y: nat, x': nat, y': nat, ancho: nat)
    requires x < ancho && x' < ancho && y * ancho + x == y' * ancho + x'
    ensures x == x' && y == y'
  {
    DivUnique(y * ancho + x, ancho, y, x);
    DivUnique(y' * ancho + x', ancho, y', x');
  }

  class Lienzo {
    const ancho: nat
    const alto: nat
    const px: array<bool>

    ghost predicate Valid() { px.Length == ancho * alto }

    /** What is on the sheet now. */
    ghost function Copia(): (h: Hoja)
      reads px
      requires Valid()
      ensures h.Valid() && h.ancho == ancho && h.alto == alto
    {
      Hoja(ancho, alto, px[..])
    }

    constructor Nuevo(ancho: nat, alto: nat)
      ensures Valid() && fresh(px) && this.ancho == ancho && this.alto == alto
      ensures Blanca(Copia())
    {
      this.ancho := ancho;
      this.alto := alto;
      ProductIsNat(ancho, alto);
      px := new bool[ancho * alto](_ => false);
      new;
      hide Blanca;
      AllPaper(Copia());
    }

    method Poner(x: nat, y: nat, tinta: bool)
      requires Valid()
      modifies px
      ensures SetAt(old(Copia()), Copia(), x, y, tinta)
    {
      if x < ancho && y < alto {
        IndexInside(x, y, ancho, alto);
        px[y * ancho + x] := tinta;
        SetAtIndex(old(Copia()), Copia(), x, y, tinta);
      }
    }

    method Tinta(x: nat, y: nat) returns (b: bool)
      requires Valid()
      ensures b == Copia().Tinta(x, y)
    {
      if x < ancho && y < alto {
        IndexInside(x, y, ancho, alto);
        b := px[y * ancho + x];
      } else {
        b := false;
      }
    }
  }

  ghost predicate Blanca(h: Hoja)
    requires h.Valid()
  {
    forall x: nat, y: nat :: !h.Tinta(x, y)
  }

  lemma AllPaper(h: Hoja)
    requires h.Valid() && forall i :: 0 <= i < |h.px| ==> !h.px[i]
    ensures Blanca(h)
  {
    forall x: nat, y: nat
      ensures !h.Tinta(x, y)
    {
      if x < h.ancho && y < h.alto {
        IndexInside(x, y, h.ancho, h.alto);
      }
    }
  }

  /** One point set, if it is on the sheet, and no other changed. */
  ghost predicate SetAt(before: Hoja, after: Hoja, x: nat, y: nat, tinta: bool)
    requires before.Valid() && after.Valid()
  {
    && after.ancho == before.ancho && after.alto == before.alto
    && forall x': nat, y': nat :: after.Tinta(x', y') ==
         if x' == x && y' == y && x < before.ancho && y < before.alto then tinta else before.Tinta(x', y')
  }

  lemma SetAtIndex(before: Hoja, after: Hoja, x: nat, y: nat, tinta: bool)
    requires before.Valid() && x < before.ancho && y < before.alto
    requires 0 <= y * before.ancho + x < |before.px|
    requires after == before.(px := before.px[y * before.ancho + x := tinta])
    ensures after.Valid() && SetAt(before, after, x, y, tinta)
  {
    forall x': nat, y': nat
      ensures after.Tinta(x', y') == if x' == x && y' == y then tinta else before.Tinta(x', y')
    {
      if x' < before.ancho && y' < before.alto {
        IndexInside(x', y', before.ancho, before.alto);
        if y' * before.ancho + x' == y * before.ancho + x {
          IndexUnique(x', y', x, y, before.ancho);
        }
      }
    }
  }

  // --------------------------------------------------------- a square of points

  /** The point (x, y) is in the square of side `e` number (X, Y). */
  predicate InSquare(x: nat, y: nat, X: nat, Y: nat, e: nat)
  {
    X * e <= x < X * e + e && Y * e <= y < Y * e + e
  }

  /** Of that square, its first `rows` rows and the first `n` points of the next. */
  predicate InPart(x: nat, y: nat, X: nat, Y: nat, e: nat, rows: nat, n: nat)
  {
    X * e <= x < X * e + e && Y * e <= y && (y < Y * e + rows || (y == Y * e + rows && x < X * e + n))
  }

  ghost predicate PaintedPart(before: Hoja, after: Hoja, X: nat, Y: nat, e: nat, rows: nat, n: nat, tinta: bool)
    requires before.Valid() && after.Valid()
  {
    && after.ancho == before.ancho && after.alto == before.alto
    && forall x: nat, y: nat :: after.Tinta(x, y) ==
         if InPart(x, y, X, Y, e, rows, n) && x < before.ancho && y < before.alto then tinta else before.Tinta(x, y)
  }

  /** The whole square painted, as much of it as is on the sheet, and nothing else. */
  ghost predicate Painted(before: Hoja, after: Hoja, X: nat, Y: nat, e: nat, tinta: bool)
    requires before.Valid() && after.Valid()
  {
    && after.ancho == before.ancho && after.alto == before.alto
    && forall x: nat, y: nat :: after.Tinta(x, y) ==
         if InSquare(x, y, X, Y, e) && x < before.ancho && y < before.alto then tinta else before.Tinta(x, y)
  }

  lemma PaintOne(h0: Hoja, h1: Hoja, h2: Hoja, X: nat, Y: nat, e: nat, rows: nat, n: nat, tinta: bool)
    requires h0.Valid() && h1.Valid() && h2.Valid() && n < e
    requires PaintedPart(h0, h1, X, Y, e, rows, n, tinta)
    requires X * e + n >= 0 && Y * e + rows >= 0
    requires SetAt(h1, h2, X * e + n, Y * e + rows, tinta)
    ensures PaintedPart(h0, h2, X, Y, e, rows, n + 1, tinta)
  {
    hide Hoja.Tinta, Hoja.Valid;
  }

  lemma PaintRow(h0: Hoja, h1: Hoja, X: nat, Y: nat, e: nat, rows: nat, tinta: bool)
    requires h0.Valid() && h1.Valid()
    requires PaintedPart(h0, h1, X, Y, e, rows, e, tinta)
    ensures PaintedPart(h0, h1, X, Y, e, rows + 1, 0, tinta)
  {
    hide Hoja.Tinta, Hoja.Valid;
  }

  lemma PaintAll(h0: Hoja, h1: Hoja, X: nat, Y: nat, e: nat, tinta: bool)
    requires h0.Valid() && h1.Valid()
    requires PaintedPart(h0, h1, X, Y, e, e, 0, tinta)
    ensures Painted(h0, h1, X, Y, e, tinta)
  {
    hide Hoja.Tinta, Hoja.Valid;
  }

  lemma PaintNone(h: Hoja, X: nat, Y: nat, e: nat, tinta: bool)
    requires h.Valid()
    ensures PaintedPart(h, h, X, Y, e, 0, 0, tinta)
  {
    hide Hoja.Tinta, Hoja.Valid;
  }

  /** The two inner loops of both printers. */
  method PintarPunto(hoja: Lienzo, X: nat, Y: nat, e: nat, tinta: bool)
    requires hoja.Valid()
    modifies hoja.px
    ensures Painted(old(hoja.Copia()), hoja.Copia(), X, Y, e, tinta)
  {
    hide PaintedPart, Painted, SetAt, Lienzo.Copia;
    ghost var before := hoja.Copia();
    PaintNone(before, X, Y, e, tinta);
    Corner(X, Y, e);
    for dy := 0 to e
      invariant PaintedPart(before, hoja.Copia(), X, Y, e, dy, 0, tinta)
    {
      for dx := 0 to e
        invariant PaintedPart(before, hoja.Copia(), X, Y, e, dy, dx, tinta)
      {
        ghost var now := hoja.Copia();
        hoja.Poner(X * e + dx, Y * e + dy, tinta);
        PaintOne(before, now, hoja.Copia(), X, Y, e, dy, dx, tinta);
      }
      PaintRow(before, hoja.Copia(), X, Y, e, dy, tinta);
    }
    PaintAll(before, hoja.Copia(), X, Y, e, tinta);
  }

  lemma Corner(X: nat, Y: nat, e: nat)
    ensures X * e >= 0 && Y * e >= 0
  {
  }

  // --------------------------------------------------------- reading a square

  function One(b: bool): nat { if b then 1 else 0 }

  /** The ink among `n` points of a row. */
  function InkInRow(h: Hoja, x: nat, y: nat, n: nat): nat
    requires h.Valid()
  {
    if n == 0 then 0 else InkInRow(h, x, y, n - 1) + One(h.Tinta(x + n - 1, y))
  }

  /** The ink in `rows` rows of `w` points. */
  function Ink(h: Hoja, x: nat, y: nat, w: nat, rows: nat): nat
    requires h.Valid()
  {
    if rows == 0 then 0 else Ink(h, x, y, w, rows - 1) + InkInRow(h, x, y + rows - 1, w)
  }

  /** The majority in the square number (X, Y). */
  function Voto(h: Hoja, X: nat, Y: nat, e: nat): bool
    requires h.Valid()
  {
    Corner(X, Y, e);
    Ink(h, X * e, Y * e, e, e) * 2 > e * e
  }

  method LeerPunto(hoja: Lienzo, X: nat, Y: nat, e: nat) returns (negro: bool)
    requires hoja.Valid()
    ensures negro == Voto(hoja.Copia(), X, Y, e)
  {
    hide Lienzo.Copia, Hoja.Tinta;
    Corner(X, Y, e);
    var negros := 0;
    for dy := 0 to e
      invariant negros == Ink(hoja.Copia(), X * e, Y * e, e, dy)
    {
      ghost var above := negros;
      for dx := 0 to e
        invariant negros == above + InkInRow(hoja.Copia(), X * e, Y * e + dy, dx)
      {
        var tinta := hoja.Tinta(X * e + dx, Y * e + dy);
        if tinta {
          negros := negros + 1;
        }
      }
    }
    negro := negros * 2 > e * e;
  }

  // ----------------------------------------------------- a damaged square

  /** The points of a stretch that differ between two sheets. */
  function InvertedInRow(h: Hoja, g: Hoja, x: nat, y: nat, n: nat): nat
    requires h.Valid() && g.Valid()
  {
    if n == 0 then 0 else InvertedInRow(h, g, x, y, n - 1) + One(h.Tinta(x + n - 1, y) != g.Tinta(x + n - 1, y))
  }

  function Inverted(h: Hoja, g: Hoja, x: nat, y: nat, w: nat, rows: nat): nat
    requires h.Valid() && g.Valid()
  {
    if rows == 0 then 0 else Inverted(h, g, x, y, w, rows - 1) + InvertedInRow(h, g, x, y + rows - 1, w)
  }

  /** Points inverted in the square number (X, Y). */
  function InvertedIn(h: Hoja, g: Hoja, X: nat, Y: nat, e: nat): nat
    requires h.Valid() && g.Valid()
  {
    Corner(X, Y, e);
    Inverted(h, g, X * e, Y * e, e, e)
  }

  /** The square is on the sheet and all of one colour. */
  ghost predicate Uniform(h: Hoja, x: nat, y: nat, w: nat, rows: nat, t: bool)
    requires h.Valid()
  {
    forall i: nat, j: nat :: x <= i < x + w && y <= j < y + rows ==> h.Tinta(i, j) == t
  }

  lemma {:induction false} RowInk(h: Hoja, g: Hoja, x: nat, y: nat, w: nat, n: nat, rows: nat, j: nat, t: bool)
    requires h.Valid() && g.Valid() && Uniform(h, x, y, w, rows, t) && n <= w && y <= j < y + rows
    ensures InkInRow(g, x, j, n) == if t then n - InvertedInRow(h, g, x, j, n) else InvertedInRow(h, g, x, j, n)
  {
    hide Hoja.Tinta, Hoja.Valid;
    if n > 0 {
      RowInk(h, g, x, y, w, n - 1, rows, j, t);
      assert h.Tinta(x + n - 1, j) == t;
    }
  }

  lemma {:induction false} SquareInk(h: Hoja, g: Hoja, x: nat, y: nat, w: nat, n: nat, rows: nat, t: bool)
    requires h.Valid() && g.Valid() && Uniform(h, x, y, w, rows, t) && n <= rows
    ensures Ink(g, x, y, w, n) == if t then n * w - Inverted(h, g, x, y, w, n) else Inverted(h, g, x, y, w, n)
  {
    hide Hoja.Tinta, Hoja.Valid, Uniform;
    if n > 0 {
      SquareInk(h, g, x, y, w, n - 1, rows, t);
      RowInk(h, g, x, y, w, w, rows, y + n - 1, t);
      assert n * w == (n - 1) * w + w;
    }
  }

  /** A damaged square still reads its colour exactly when fewer than half of its points were inverted, or,
   *  for paper, no more than half: the vote needs a strict majority of ink.
   */
  lemma DamagedSquare(h: Hoja, g: Hoja, X: nat, Y: nat, e: nat, t: bool)
    requires h.Valid() && g.Valid()
    requires X * e >= 0 && Y * e >= 0 && Uniform(h, X * e, Y * e, e, e, t)
    ensures Voto(g, X, Y, e) == t <==>
      if t then 2 * InvertedIn(h, g, X, Y, e) < e * e else 2 * InvertedIn(h, g, X, Y, e) <= e * e
  {
    SquareInk(h, g, X * e, Y * e, e, e, e, t);
  }
}
