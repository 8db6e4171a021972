/** Where every bit of the data lies on a printed sheet, and what the reader counts, in numbers. */
module PapelLayout {
  import opened Arithmetic
  import opened Base32
  import opened Lienzo
  import opened Matriz
  import opened T = Texto
  import opened Padme
  import opened Results

  // ----------------------------------------------------------------------- bits

  lemma {:induction false} ShrIs(v: nat, k: nat)
    ensures Shr(v, k) == v / Pow2(k)
    decreases k
  {
    if k > 0 {
      ShrIs(v / 2, k - 1);
      HalfThenDivide(v, Pow2(k - 1));
    }
  }

  lemma HalfThenDivide(v: nat, p: nat)
    requires p > 0
    ensures v / 2 / p == v / (2 * p)
  {
    var q, r := v / 2 / p, v / 2 % p;
    DivMod(v / 2, p);
    assert v == 2 * (v / 2) + v % 2;
    assert 2 * (p * q + r) == (2 * p) * q + 2 * r;
    DivUnique(v, 2 * p, q, 2 * r + v % 2);
  }

  /** Bit `k` of a number, counted from the lowest. */
  predicate BitIs(v: nat, k: nat) { v / Pow2(k) % 2 == 1 }

  lemma BitIsBit(v: nat, k: nat)
    ensures Bit(v, k) <==> BitIs(v, k)
  {
    ShrIs(v, k);
  }

  /** Bit `i` of a list of numbers of `w` bits: the number i / w, from its highest bit on. */
  lemma {:induction false} FlatBit(s: seq<nat>, w: nat, i: nat)
    requires w > 0 && i < w * |s|
    ensures i / w < |s| && Flat(s, w)[i] == BitIs(s[i / w], w - 1 - i % w)
    decreases |s|
  {
    var n := |s| - 1;
    DivMod(i, w);
    MulNext(w, |s|);
    assert w * |s| == w * n + w;
    if i < w * n {
      FlatBit(s[..n], w, i);
    } else {
      DivUnique(i, w, n, i - w * n);
      BitAt(s[n], w, i - w * n);
      BitIsBit(s[n], w - 1 - (i - w * n));
    }
    hide BitIs, Bit, BitsOf;
  }

  /** Bit `i` of the data, the highest of the first byte first. */
  predicate DataBit(datos: seq<byte>, i: nat)
  {
    i < 8 * |datos| && BitIs(datos[i / 8], 7 - i % 8)
  }

  lemma DataBits(datos: seq<byte>, i: nat)
    requires i < 8 * |datos|
    ensures Flat(datos, 8)[i] == DataBit(datos, i)
  {
    hide Flat, BitIs;
    FlatBit(datos, 8, i);
  }

  lemma PackedAt(datos: seq<byte>, simbolos: seq<quinary>, i: nat)
    requires Packs(datos, simbolos) && i < 5 * |simbolos|
    ensures Flat(simbolos, 5)[i] == (i < 8 * |datos| && Flat(datos, 8)[i])
  {
    hide Flat, ZeroBits;
    var n := 5 * |simbolos| - 8 * |datos|;
    if i >= 8 * |datos| {
      ZerosAre(n, i - 8 * |datos|);
      assert Flat(simbolos, 5)[i] == ZeroBits(n)[i - 8 * |datos|];
    }
  }

  /** The symbols of packed data: five bits each, in order, and zeros after the last. */
  lemma SymbolBits(datos: seq<byte>, simbolos: seq<quinary>, j: nat, k: nat)
    requires Packs(datos, simbolos) && j < |simbolos| && k < 5
    ensures BitIs(simbolos[j], 4 - k) == DataBit(datos, 5 * j + k)
  {
    hide *;
    var i := 5 * j + k;
    FlatBit(simbolos, 5, i);
    DivUnique(i, 5, j, k);
    PackedAt(datos, simbolos, i);
    if i < 8 * |datos| {
      DataBits(datos, i);
    } else {
      NoBit(datos, i);
    }
  }

  lemma NoBit(datos: seq<byte>, i: nat)
    requires i >= 8 * |datos|
    ensures !DataBit(datos, i)
  {
  }

  lemma ZerosAre(n: nat, i: nat)
    requires i < n
    ensures !ZeroBits(n)[i]
  {
  }

  // ------------------------------------------------------------------ the matrix

  /** A printed point is ink exactly if it lies in a module whose number is that of a bit that is one: modules are
   *  counted along the rows, as many to a row as fit.
   */
  lemma MatrixPoint(h: Hoja, lado: nat, datos: seq<byte>, x: nat, y: nat)
    requires h.Valid() && lado > 0 && x < h.ancho && y < h.alto
    requires Shows(h, lado, Rejilla(Flat(datos, 8), h.ancho / lado))
    ensures y / lado * (h.ancho / lado) + x / lado >= 0
    ensures h.Tinta(x, y) <==>
      x / lado < h.ancho / lado && DataBit(datos, y / lado * (h.ancho / lado) + x / lado)
  {
    var mx, X, Y := h.ancho / lado, x / lado, y / lado;
    QuotientIsNat(h.ancho, lado);
    QuotientIsNat(x, lado);
    QuotientIsNat(y, lado);
    CellIsNat(X, Y, mx);
    var i := Y * mx + X;
    if i < 8 * |datos| {
      DataBits(datos, i);
    }
    assert h.Tinta(x, y) == Rejilla(Flat(datos, 8), mx)(X, Y);
    hide Flat, DataBit, Hoja.Tinta, Shows;
  }

  lemma QuotientIsNat(x: nat, e: nat)
    requires e > 0
    ensures x / e >= 0
  {
    DivMod(x, e);
  }

  /** The points of a stretch of the sheet that are ink. */
  function InkPoints(h: Hoja, x: nat, y: nat, w: nat, rows: nat): set<(nat, nat)>
    requires h.Valid()
  {
    set i: nat, j: nat | x <= i < x + w && y <= j < y + rows && h.Tinta(i, j) :: (i, j)
  }

  lemma {:induction false} RowCount(h: Hoja, x: nat, y: nat, n: nat)
    requires h.Valid()
    ensures |InkPoints(h, x, y, n, 1)| == InkInRow(h, x, y, n)
  {
    hide Hoja.Tinta, Hoja.Valid;
    if n == 0 {
      assert InkPoints(h, x, y, 0, 1) == {};
    } else {
      RowCount(h, x, y, n - 1);
      var before := InkPoints(h, x, y, n - 1, 1);
      var p := (x + n - 1, y);
      assert p !in before;
      if h.Tinta(x + n - 1, y) {
        assert InkPoints(h, x, y, n, 1) == before + {p};
      } else {
        assert InkPoints(h, x, y, n, 1) == before;
      }
    }
  }

  /** What the nested loops count is how many points are ink. */
  lemma {:induction false} InkCount(h: Hoja, x: nat, y: nat, w: nat, rows: nat)
    requires h.Valid()
    ensures |InkPoints(h, x, y, w, rows)| == Ink(h, x, y, w, rows)
  {
    hide Hoja.Tinta, Hoja.Valid;
    if rows == 0 {
      assert InkPoints(h, x, y, w, 0) == {};
    } else {
      InkCount(h, x, y, w, rows - 1);
      RowCount(h, x, y + rows - 1, w);
      var above, row := InkPoints(h, x, y, w, rows - 1), InkPoints(h, x, y + rows - 1, w, 1);
      assert InkPoints(h, x, y, w, rows) == above + row;
      assert above * row == {};
    }
  }

  /** So a square votes ink exactly if more than half of its points are. */
  lemma VoteIs(h: Hoja, X: nat, Y: nat, e: nat)
    requires h.Valid()
    ensures X * e >= 0 && Y * e >= 0
    ensures Voto(h, X, Y, e) <==> 2 * |InkPoints(h, X * e, Y * e, e, e)| > e * e
  {
    Corner(X, Y, e);
    InkCount(h, X * e, Y * e, e, e);
    hide InkPoints, Ink;
  }

  /** And bit `i` of what the matrix reads is the vote of the module number `i`. */
  lemma MatrixBit(h: Hoja, lado: nat, out: seq<byte>, i: nat)
    requires h.Valid() && lado > 0 && h.ancho / lado > 0 && i < 8 * |out|
    requires Flat(out, 8) == Votos(h, lado, h.ancho / lado, 8 * |out|)
    ensures i % (h.ancho / lado) >= 0 && i / (h.ancho / lado) >= 0
    ensures DataBit(out, i) == Voto(h, i % (h.ancho / lado), i / (h.ancho / lado), lado)
  {
    DataBits(out, i);
    VotoIs(h, lado, h.ancho / lado, i);
    hide Flat, DataBit, Voto;
  }

  // -------------------------------------------------------------------- the text

  /** Dot (gx, gy) of a glyph: bit 4 - gx of its row. */
  lemma GlyphDot(s: quinary, gx: nat, gy: nat)
    requires gx < 5 && gy < 7
    ensures Trazo(s, gx, gy) <==> BitIs(Glifo(s)[gy], 4 - gx)
  {
    BitIsBit(Glifo(s)[gy], 4 - gx);
  }

  /** A point of a page of symbols is ink exactly if it lies in the glyph of a cell, whose last column and row are
   *  blank, and the dot of that glyph there is drawn: cells are counted along the rows, as many to a row as fit.
   */
  lemma TextPoint(h: Hoja, e: nat, simbolos: seq<quinary>, x: nat, y: nat)
    requires h.Valid() && e > 0 && x < h.ancho && y < h.alto
    requires Shows(h, e, Pagina(simbolos, h.ancho / (6 * e), 35 * |simbolos|))
    ensures var X, Y, cx := x / e, y / e, h.ancho / (6 * e);
      h.Tinta(x, y) <==>
        && X / 6 < cx && 0 <= Y / 8 * cx + X / 6 < |simbolos| && X % 6 < 5 && Y % 8 < 7
        && BitIs(Glifo(simbolos[Y / 8 * cx + X / 6])[Y % 8], 4 - X % 6)
  {
    hide Hoja.Tinta, Pagina, BitIs, Glifo;
    var X, Y, cx := x / e, y / e, h.ancho / (6 * e);
    QuotientIsNat(x, e);
    QuotientIsNat(y, e);
    QuotientIsNat(h.ancho, 6 * e);
    assert h.Tinta(x, y) == Pagina(simbolos, cx, 35 * |simbolos|)(X, Y);
    hide Shows, Cell;
    PageDot(simbolos, cx, X, Y);
  }

  lemma PageDot(simbolos: seq<quinary>, cx: nat, X: nat, Y: nat)
    ensures Pagina(simbolos, cx, 35 * |simbolos|)(X, Y) <==>
      && X / 6 < cx && 0 <= Y / 8 * cx + X / 6 < |simbolos| && X % 6 < 5 && Y % 8 < 7
      && BitIs(Glifo(simbolos[Y / 8 * cx + X / 6])[Y % 8], 4 - X % 6)
  {
    hide Trazo, BitIs, Glifo, Orden;
    assert Pagina(simbolos, cx, 35 * |simbolos|)(X, Y) == T.Punto(simbolos, cx, 35 * |simbolos|, X, Y);
    var i := Y / 8 * cx + X / 6;
    assert CellNumber(cx, X, Y) == i;
    hide CellNumber, Pagina;
    if X % 6 < 5 && Y % 8 < 7 && 0 <= i < |simbolos| {
      GlyphDot(simbolos[i], X % 6, Y % 8);
      InOrder(i, X % 6, Y % 8, |simbolos|);
    }
  }

  lemma InOrder(i: nat, gx: nat, gy: nat, n: nat)
    requires i < n && gx < 5 && gy < 7
    ensures Orden(i, gx, gy) < 35 * n
  {
  }

  /** Bit `i` of unpacked bytes: that of the symbols, as long as they hold whole bytes, and then zeros. */
  lemma UnpackedBit(simbolos: seq<quinary>, cuantos: nat, out: seq<byte>, i: nat)
    requires Unpacks(simbolos, cuantos, out) && i < 8 * cuantos
    ensures |out| == cuantos
    ensures i / 5 < |simbolos| || i / 8 >= 5 * |simbolos| / 8
    ensures DataBit(out, i) <==> i / 8 < 5 * |simbolos| / 8 && BitIs(simbolos[i / 5], 4 - i % 5)
  {
    hide Flat, BitIs;
    var w := Whole(simbolos, cuantos);
    if i < 8 * w {
      FlatBit(simbolos, 5, i);
      DataBits(out[..w], i);
      assert out[..w][i / 8] == out[i / 8];
      assert Flat(out[..w], 8)[i] == Flat(simbolos, 5)[..8 * w][i];
    } else {
      assert out[i / 8] == 0;
      NoBits(7 - i % 8);
    }
  }

  lemma NoBits(k: nat)
    ensures !BitIs(0, k)
  {
    DivUnique(0, Pow2(k), 0, 0);
  }

  // ------------------------------------------------------------------ what is counted

  /** The two sheets differ at the point. */
  predicate Inverts(h: Hoja, g: Hoja, x: nat, y: nat)
    requires h.Valid() && g.Valid()
  {
    h.Tinta(x, y) != g.Tinta(x, y)
  }

  function InvertedPoints(h: Hoja, g: Hoja, x: nat, y: nat, w: nat, rows: nat): set<(nat, nat)>
    requires h.Valid() && g.Valid()
  {
    set i: nat, j: nat | x <= i < x + w && y <= j < y + rows && Inverts(h, g, i, j) :: (i, j)
  }

  lemma InvertedInRowNext(h: Hoja, g: Hoja, x: nat, y: nat, n: nat)
    requires h.Valid() && g.Valid()
    ensures InvertedInRow(h, g, x, y, n + 1) == InvertedInRow(h, g, x, y, n) + One(Inverts(h, g, x + n, y))
  {
    hide Hoja.Tinta, Hoja.Valid;
  }

  lemma InvertedPointsNext(h: Hoja, g: Hoja, x: nat, y: nat, n: nat)
    requires h.Valid() && g.Valid()
    ensures |InvertedPoints(h, g, x, y, n + 1, 1)|
      == |InvertedPoints(h, g, x, y, n, 1)| + One(Inverts(h, g, x + n, y))
  {
    hide Inverts, Hoja.Valid;
    var before, after := InvertedPoints(h, g, x, y, n, 1), InvertedPoints(h, g, x, y, n + 1, 1);
    var p := (x + n, y);
    assert p !in before;
    assert after - {p} == before;
    assert p in after <==> Inverts(h, g, x + n, y);
    if Inverts(h, g, x + n, y) {
      assert after == before + {p};
    }
  }

  lemma {:induction false} InvertedRowCount(h: Hoja, g: Hoja, x: nat, y: nat, n: nat)
    requires h.Valid() && g.Valid()
    ensures |InvertedPoints(h, g, x, y, n, 1)| == InvertedInRow(h, g, x, y, n)
  {
    if n == 0 {
      assert InvertedPoints(h, g, x, y, 0, 1) == {};
    } else {
      InvertedRowCount(h, g, x, y, n - 1);
      InvertedInRowNext(h, g, x, y, n - 1);
      InvertedPointsNext(h, g, x, y, n - 1);
      hide *;
    }
  }

  lemma {:induction false} InvertedCount(h: Hoja, g: Hoja, x: nat, y: nat, w: nat, rows: nat)
    requires h.Valid() && g.Valid()
    ensures |InvertedPoints(h, g, x, y, w, rows)| == Inverted(h, g, x, y, w, rows)
  {
    hide Inverts, Hoja.Valid;
    if rows == 0 {
      assert InvertedPoints(h, g, x, y, w, 0) == {};
    } else {
      InvertedCount(h, g, x, y, w, rows - 1);
      InvertedRowCount(h, g, x, y + rows - 1, w);
      var above, row := InvertedPoints(h, g, x, y, w, rows - 1), InvertedPoints(h, g, x, y + rows - 1, w, 1);
      assert InvertedPoints(h, g, x, y, w, rows) == above + row;
      assert above * row == {};
    }
  }

  /** What the damage of a square is: how many of its points differ. */
  lemma DamageIs(h: Hoja, g: Hoja, X: nat, Y: nat, e: nat)
    requires h.Valid() && g.Valid()
    ensures X * e >= 0 && Y * e >= 0
    ensures InvertedIn(h, g, X, Y, e) == |InvertedPoints(h, g, X * e, Y * e, e, e)|
  {
    Corner(X, Y, e);
    InvertedCount(h, g, X * e, Y * e, e, e);
    hide InvertedPoints, Inverted;
  }

  /** Dot `d` of a cell, in the order of reading, votes against the glyph of a symbol. */
  predicate Wrong(h: Hoja, e: nat, cx: nat, i: nat, s: quinary, d: nat)
    requires h.Valid() && cx > 0 && d < 35
  {
    Voto(h, Xde(cx, i, d % 5), Yde(cx, i, d / 5), e) != BitIs(Glifo(s)[d / 5], 4 - d % 5)
  }

  function Misread(h: Hoja, e: nat, cx: nat, i: nat, s: quinary, k: nat): set<nat>
    requires h.Valid() && cx > 0 && k <= 35
  {
    set d: nat | d < k && Wrong(h, e, cx, i, s, d)
  }

  lemma ErrorsNext(h: Hoja, e: nat, cx: nat, i: nat, s: quinary, d: nat)
    requires h.Valid() && cx > 0 && d < 35
    ensures Errores(h, e, cx, i, s, d + 1) == Errores(h, e, cx, i, s, d) + One(Wrong(h, e, cx, i, s, d))
  {
    hide Voto, BitIs, Glifo, Xde, Yde, Trazo;
    GlyphDot(s, d % 5, d / 5);
  }

  lemma MisreadNext(h: Hoja, e: nat, cx: nat, i: nat, s: quinary, d: nat)
    requires h.Valid() && cx > 0 && d < 35
    ensures |Misread(h, e, cx, i, s, d + 1)| == |Misread(h, e, cx, i, s, d)| + One(Wrong(h, e, cx, i, s, d))
  {
    hide Wrong, Hoja.Valid;
    var before, after := Misread(h, e, cx, i, s, d), Misread(h, e, cx, i, s, d + 1);
    assert d !in before;
    if Wrong(h, e, cx, i, s, d) {
      assert after == before + {d};
    } else {
      assert after == before;
    }
  }

  lemma NoneMisread(h: Hoja, e: nat, cx: nat, i: nat, s: quinary)
    requires h.Valid() && cx > 0
    ensures |Misread(h, e, cx, i, s, 0)| == 0 == Errores(h, e, cx, i, s, 0)
  {
    assert Misread(h, e, cx, i, s, 0) == {};
  }

  lemma {:induction false} MisreadCount(h: Hoja, e: nat, cx: nat, i: nat, s: quinary, k: nat)
    requires h.Valid() && cx > 0 && k <= 35
    ensures |Misread(h, e, cx, i, s, k)| == Errores(h, e, cx, i, s, k)
  {
    hide *;
    if k == 0 {
      NoneMisread(h, e, cx, i, s);
    } else {
      MisreadCount(h, e, cx, i, s, k - 1);
      ErrorsNext(h, e, cx, i, s, k - 1);
      MisreadNext(h, e, cx, i, s, k - 1);
    }
  }

  /** The place of a dot: cells of six by eight, as many to a row as fit. */
  lemma DotPlaces(cx: nat, i: nat, gx: nat, gy: nat)
    requires cx > 0
    ensures Xde(cx, i, gx) == 6 * (i % cx) + gx && Yde(cx, i, gy) == 8 * (i / cx) + gy
  {
  }

  /** A cell is read as the symbol with the fewest misread dots, and of several as the first. */
  lemma NearestIs(h: Hoja, e: nat, cx: nat, i: nat, s: quinary)
    requires h.Valid() && cx > 0
    ensures MasCercano(h, e, cx, i, s) <==> forall t: quinary ::
      && |Misread(h, e, cx, i, s, 35)| <= |Misread(h, e, cx, i, t, 35)|
      && (|Misread(h, e, cx, i, s, 35)| == |Misread(h, e, cx, i, t, 35)| ==> s <= t)
  {
    hide Errores, Misread, Hoja.Valid;
    MisreadCount(h, e, cx, i, s, 35);
    forall t: quinary
      ensures |Misread(h, e, cx, i, t, 35)| == Distancia(h, e, cx, i, t)
    {
      MisreadCount(h, e, cx, i, t, 35);
    }
    hide Distancia;
  }

  // ------------------------------------------------------------------ what fits

  /** The capacity is as many bytes as have bits for the modules that fit on the sheet, and no more. */
  lemma MatrixCapacity(m: Matriz, ancho: nat, alto: nat, n: nat)
    requires m.lado > 0
    ensures n <= m.CapacidadBytes(ancho, alto) <==> 8 * n <= (ancho / m.lado) * (alto / m.lado)
  {
  }

  /** And for text, five bits for each cell of six by eight scaled dots. */
  lemma TextCapacity(t: Texto, ancho: nat, alto: nat, n: nat)
    requires t.escala > 0
    ensures n <= t.CapacidadBytes(ancho, alto) <==>
      8 * n <= 5 * ((ancho / (6 * t.escala)) * (alto / (8 * t.escala)))
  {
  }
}
