/** The text carrier of `src/lab/papel.rs`: a Base32 symbol for each cell of 6 by 8 dots, drawn with a 5 by 7
 *  font and read back by nearest template.
 */
module Texto {
  import opened Arithmetic
  import opened Base32
  import opened Lienzo
  import opened Matriz
  import opened Padme
  import opened Results

  const ANCHO_GLIFO: nat := 5
  const ALTO_GLIFO: nat := 7
  const ANCHO_CELDA: nat := 6
  const ALTO_CELDA: nat := 8

  /** The rows of the glyph of a symbol, five bits each. */
  function Glifo(s: quinary): (g: seq<quinary>)
    ensures |g| == 7
  {
    match s
    case 0 => [0x0e, 0x11, 0x11, 0x1f, 0x11, 0x11, 0x11] // A
    case 1 => [0x1e, 0x11, 0x11, 0x1e, 0x11, 0x11, 0x1e] // B
    case 2 => [0x0e, 0x11, 0x10, 0x10, 0x10, 0x11, 0x0e] // C
    case 3 => [0x1e, 0x11, 0x11, 0x11, 0x11, 0x11, 0x1e] // D
    case 4 => [0x1f, 0x10, 0x10, 0x1e, 0x10, 0x10, 0x1f] // E
    case 5 => [0x1f, 0x10, 0x10, 0x1e, 0x10, 0x10, 0x10] // F
    case 6 => [0x0e, 0x11, 0x10, 0x17, 0x11, 0x11, 0x0f] // G
    case 7 => [0x11, 0x11, 0x11, 0x1f, 0x11, 0x11, 0x11] // H
    case 8 => [0x0e, 0x04, 0x04, 0x04, 0x04, 0x04, 0x0e] // I
    case 9 => [0x07, 0x02, 0x02, 0x02, 0x02, 0x12, 0x0c] // J
    case 10 => [0x11, 0x12, 0x14, 0x18, 0x14, 0x12, 0x11] // K
    case 11 => [0x10, 0x10, 0x10, 0x10, 0x10, 0x10, 0x1f] // L
    case 12 => [0x11, 0x1b, 0x15, 0x15, 0x11, 0x11, 0x11] // M
    case 13 => [0x11, 0x19, 0x15, 0x13, 0x11, 0x11, 0x11] // N
    case 14 => [0x0e, 0x11, 0x11, 0x11, 0x11, 0x11, 0x0e] // O
    case 15 => [0x1e, 0x11, 0x11, 0x1e, 0x10, 0x10, 0x10] // P
    case 16 => [0x0e, 0x11, 0x11, 0x11, 0x15, 0x12, 0x0d] // Q
    case 17 => [0x1e, 0x11, 0x11, 0x1e, 0x14, 0x12, 0x11] // R
    case 18 => [0x0f, 0x10, 0x10, 0x0e, 0x01, 0x01, 0x1e] // S
    case 19 => [0x1f, 0x04, 0x04, 0x04, 0x04, 0x04, 0x04] // T
    case 20 => [0x11, 0x11, 0x11, 0x11, 0x11, 0x11, 0x0e] // U
    case 21 => [0x11, 0x11, 0x11, 0x11, 0x11, 0x0a, 0x04] // V
    case 22 => [0x11, 0x11, 0x11, 0x15, 0x15, 0x1b, 0x11] // W
    case 23 => [0x11, 0x11, 0x0a, 0x04, 0x0a, 0x11, 0x11] // X
    case 24 => [0x11, 0x11, 0x0a, 0x04, 0x04, 0x04, 0x04] // Y
    case 25 => [0x1f, 0x01, 0x02, 0x04, 0x08, 0x10, 0x1f] // Z
    case 26 => [0x0e, 0x11, 0x01, 0x02, 0x04, 0x08, 0x1f] // 2
    case 27 => [0x1f, 0x02, 0x04, 0x02, 0x01, 0x11, 0x0e] // 3
    case 28 => [0x02, 0x06, 0x0a, 0x12, 0x1f, 0x02, 0x02] // 4
    case 29 => [0x1f, 0x10, 0x1e, 0x01, 0x01, 0x11, 0x0e] // 5
    case 30 => [0x06, 0x08, 0x10, 0x1e, 0x11, 0x11, 0x0e] // 6
    case 31 => [0x1f, 0x01, 0x02, 0x04, 0x08, 0x08, 0x08] // 7
  }

  predicate Trazo(s: quinary, gx: nat, gy: nat)
    requires gx < 5 && gy < 7
  {
    Bit(Glifo(s)[gy], 4 - gx)
  }

  // --------------------------------------------------- no two glyphs are equal

  function Sum(a: int, b: int, c: int, d: int, e: int, f: int): int { a + 2 * b + c + d + 3 * e + f }

  function Mezcla(g: seq<quinary>): int
    requires |g| == 7
  {
    Sum(g[0], g[1], g[3], g[4], g[5], g[6])
  }

  /** The symbol whose glyph has this weighted sum of rows. */
  function Simbolo(h: int): quinary
  {
    if h == 164 then 0
    else if h == 192 then 1
    else if h == 145 then 2
    else if h == 179 then 3
    else if h == 188 then 4
    else if h == 173 then 5
    else if h == 154 then 6
    else if h == 167 then 7
    else if h == 56 then 8
    else if h == 81 then 9
    else if h == 168 then 10
    else if h == 159 then 11
    else if h == 177 then 12
    else if h == 171 then 13
    else if h == 147 then 14
    else if h == 174 then 15
    else if h == 153 then 16
    else if h == 185 then 17
    else if h == 95 then 18
    else if h == 63 then 19
    else if h == 150 then 20
    else if h == 119 then 21
    else if h == 191 then 22
    else if h == 133 then 23
    else if h == 75 then 24
    else if h == 124 then 25
    else if h == 109 then 26
    else if h == 103 then 27
    else if h == 71 then 28
    else if h == 130 then 29
    else if h == 134 then 30
    else 31
  }

  lemma SumTellsGlyph(s: quinary)
    ensures Simbolo(Mezcla(Glifo(s))) == s
  {
    match s
    case 0 => assert Mezcla(Glifo(0)) == 164;
    case 1 => assert Mezcla(Glifo(1)) == 192;
    case 2 => assert Mezcla(Glifo(2)) == 145;
    case 3 => assert Mezcla(Glifo(3)) == 179;
    case 4 => assert Mezcla(Glifo(4)) == 188;
    case 5 => assert Mezcla(Glifo(5)) == 173;
    case 6 => assert Mezcla(Glifo(6)) == 154;
    case 7 => assert Mezcla(Glifo(7)) == 167;
    case 8 => assert Mezcla(Glifo(8)) == 56;
    case 9 => assert Mezcla(Glifo(9)) == 81;
    case 10 => assert Mezcla(Glifo(10)) == 168;
    case 11 => assert Mezcla(Glifo(11)) == 159;
    case 12 => assert Mezcla(Glifo(12)) == 177;
    case 13 => assert Mezcla(Glifo(13)) == 171;
    case 14 => assert Mezcla(Glifo(14)) == 147;
    case 15 => assert Mezcla(Glifo(15)) == 174;
    case 16 => assert Mezcla(Glifo(16)) == 153;
    case 17 => assert Mezcla(Glifo(17)) == 185;
    case 18 => assert Mezcla(Glifo(18)) == 95;
    case 19 => assert Mezcla(Glifo(19)) == 63;
    case 20 => assert Mezcla(Glifo(20)) == 150;
    case 21 => assert Mezcla(Glifo(21)) == 119;
    case 22 => assert Mezcla(Glifo(22)) == 191;
    case 23 => assert Mezcla(Glifo(23)) == 133;
    case 24 => assert Mezcla(Glifo(24)) == 75;
    case 25 => assert Mezcla(Glifo(25)) == 124;
    case 26 => assert Mezcla(Glifo(26)) == 109;
    case 27 => assert Mezcla(Glifo(27)) == 103;
    case 28 => assert Mezcla(Glifo(28)) == 71;
    case 29 => assert Mezcla(Glifo(29)) == 130;
    case 30 => assert Mezcla(Glifo(30)) == 134;
    case 31 => assert Mezcla(Glifo(31)) == 77;
  }

  /** A row is its five dots. */
  lemma RowFromDots(u: quinary, v: quinary)
    requires forall k :: 0 <= k < 5 ==> Bit(u, k) == Bit(v, k)
    ensures u == v
  {
    hide *;
    forall k | 0 <= k < 5
      ensures BitsOf(u, 5)[k] == BitsOf(v, 5)[k]
    {
      BitAt(u, 5, k);
      BitAt(v, 5, k);
    }
    assert BitsOf(u, 5) == BitsOf(v, 5);
    Sixteen();
    BitsInjective(u, v, 5);
  }

  predicate Differ(s: quinary, t: quinary, gx: nat, gy: nat)
  {
    gx < 5 && gy < 7 && Trazo(s, gx, gy) != Trazo(t, gx, gy)
  }

  /** Two symbols differ in some dot. */
  lemma GlyphsDiffer(s: quinary, t: quinary)
    ensures s == t <==> forall gx: nat, gy: nat :: !Differ(s, t, gx, gy)
  {
    if forall gx: nat, gy: nat :: !Differ(s, t, gx, gy) {
      SameDotsSameSymbol(s, t);
    }
  }

  lemma SameDotsSameSymbol(s: quinary, t: quinary)
    requires forall gx: nat, gy: nat :: !Differ(s, t, gx, gy)
    ensures s == t
  {
    hide Glifo, Bit, Mezcla, Simbolo;
    forall y | 0 <= y < 7
      ensures Glifo(s)[y] == Glifo(t)[y]
    {
      forall k | 0 <= k < 5
        ensures Bit(Glifo(s)[y], k) == Bit(Glifo(t)[y], k)
      {
        assert !Differ(s, t, 4 - k, y);
      }
      RowFromDots(Glifo(s)[y], Glifo(t)[y]);
    }
    assert Glifo(s) == Glifo(t);
    SumTellsGlyph(s);
    SumTellsGlyph(t);
  }

  // ---------------------------------------------------------------- what is drawn

  /** The place of a dot in the order of drawing: symbol, row of the glyph, column. */
  function Orden(i: nat, gx: nat, gy: nat): nat { 35 * i + 5 * gy + gx }

  function CellNumber(cx: nat, X: nat, Y: nat): nat
  {
    CellIsNat(X / 6, Y / 8, cx);
    Y / 8 * cx + X / 6
  }

  /** The dot (X, Y) once the first `done` dots are drawn. */
  function Punto(simbolos: seq<quinary>, cx: nat, done: nat, X: nat, Y: nat): bool
  {
    var i, gx, gy := CellNumber(cx, X, Y), X % 6, Y % 8;
    X / 6 < cx && gx < 5 && gy < 7 && i < |simbolos| && Orden(i, gx, gy) < done && Trazo(simbolos[i], gx, gy)
  }

  function Pagina(simbolos: seq<quinary>, cx: nat, done: nat): Puntos {
    (X: nat, Y: nat) => Punto(simbolos, cx, done, X, Y)
  }

  /** Where the dot (gx, gy) of the cell number `i` goes. */
  function Xde(cx: nat, i: nat, gx: nat): nat
    requires cx > 0
  {
    DivMod(i, cx);
    6 * (i % cx) + gx
  }

  function Yde(cx: nat, i: nat, gy: nat): nat
    requires cx > 0
  {
    DivMod(i, cx);
    8 * (i / cx) + gy
  }

  lemma DotPlace(cx: nat, i: nat, gx: nat, gy: nat)
    requires cx > 0 && gx < 5 && gy < 7
    ensures var X, Y := Xde(cx, i, gx), Yde(cx, i, gy);
      X / 6 == i % cx && X % 6 == gx && Y / 8 == i / cx && Y % 8 == gy && CellNumber(cx, X, Y) == i
  {
    DivMod(i, cx);
    CellOf(i, cx, i % cx, i / cx);
  }

  /** Only (Xde, Yde) is the dot (gx, gy) of the cell number `i`. */
  lemma DotIsThere(cx: nat, i: nat, gx: nat, gy: nat, X: nat, Y: nat)
    requires cx > 0 && gx < 5 && gy < 7 && X / 6 < cx
    ensures CellNumber(cx, X, Y) == i && X % 6 == gx && Y % 8 == gy
        <==> X == Xde(cx, i, gx) && Y == Yde(cx, i, gy)
  {
    DotPlace(cx, i, gx, gy);
    CellOf(i, cx, X / 6, Y / 8);
    assert CellNumber(cx, X, Y) == Y / 8 * cx + X / 6;
    assert Xde(cx, i, gx) == 6 * (i % cx) + gx && Yde(cx, i, gy) == 8 * (i / cx) + gy;
    hide *;
  }

  /** Dots are drawn one after the other. */
  lemma NextInOrder(i: nat, gx: nat, gy: nat, j: nat, hx: nat, hy: nat)
    requires gx < 5 && gy < 7 && hx < 5 && hy < 7
    ensures Orden(j, hx, hy) < Orden(i, gx, gy) + 1 <==>
      Orden(j, hx, hy) < Orden(i, gx, gy) || (j == i && hx == gx && hy == gy)
  {
    if j < i {
      assert Orden(j, hx, hy) < 35 * i;
    } else if j > i {
      assert Orden(i, gx, gy) < 35 * j;
    } else if hy < gy {
      assert 5 * hy + hx < 5 * gy;
    } else if hy > gy {
      assert 5 * gy + gx < 5 * hy;
    }
  }

  lemma DotInRow(cx: nat, i: nat, gx: nat, gy: nat)
    requires cx > 0 && gx < 5 && gy < 7
    ensures Xde(cx, i, gx) / 6 < cx && Xde(cx, i, gx) % 6 == gx && Yde(cx, i, gy) % 8 == gy
  {
    DotPlace(cx, i, gx, gy);
    DivMod(i, cx);
    hide *;
  }

  lemma OneDotMoreAt(simbolos: seq<quinary>, cx: nat, i: nat, gx: nat, gy: nat, X: nat, Y: nat)
    requires cx > 0 && i < |simbolos| && gx < 5 && gy < 7
    ensures var n := Orden(i, gx, gy);
      Punto(simbolos, cx, n + 1, X, Y) ==
        if X == Xde(cx, i, gx) && Y == Yde(cx, i, gy) then Trazo(simbolos[i], gx, gy) else Punto(simbolos, cx, n, X, Y)
  {
    hide Trazo, CellNumber, Orden, Xde, Yde;
    DotInRow(cx, i, gx, gy);
    if X / 6 < cx {
      DotIsThere(cx, i, gx, gy, X, Y);
      if X % 6 < 5 && Y % 8 < 7 {
        NextInOrder(i, gx, gy, CellNumber(cx, X, Y), X % 6, Y % 8);
      }
    }
  }

  /** With `m` dots drawn the page is as with `n`, but for one. */
  ghost predicate DrawnOver(simbolos: seq<quinary>, cx: nat, n: nat, m: nat, X: nat, Y: nat, t: bool)
  {
    forall X': nat, Y': nat ::
      Punto(simbolos, cx, m, X', Y') == if X' == X && Y' == Y then t else Punto(simbolos, cx, n, X', Y')
  }

  lemma DrawnOverAll(simbolos: seq<quinary>, cx: nat, i: nat, gx: nat, gy: nat, n: nat, m: nat)
    requires cx > 0 && i < |simbolos| && gx < 5 && gy < 7 && n == Orden(i, gx, gy) && m == n + 1
    ensures DrawnOver(simbolos, cx, n, m, Xde(cx, i, gx), Yde(cx, i, gy), Trazo(simbolos[i], gx, gy))
  {
    hide Punto, Trazo, CellNumber, Orden, Xde, Yde;
    var x, y := Xde(cx, i, gx), Yde(cx, i, gy);
    forall X: nat, Y: nat
      ensures Punto(simbolos, cx, m, X, Y) ==
        if X == x && Y == y then Trazo(simbolos[i], gx, gy) else Punto(simbolos, cx, n, X, Y)
    {
      OneDotMoreAt(simbolos, cx, i, gx, gy, X, Y);
    }
  }

  lemma PageChanged(simbolos: seq<quinary>, cx: nat, n: nat, m: nat, X: nat, Y: nat, t: bool)
    requires DrawnOver(simbolos, cx, n, m, X, Y, t)
    ensures Changed(Pagina(simbolos, cx, n), Pagina(simbolos, cx, m), X, Y, t)
  {
    hide Punto, Trazo, CellNumber;
  }

  lemma OneDotMore(simbolos: seq<quinary>, cx: nat, i: nat, gx: nat, gy: nat)
    requires cx > 0 && i < |simbolos| && gx < 5 && gy < 7
    ensures var n := Orden(i, gx, gy);
      Changed(Pagina(simbolos, cx, n), Pagina(simbolos, cx, n + 1), Xde(cx, i, gx), Yde(cx, i, gy),
              Trazo(simbolos[i], gx, gy))
  {
    hide *;
    var n := Orden(i, gx, gy);
    DrawnOverAll(simbolos, cx, i, gx, gy, n, n + 1);
    PageChanged(simbolos, cx, n, n + 1, Xde(cx, i, gx), Yde(cx, i, gy), Trazo(simbolos[i], gx, gy));
  }

  // --------------------------------------------------------------- what is read

  /** The misread dots of a cell against the glyph of `s`, among its first `k`. */
  function Errores(h: Hoja, e: nat, cx: nat, i: nat, s: quinary, k: nat): nat
    requires h.Valid() && cx > 0 && k <= 35
  {
    if k == 0 then 0
    else
      var gx, gy := (k - 1) % 5, (k - 1) / 5;
      Errores(h, e, cx, i, s, k - 1) + One(Voto(h, Xde(cx, i, gx), Yde(cx, i, gy), e) != Trazo(s, gx, gy))
  }

  function Distancia(h: Hoja, e: nat, cx: nat, i: nat, s: quinary): nat
    requires h.Valid() && cx > 0
  {
    Errores(h, e, cx, i, s, 35)
  }

  /** No glyph is nearer to the cell, and of the nearest `s` is the first. */
  ghost predicate MasCercano(h: Hoja, e: nat, cx: nat, i: nat, s: quinary)
    requires h.Valid() && cx > 0
  {
    forall t: quinary :: if t < s then Distancia(h, e, cx, i, s) < Distancia(h, e, cx, i, t)
                         else Distancia(h, e, cx, i, s) <= Distancia(h, e, cx, i, t)
  }

  ghost predicate SimbolosLeidos(h: Hoja, e: nat, cx: nat, simbolos: seq<quinary>)
    requires h.Valid() && cx > 0
  {
    forall i :: 0 <= i < |simbolos| ==> MasCercano(h, e, cx, i, simbolos[i])
  }

  /** What `leer` answers: the bytes of the nearest symbols of the first cells. */
  ghost predicate Leido(h: Hoja, e: nat, cx: nat, cuantos: nat, out: seq<byte>)
    requires h.Valid() && cx > 0
  {
    exists simbolos: seq<quinary> ::
      && |simbolos| == cuantos * 8 / 5 + 1
      && SimbolosLeidos(h, e, cx, simbolos)
      && Unpacks(simbolos, cuantos, out)
  }

  /** What `imprimir` leaves on the sheet. */
  ghost predicate Impreso(h: Hoja, e: nat, cx: nat, datos: seq<byte>)
    requires h.Valid()
  {
    exists simbolos: seq<quinary> ::
      Packs(datos, simbolos) && Shows(h, e, Pagina(simbolos, cx, 35 * |simbolos|))
  }

  datatype Texto = Texto(escala: nat)
  {
    function Columnas(ancho: nat): nat
      requires escala > 0
    {
      Cell(ancho, ANCHO_CELDA * escala)
    }

    function Filas(alto: nat): nat
      requires escala > 0
    {
      Cell(alto, ALTO_CELDA * escala)
    }

    function CapacidadBytes(ancho: nat, alto: nat): nat
      requires escala > 0
    {
      ProductIsNat(Columnas(ancho), Filas(alto));
      Columnas(ancho) * Filas(alto) * 5 / 8
    }

    method Imprimir(datos: seq<byte>, ancho: nat, alto: nat) returns (hoja: Lienzo)
      requires escala > 0 && (datos != [] ==> Columnas(ancho) > 0)
      ensures fresh(hoja) && fresh(hoja.px) && hoja.Valid() && hoja.ancho == ancho && hoja.alto == alto
      ensures Impreso(hoja.Copia(), escala, Columnas(ancho), datos)
    {
      hide Shows, Pagina, Packs, Painted, Changed, Cell, Trazo, Xde, Yde, Lienzo.Copia, Hoja.Valid;
      hoja := new Lienzo.Nuevo(ancho, alto);
      var cx := Columnas(ancho);
      var simbolos := ABase32(datos);
      SomeSymbols(datos, simbolos);
      NothingDrawn(hoja.Copia(), escala, simbolos, cx);
      for i := 0 to |simbolos|
        invariant hoja.Valid() && fresh(hoja.px)
        invariant Shows(hoja.Copia(), escala, Pagina(simbolos, cx, 35 * i))
      {
        Dibujar(hoja, escala, simbolos, cx, i);
      }
    }

    method Leer(hoja: Lienzo, cuantos: nat) returns (out: seq<byte>)
      requires hoja.Valid() && escala > 0 && Columnas(hoja.ancho) > 0
      ensures Leido(hoja.Copia(), escala, Columnas(hoja.ancho), cuantos, out)
    {
      hide MasCercano, Unpacks, Cell, Lienzo.Copia, Hoja.Valid;
      var cx := Columnas(hoja.ancho);
      var necesarios := cuantos * 8 / 5 + 1;
      var simbolos: seq<quinary> := [];
      for i := 0 to necesarios
        invariant |simbolos| == i
        invariant SimbolosLeidos(hoja.Copia(), escala, cx, simbolos)
      {
        var s := LeerCelda(hoja, escala, cx, i);
        simbolos := simbolos + [s];
      }
      out := DeBase32(simbolos, cuantos);
    }
  }

  lemma SomeSymbols(datos: seq<byte>, simbolos: seq<quinary>)
    requires Packs(datos, simbolos)
    ensures simbolos != [] ==> datos != []
  {
    hide Flat;
  }

  lemma NothingDrawn(h: Hoja, e: nat, simbolos: seq<quinary>, cx: nat)
    requires h.Valid() && Blanca(h) && e > 0
    ensures Shows(h, e, Pagina(simbolos, cx, 0))
  {
    hide Hoja.Tinta, Hoja.Valid, Cell, CellNumber, Trazo;
  }

  /** The glyph of symbol `i`, dot by dot. */
  method Dibujar(hoja: Lienzo, e: nat, simbolos: seq<quinary>, cx: nat, i: nat)
    requires hoja.Valid() && e > 0 && cx > 0 && i < |simbolos|
    requires Shows(hoja.Copia(), e, Pagina(simbolos, cx, 35 * i))
    modifies hoja.px
    ensures hoja.Valid() && Shows(hoja.Copia(), e, Pagina(simbolos, cx, 35 * i + 35))
  {
    hide Shows, Pagina, Painted, Changed, Cell, Trazo, Xde, Yde, Lienzo.Copia, Hoja.Valid;
    for gy := 0 to ALTO_GLIFO
      invariant Shows(hoja.Copia(), e, Pagina(simbolos, cx, Orden(i, 0, gy)))
    {
      for gx := 0 to ANCHO_GLIFO
        invariant Shows(hoja.Copia(), e, Pagina(simbolos, cx, Orden(i, gx, gy)))
      {
        ghost var before := hoja.Copia();
        ghost var n := Orden(i, gx, gy);
        var tinta := Trazo(simbolos[i], gx, gy);
        var X, Y := Xde(cx, i, gx), Yde(cx, i, gy);
        PintarPunto(hoja, X, Y, e, tinta);
        OneDotMore(simbolos, cx, i, gx, gy);
        PaintShows(before, hoja.Copia(), X, Y, e, tinta, Pagina(simbolos, cx, n), Pagina(simbolos, cx, n + 1));
      }
    }
  }

  /** The nearest template, the first of them if there are several. */
  method LeerCelda(hoja: Lienzo, e: nat, cx: nat, i: nat) returns (mejor: quinary)
    requires hoja.Valid() && cx > 0
    ensures MasCercano(hoja.Copia(), e, cx, i, mejor)
  {
    hide Errores, Lienzo.Copia, Hoja.Valid;
    mejor := 0;
    var menor := 0xffff_ffff_ffff_ffff;
    for s := 0 to 32
      invariant s > 0 ==> mejor < s && menor == Distancia(hoja.Copia(), e, cx, i, mejor)
      invariant s == 0 ==> menor == 0xffff_ffff_ffff_ffff
      invariant forall t: quinary :: t < s ==>
        if t < mejor then menor < Distancia(hoja.Copia(), e, cx, i, t)
          else menor <= Distancia(hoja.Copia(), e, cx, i, t)
    {
      var d := MedirDistancia(hoja, e, cx, i, s);
      if d < menor {
        mejor, menor := s, d;
      }
    }
  }

  method MedirDistancia(hoja: Lienzo, e: nat, cx: nat, i: nat, s: quinary) returns (d: nat)
    requires hoja.Valid() && cx > 0
    ensures d == Distancia(hoja.Copia(), e, cx, i, s) <= 35
  {
    hide Trazo, Voto, Xde, Yde, Lienzo.Copia, Hoja.Valid;
    d := 0;
    for gy := 0 to ALTO_GLIFO
      invariant d == Errores(hoja.Copia(), e, cx, i, s, 5 * gy) <= 5 * gy
    {
      for gx := 0 to ANCHO_GLIFO
        invariant d == Errores(hoja.Copia(), e, cx, i, s, 5 * gy + gx) <= 5 * gy + gx
      {
        var esperado := Trazo(s, gx, gy);
        var negro := LeerPunto(hoja, Xde(cx, i, gx), Yde(cx, i, gy), e);
        if negro != esperado {
          d := d + 1;
        }
      }
    }
  }

  // ------------------------------------------------------------------- theorems

  lemma {:induction false} NoErrors(h: Hoja, e: nat, cx: nat, i: nat, s: quinary, k: nat)
    requires h.Valid() && cx > 0 && k <= 35
    requires forall gx: nat, gy: nat :: gx < 5 && gy < 7 ==>
      Voto(h, Xde(cx, i, gx), Yde(cx, i, gy), e) == Trazo(s, gx, gy)
    ensures Errores(h, e, cx, i, s, k) == 0
  {
    hide Trazo, Voto, Xde, Yde, Hoja.Valid;
    if k > 0 {
      NoErrors(h, e, cx, i, s, k - 1);
    }
  }

  /** The dots, among the first `k`, in which two glyphs differ. */
  function Separacion(s: quinary, t: quinary, k: nat): nat
    requires k <= 35
  {
    if k == 0 then 0
    else
      var gx, gy := (k - 1) % 5, (k - 1) / 5;
      Separacion(s, t, k - 1) + One(Trazo(s, gx, gy) != Trazo(t, gx, gy))
  }

  lemma {:induction false} SomeGap(s: quinary, t: quinary, k: nat, gx: nat, gy: nat)
    requires gx < 5 && gy < 7 && 5 * gy + gx < k <= 35 && Trazo(s, gx, gy) != Trazo(t, gx, gy)
    ensures Separacion(s, t, k) > 0
  {
    hide Trazo;
    if 5 * gy + gx < k - 1 {
      SomeGap(s, t, k - 1, gx, gy);
    }
  }

  lemma GlyphsApart(s: quinary, t: quinary)
    requires s != t
    ensures Separacion(s, t, 35) > 0
  {
    GlyphsDiffer(s, t);
    hide Trazo;
    var gx: nat, gy: nat :| Differ(s, t, gx, gy);
    SomeGap(s, t, 35, gx, gy);
  }

  /** What misreads a cell away from one glyph and towards another is at least what separates them. */
  lemma {:induction false} Triangle(h: Hoja, e: nat, cx: nat, i: nat, s: quinary, t: quinary, k: nat)
    requires h.Valid() && cx > 0 && k <= 35
    ensures Separacion(s, t, k) <= Errores(h, e, cx, i, s, k) + Errores(h, e, cx, i, t, k)
  {
    hide Trazo, Voto, Xde, Yde, Hoja.Valid;
    if k > 0 {
      Triangle(h, e, cx, i, s, t, k - 1);
    }
  }

  /** Fewer dots of the cell are misread than half of what separates its glyph from any other. */
  ghost predicate Legible(h: Hoja, e: nat, cx: nat, i: nat, s: quinary)
    requires h.Valid() && cx > 0
  {
    forall t: quinary :: t != s ==> 2 * Distancia(h, e, cx, i, s) < Separacion(s, t, 35)
  }

  lemma CellReads(h: Hoja, e: nat, cx: nat, i: nat, s: quinary, read: quinary)
    requires h.Valid() && cx > 0 && MasCercano(h, e, cx, i, read) && Legible(h, e, cx, i, s)
    ensures read == s
  {
    hide Trazo, Voto, Xde, Yde, Hoja.Valid, Errores, Separacion;
    Triangle(h, e, cx, i, s, read, 35);
    assert Distancia(h, e, cx, i, read) <= Distancia(h, e, cx, i, s);
  }

  lemma AllDotsLegible(h: Hoja, e: nat, cx: nat, i: nat, s: quinary)
    requires h.Valid() && cx > 0
    requires forall gx: nat, gy: nat :: gx < 5 && gy < 7 ==>
      Voto(h, Xde(cx, i, gx), Yde(cx, i, gy), e) == Trazo(s, gx, gy)
    ensures Legible(h, e, cx, i, s)
  {
    hide Trazo, Voto, Xde, Yde, Hoja.Valid, Errores, Separacion;
    NoErrors(h, e, cx, i, s, 35);
    forall t: quinary | t != s
      ensures Separacion(s, t, 35) > 0
    {
      GlyphsApart(s, t);
    }
  }

  /** A dot of a cell within the columns and rows is on the sheet. */
  lemma DotInSheet(n: nat, a: nat, r: nat, e: nat, total: nat)
    requires e > 0 && r < a && n < Cell(total, a * e)
    ensures 0 <= (a * n + r) * e && (a * n + r) * e + e <= total
  {
    var b := a * e;
    ProductIsNat(a, e);
    InTheSheet(n, b, total);
    MulAssociates(n, a, e);
    var p := n * a;
    assert n * b == p * e && a * n == p;
    SumTimes(p, r, e);
    SumTimes(r + 1, a - r - 1, e);
    SumTimes(r, 1, e);
    ProductIsNat(a - r - 1, e);
    ProductIsNat(p + r, e);
  }

  lemma DotReads(h: Hoja, g: Hoja, e: nat, cx: nat, cy: nat, simbolos: seq<quinary>, i: nat, gx: nat, gy: nat)
    requires h.Valid() && g.Valid() && e > 0 && gx < 5 && gy < 7
    requires cx > 0 && cx == Cell(h.ancho, 6 * e) && cy == Cell(h.alto, 8 * e) && i < |simbolos| <= cx * cy
    requires Shows(h, e, Pagina(simbolos, cx, 35 * |simbolos|))
    ensures var X, Y := Xde(cx, i, gx), Yde(cx, i, gy);
      Voto(g, X, Y, e) == Trazo(simbolos[i], gx, gy) <==>
        Stands(Trazo(simbolos[i], gx, gy), InvertedIn(h, g, X, Y, e), e)
  {
    var X, Y := Xde(cx, i, gx), Yde(cx, i, gy);
    var t := Trazo(simbolos[i], gx, gy);
    hide Trazo;
    DotOnSheet(e, cx, cy, h.ancho, h.alto, i, gx, gy);
    DotShown(simbolos, cx, i, gx, gy);
    hide *;
    ShowsUniform(h, e, Pagina(simbolos, cx, 35 * |simbolos|), X, Y);
    DamagedDot(h, g, X, Y, e, t);
  }

  lemma DotOnSheet(e: nat, cx: nat, cy: nat, ancho: nat, alto: nat, i: nat, gx: nat, gy: nat)
    requires e > 0 && gx < 5 && gy < 7 && cx > 0 && cx == Cell(ancho, 6 * e) && cy == Cell(alto, 8 * e) && i < cx * cy
    ensures var X, Y := Xde(cx, i, gx), Yde(cx, i, gy);
      0 <= X * e && X * e + e <= ancho && 0 <= Y * e && Y * e + e <= alto
  {
    ModuleInSheet(i, cx, cy);
    DivMod(i, cx);
    hide Cell;
    DotInSheet(i % cx, 6, gx, e, ancho);
    DotInSheet(i / cx, 8, gy, e, alto);
  }

  lemma DotShown(simbolos: seq<quinary>, cx: nat, i: nat, gx: nat, gy: nat)
    requires cx > 0 && i < |simbolos| && gx < 5 && gy < 7
    ensures Pagina(simbolos, cx, 35 * |simbolos|)(Xde(cx, i, gx), Yde(cx, i, gy)) == Trazo(simbolos[i], gx, gy)
  {
    DotPlace(cx, i, gx, gy);
    DivMod(i, cx);
    hide Trazo, CellNumber;
  }

  lemma DamagedDot(h: Hoja, g: Hoja, X: nat, Y: nat, e: nat, t: bool)
    requires h.Valid() && g.Valid()
    requires X * e >= 0 && Y * e >= 0 && Uniform(h, X * e, Y * e, e, e, t)
    ensures Voto(g, X, Y, e) == t <==> Stands(t, InvertedIn(h, g, X, Y, e), e)
  {
    hide Voto, InvertedIn, Uniform;
    DamagedSquare(h, g, X, Y, e, t);
  }

  /** Fewer than half of the points of every dot of the first `n` cells differ. */
  ghost predicate MostlyIntact(h: Hoja, g: Hoja, e: nat, cx: nat, n: nat)
    requires h.Valid() && g.Valid() && cx > 0
  {
    forall i: nat, gx: nat, gy: nat :: i < n && gx < 5 && gy < 7 ==>
      2 * InvertedIn(h, g, Xde(cx, i, gx), Yde(cx, i, gy), e) < e * e
  }

  lemma SymbolsFit(t: Texto, ancho: nat, alto: nat, datos: seq<byte>, simbolos: seq<quinary>)
    requires t.escala > 0 && |datos| <= t.CapacidadBytes(ancho, alto) && Packs(datos, simbolos)
    ensures |simbolos| <= t.Columnas(ancho) * t.Filas(alto) && |simbolos| == (8 * |datos| + 4) / 5
  {
    hide Flat, Cell;
  }

  /** Every cell legible: the data is read back. */
  lemma LegibleTextReads(t: Texto, datos: seq<byte>, simbolos: seq<quinary>, g: Hoja, out: seq<byte>)
    requires t.escala > 0 && g.Valid() && t.Columnas(g.ancho) > 0
    requires Packs(datos, simbolos) && Leido(g, t.escala, t.Columnas(g.ancho), |datos|, out)
    requires forall i :: 0 <= i < |simbolos| ==> Legible(g, t.escala, t.Columnas(g.ancho), i, simbolos[i])
    ensures out == datos
  {
    hide Unpacks, Legible, MasCercano, Flat, Hoja.Valid, Cell;
    var e, cx := t.escala, t.Columnas(g.ancho);
    var read: seq<quinary> :| |read| == |datos| * 8 / 5 + 1 && SimbolosLeidos(g, e, cx, read) &&
      Unpacks(read, |datos|, out);
    forall i | 0 <= i < |simbolos|
      ensures read[i] == simbolos[i]
    {
      CellReads(g, e, cx, i, simbolos[i], read[i]);
    }
    assert simbolos == read[..|simbolos|];
    hide *;
    UnpackPacked(datos, simbolos, read, out);
  }

  lemma IntactIsLegible(h: Hoja, g: Hoja, e: nat, cx: nat, cy: nat, simbolos: seq<quinary>, i: nat)
    requires h.Valid() && g.Valid() && e > 0
    requires cx > 0 && cx == Cell(h.ancho, 6 * e) && cy == Cell(h.alto, 8 * e) && i < |simbolos| <= cx * cy
    requires Shows(h, e, Pagina(simbolos, cx, 35 * |simbolos|)) && MostlyIntact(h, g, e, cx, |simbolos|)
    ensures Legible(g, e, cx, i, simbolos[i])
  {
    hide Hoja.Valid, Cell, Trazo, Voto, InvertedIn, Shows, Pagina, Xde, Yde, Legible;
    forall gx: nat, gy: nat | gx < 5 && gy < 7
      ensures Voto(g, Xde(cx, i, gx), Yde(cx, i, gy), e) == Trazo(simbolos[i], gx, gy)
    {
      DotReads(h, g, e, cx, cy, simbolos, i, gx, gy);
    }
    AllDotsLegible(g, e, cx, i, simbolos[i]);
  }

  /** Data within the capacity is read back from a print in which every dot kept more than half of its points. */
  lemma TextReads(t: Texto, datos: seq<byte>, h: Hoja, g: Hoja, out: seq<byte>)
    requires t.escala > 0 && h.Valid() && g.Valid() && g.ancho == h.ancho && g.alto == h.alto
    requires t.Columnas(h.ancho) > 0 && |datos| <= t.CapacidadBytes(h.ancho, h.alto)
    requires Impreso(h, t.escala, t.Columnas(h.ancho), datos)
    requires MostlyIntact(h, g, t.escala, t.Columnas(h.ancho), (8 * |datos| + 4) / 5)
    requires Leido(g, t.escala, t.Columnas(h.ancho), |datos|, out)
    ensures out == datos
  {
    var e, cx, cy := t.escala, t.Columnas(h.ancho), t.Filas(h.alto);
    var simbolos: seq<quinary> :| Packs(datos, simbolos) && Shows(h, e, Pagina(simbolos, cx, 35 * |simbolos|));
    SymbolsFit(t, h.ancho, h.alto, datos, simbolos);
    assert cx == Cell(h.ancho, 6 * e) && cy == Cell(h.alto, 8 * e);
    hide *;
    forall i | 0 <= i < |simbolos|
      ensures Legible(g, e, cx, i, simbolos[i])
    {
      IntactIsLegible(h, g, e, cx, cy, simbolos, i);
    }
    LegibleTextReads(t, datos, simbolos, g, out);
  }

  /** A clean print is one of those. */
  lemma CleanTextReads(t: Texto, datos: seq<byte>, h: Hoja, out: seq<byte>)
    requires t.escala > 0 && h.Valid()
    requires t.Columnas(h.ancho) > 0 && |datos| <= t.CapacidadBytes(h.ancho, h.alto)
    requires Impreso(h, t.escala, t.Columnas(h.ancho), datos)
    requires Leido(h, t.escala, t.Columnas(h.ancho), |datos|, out)
    ensures out == datos
  {
    var e, cx := t.escala, t.Columnas(h.ancho);
    Square(e);
    hide Impreso, Leido, Cell, Hoja.Valid, Xde, Yde, Texto.CapacidadBytes;
    forall i: nat, gx: nat, gy: nat | gx < 5 && gy < 7
      ensures 2 * InvertedIn(h, h, Xde(cx, i, gx), Yde(cx, i, gy), e) < e * e
    {
      Corner(Xde(cx, i, gx), Yde(cx, i, gy), e);
      NothingInverted(h, Xde(cx, i, gx) * e, Yde(cx, i, gy) * e, e, e);
    }
    TextReads(t, datos, h, h, out);
  }
}
