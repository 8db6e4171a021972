/** Where everything lies in a container with deniability, and which orders are refused, in numbers. */
module NegacionLayout {
  import opened Results
  import opened Bytes
  import opened Aead
  import opened NegacionSpec
  import opened NegacionTheorems
  import Padme
  import Aleatorio

  /** Sixteen bytes of salt, and the rest in two halves; the hidden region takes the odd byte. */
  lemma RegionsAreHalves(contenedor: seq<byte>)
    requires |contenedor| >= 16
    ensures contenedor == contenedor[..16] + Region(contenedor, Senuelo) + Region(contenedor, Oculto)
    ensures Sal(contenedor) == contenedor[..16]
    ensures |Region(contenedor, Senuelo)| <= |Region(contenedor, Oculto)| <= |Region(contenedor, Senuelo)| + 1
    ensures |Region(contenedor, Senuelo)| + |Region(contenedor, Oculto)| == |contenedor| - 16
  {
  }

  /** What a creation wrote: the salt drawn, the decoy's cipher, and the hidden one's or the background. */
  lemma WrittenLayout(seal: Seal, norm: Norm, pedido: Pedido, p: Partes, g: Tape, desde: nat)
    requires IsSeal(seal) && pedido.Representable()
    requires p.De(seal, norm, pedido, g, desde, Crear(seal, norm, pedido, g, desde))
    ensures |p.azar| == pedido.total >= 1024
    ensures Crear(seal, norm, pedido, g, desde).result
      == Ok(p.azar[..16] + p.s.cipher + if pedido.oculto.Some? then p.o.cipher else Region(p.azar, Oculto))
  {
    hide Crear, Llenar, Padme.Fits, Padme.Frame, ToBe;
    var r := p.Escrito(pedido);
    RegionsAreHalves(r);
  }

  /** Salt and total length under the tag: the length in eight bytes, most significant first. */
  lemma AadLayout(sal: Salt, total: nat)
    requires total < Pow256(8)
    ensures var aad := DatoAutenticado(sal, total);
      && |aad| == 24 && aad[..16] == sal
      && At64(aad, 16) == total
  {
    var aad := DatoAutenticado(sal, total);
    assert aad[16..24] == ToBe(total, 8);
    FromToBe(total, 8);
    Field64(aad, 16);
    hide ToBe, FromBe, Pow256, At64;
  }

  // ------------------------------------------------------------ what is discarded

  /** The value of a hexadecimal digit in lower case. */
  function HexValue(c: char): nat
  {
    if '0' <= c <= '9' then c as int - '0' as int
    else if 'a' <= c <= 'f' then 10 + (c as int - 'a' as int) else 16
  }

  /** Two digits for each byte, the higher first. */
  lemma {:induction false} HexDigits(b: seq<byte>, i: nat)
    requires i < |b|
    ensures |Hex(b)| == 2 * |b|
    ensures HexValue(Hex(b)[2 * i]) == b[i] / 16 && HexValue(Hex(b)[2 * i + 1]) == b[i] % 16
  {
    HexLength(b);
    if i == 0 {
      DigitValue(b[0] / 16);
      DigitValue(b[0] % 16);
    } else {
      HexDigits(b[1..], i - 1);
      assert b[1..][i - 1] == b[i];
    }
  }

  lemma {:induction false} HexLength(b: seq<byte>)
    ensures |Hex(b)| == 2 * |b|
  {
    if b != [] {
      HexLength(b[1..]);
    }
  }

  lemma DigitValue(d: nat)
    requires d < 16
    ensures HexValue("0123456789abcdef"[d]) == d
  {
  }

  // ------------------------------------------------------------ what fills a region up

  /** The plain text of a region is the frame of the data and then bytes that the source delivered, at the first,
   *  second or third request, and that pass the health test.
   */
  lemma RestIsDrawn(datos: seq<byte>, largo: nat, v: Volumen, g: Tape, desde: nat)
    requires Padme.Fits(Padme.LEN_PREFIX + |datos|)
    requires ClaroDeRegion(datos, largo, v, g, desde).result.Ok?
    ensures |Padme.Frame(datos)| <= largo
    ensures exists i | DeliveredAt(g, desde, largo - |Padme.Frame(datos)|, i) ::
      ClaroDeRegion(datos, largo, v, g, desde).result
        == Ok(Padme.Frame(datos) + Aleatorio.Bytes(g(i).datos, largo - |Padme.Frame(datos)|))
  {
    var n := largo - |Padme.Frame(datos)|;
    if n >= 0 {
      DrawnFrom(g, desde, n);
    }
    hide Padme.Frame, Padme.Fits, Llenar, DeliveredAt, Aleatorio.Bytes;
  }

  /** The request number `i`, one of three from `desde` on, was answered with healthy bytes. */
  ghost predicate DeliveredAt(g: Tape, desde: nat, n: nat, i: nat)
  {
    desde <= i < desde + 3 && g(i).Entrega? && Aleatorio.Healthy(Aleatorio.Bytes(g(i).datos, n))
  }

  lemma DrawnFrom(g: Tape, desde: nat, n: nat)
    ensures Llenar(g, desde, n).result.Ok? ==>
      exists i :: DeliveredAt(g, desde, n, i)
        && Llenar(g, desde, n).result.value == Aleatorio.Bytes(g(i).datos, n)
  {
    Aleatorio.LlenarGuarantees(g, desde, n);
    var l := Aleatorio.LlenarSpec(g, desde, n);
    hide Aleatorio.Healthy, Aleatorio.Bytes, Aleatorio.LlenarSpec;
    if Llenar(g, desde, n).result.Ok? {
      var i := desde + l.pedidas - 1;
      assert DeliveredAt(g, desde, n, i) && l.buffer == Aleatorio.Bytes(g(i).datos, n);
    }
  }

  // ------------------------------------------------------------ what is refused

  /** The bytes that data take in a region: the length in front, padded. */
  function Ocupa(datos: seq<byte>): nat
    requires Padme.Fits(8 + |datos|)
  {
    Padme.PaddedLen(8 + |datos|)
  }

  /** What a region holds besides its tag: half of what the salt leaves, the odd byte in the second. */
  function Sitio(total: nat, v: Volumen): nat
    requires total >= 1024
  {
    var half := (total - 16) / 2;
    if v == Senuelo then half - 16 else total - 16 - half - 16
  }

  /** Every refusal in its order and with its figures: no decoy, too small, one passphrase twice, the decoy or the
   *  hidden data too long for half of what is left of the container after salt and tags.
   */
  lemma RefusedExactly(norm: Norm, pedido: Pedido)
    requires pedido.Representable()
    ensures pedido.senuelo == [] ==> Queja(norm, pedido) == Some(SenueloVacio)
    ensures pedido.senuelo != [] && pedido.total < 1024 ==>
      Queja(norm, pedido) == Some(TamanoInsuficiente(pedido.total, 1024))
    ensures pedido.senuelo != [] && pedido.total >= 1024 ==>
      var twice := pedido.oculto.Some? && norm(pedido.claveSenuelo) == norm(pedido.oculto.value.1);
      var first, second := Sitio(pedido.total, Senuelo), Sitio(pedido.total, Oculto);
      && (twice ==> Queja(norm, pedido) == Some(MismaContrasena))
      && (!twice && Ocupa(pedido.senuelo) > first ==>
            Queja(norm, pedido) == Some(NoCabe(Senuelo, first, Ocupa(pedido.senuelo))))
      && (!twice && Ocupa(pedido.senuelo) <= first ==>
            if pedido.oculto.Some? && Ocupa(pedido.oculto.value.0) > second
            then Queja(norm, pedido) == Some(NoCabe(Oculto, second, Ocupa(pedido.oculto.value.0)))
            else Queja(norm, pedido) == None)
  {
    hide Padme.Frame, Padme.Fits, Ocupa, Largo, Sitio;
    FrameSize(pedido.senuelo);
    if pedido.oculto.Some? {
      FrameSize(pedido.oculto.value.0);
    }
    if pedido.total >= 1024 {
      RoomIs(pedido.total);
    }
  }

  /** What a creation that succeeds costs, with or without a hidden volume: for each half a derivation, and a
   *  sealing of all that it holds under twenty-four bytes of associated data.
   */
  lemma CreationCost(seal: Seal, norm: Norm, pedido: Pedido, g: Tape, desde: nat)
    requires IsSeal(seal) && pedido.Representable()
    ensures var c := Crear(seal, norm, pedido, g, desde);
      c.result.Ok? ==>
        && pedido.total >= 1024
        && c.ops == [Derives(pedido.params), SealsBytes(Sitio(pedido.total, Senuelo), 24),
                     Derives(pedido.params), SealsBytes(Sitio(pedido.total, Oculto), 24)]
  {
    hide Crear, Largo, Sitio, EsSello, Llenar, Segundo, Padme.Frame, Padme.Fits, ToBe;
    var c := Crear(seal, norm, pedido, g, desde);
    if c.result.Ok? {
      var p := CreacionLograda(seal, norm, pedido, g, desde);
      RoomIs(pedido.total);
    }
  }

  lemma FrameSize(datos: seq<byte>)
    requires Padme.Fits(8 + |datos|)
    ensures |Padme.Frame(datos)| == Ocupa(datos)
  {
    Padme.FrameRoundTrip(datos, []);
    hide Padme.Fits, Padme.PaddedLen;
  }

  lemma RoomIs(total: nat)
    requires total >= 1024
    ensures total >= TAMANO_MINIMO
    ensures Largo(total, Senuelo) - TAG_LEN == Sitio(total, Senuelo)
    ensures Largo(total, Oculto) - TAG_LEN == Sitio(total, Oculto)
  {
  }
}
