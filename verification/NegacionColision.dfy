/** Which decoys are safe. Without a hidden volume, a creation discards a random passphrase and leaves the random
 *  background where the discarded volume would be. The decoy fails to open exactly if that passphrase normalises to
 *  the decoy's and the background is what the discarded volume was sealed to. Neither `src/negacion.rs` nor the health
 *  test of `src/aleatorio.rs` excludes it, so the decoy is safe on every tape exactly if the first can never be.
 */
module NegacionColision {
  import opened Results
  import opened Bytes
  import opened Aead
  import opened NegacionSpec
  import opened NegacionTheorems
  import Padme
  import Aleatorio

  /** Some passphrase that a creation may discard, the hexadecimal digits of 32 healthy bytes, normalises alike. */
  ghost predicate Descartable(norm: Norm, clave: string)
  {
    exists b: seq<byte> :: Descarta(norm, clave, b)
  }

  ghost predicate Descarta(norm: Norm, clave: string, b: seq<byte>)
  {
    |b| == 32 && Aleatorio.Healthy(b) && norm(Hex(b)) == norm(clave)
  }

  /** Whatever the cipher, the random source and the earlier seals: once created, the decoy opens. */
  ghost predicate Segura(norm: Norm, pedido: Pedido)
    requires pedido.Representable()
  {
    forall seal: Seal, g: Tape, desde: nat, p: Partes, previo: Log, log: Log ::
      IsSeal(seal) && p.De(seal, norm, pedido, g, desde, Crear(seal, norm, pedido, g, desde))
      && LogAfter(seal, previo, p, log) ==>
        Abrir(log, norm, p.Escrito(pedido), pedido.claveSenuelo, Some(pedido.params))
        == Ok(Apertura(Senuelo, pedido.senuelo))
  }

  // --------------------------------------------------- what a creation discards

  /** The seals of a creation without a hidden volume: the second is under the passphrase drawn for it. */
  lemma SecondIsDiscarded(seal: Seal, norm: Norm, pedido: Pedido, g: Tape, azar: seq<byte>, desde: nat)
    returns (b: seq<byte>)
    requires IsSeal(seal) && pedido.Representable() && |azar| == pedido.total >= TAMANO_MINIMO && pedido.oculto == None
    requires CrearSobre(seal, norm, pedido, g, azar, desde).result.Ok?
    ensures |b| == 32 && Aleatorio.Healthy(b)
    ensures var c := CrearSobre(seal, norm, pedido, g, azar, desde);
      |c.sellos| == 2 && c.sellos[1].key == Clave(Maestra(norm, Hex(b), Sal(azar), pedido.params), Oculto)
  {
    EmptyFits();
    var s := SellarRegion(seal, norm, pedido.params, pedido.claveSenuelo, pedido.senuelo,
                          Largo(pedido.total, Senuelo), Senuelo,
                          DatoAutenticado(Sal(azar), pedido.total), Sal(azar), g, desde);
    var relleno := Llenar(g, s.next, 32);
    b := relleno.result.value;
    DrawnIsHealthy(g, s.next, 32);
    hide Llenar, ConRegion, Hex, Padme.Fits, Padme.Frame, DatoAutenticado, ClaroDeRegion, Aleatorio.Healthy;
  }

  lemma DrawnIsHealthy(g: Tape, desde: nat, n: nat)
    ensures Llenar(g, desde, n).result.Ok? ==> Aleatorio.Healthy(Llenar(g, desde, n).result.value)
  {
    Aleatorio.LlenarGuarantees(g, desde, n);
    hide Aleatorio.Healthy, Aleatorio.LlenarSpec;
  }

  /** So what was discarded normalises like the digits of 32 healthy bytes. */
  lemma DiscardedIsDrawn(seal: Seal, norm: Norm, pedido: Pedido, p: Partes, g: Tape, desde: nat)
    requires IsSeal(seal) && pedido.Representable() && pedido.oculto == None
    requires p.De(seal, norm, pedido, g, desde, Crear(seal, norm, pedido, g, desde))
    ensures Descartable(norm, p.descarte)
  {
    var azar := Llenar(g, desde, pedido.total).result.value;
    var next := Llenar(g, desde, pedido.total).next;
    assert Crear(seal, norm, pedido, g, desde) == CrearSobre(seal, norm, pedido, g, azar, next);
    var b := SecondIsDiscarded(seal, norm, pedido, g, azar, next);
    hide Crear, CrearSobre, Llenar, Hex, Padme.Fits, Padme.Frame, ToBe, IsSeal, Aleatorio.Healthy;
    assert Descarta(norm, p.descarte, b);
  }

  // ---------------------------------------------------------- a tape that fails

  /** A box that adds its place to every byte, and counts on for the tag. */
  function Masked(p: seq<byte>): (c: seq<byte>)
    ensures |c| == |p| + TAG_LEN
  {
    seq(|p| + TAG_LEN, i requires 0 <= i < |p| + TAG_LEN => if i < |p| then (p[i] + i) % 0x100 else i % 0x100)
  }

  function BoxSeal(): Seal { (k: Key, n: Nonce, p: seq<byte>, a: seq<byte>) => Masked(p) }

  lemma MaskedInjective(p: seq<byte>, q: seq<byte>)
    requires Masked(p) == Masked(q)
    ensures p == q
  {
    var c, d := Masked(p), Masked(q);
    assert |c| == |d|;
    forall i | 0 <= i < |p|
      ensures p[i] == q[i]
    {
      assert c[i] == (p[i] + i) % 0x100 && d[i] == (q[i] + i) % 0x100;
    }
  }

  lemma BoxIsSeal()
    ensures IsSeal(BoxSeal())
  {
    forall p: seq<byte>, q: seq<byte> | Masked(p) == Masked(q)
      ensures p == q
    {
      MaskedInjective(p, q);
    }
    hide Masked;
  }

  /** What the source delivers to fill the regions up. */
  function Cuenta(i: nat): byte { i % 0x100 }

  /** The bytes of the discarded volume, without the tag. */
  function Claro(total: nat): nat
    requires total >= TAMANO_MINIMO
  {
    Largo(total, Oculto) - TAG_LEN
  }

  /** What the discarded volume is sealed to. */
  function Cifra(claro: nat, i: nat): byte
  {
    if i < 8 then i else if i < claro then ((i - 8) % 0x100 + i) % 0x100 else i % 0x100
  }

  function FondoEn(total: nat, i: nat): byte
    requires total >= TAMANO_MINIMO
  {
    if i < Corte(total) then i % 0x100 else Cifra(Claro(total), i - Corte(total))
  }

  /** The background: counting, and from the hidden region on what the discarded volume is sealed to. */
  function Fondo(total: nat): nat -> byte
    requires total >= TAMANO_MINIMO
  {
    (i: nat) => FondoEn(total, i)
  }

  /** The bytes `b`, and then counting on. */
  function Seguido(b: seq<byte>): nat -> byte
    requires |b| == 32
  {
    (i: nat) => if i < 32 then b[i] else (b[31] + (i - 31)) % 0x100
  }

  function Entregado(total: nat, b: seq<byte>, n: nat): nat -> byte
    requires total >= TAMANO_MINIMO && |b| == 32
  {
    if n == 0 then Fondo(total) else if n == 2 then Seguido(b) else Cuenta
  }

  function Cinta(total: nat, b: seq<byte>): Tape
    requires total >= TAMANO_MINIMO && |b| == 32
  {
    (n: nat) => Aleatorio.Entrega(Entregado(total, b, n))
  }

  function Azar(total: nat): (s: seq<byte>)
    requires total >= TAMANO_MINIMO
    ensures |s| == total
  {
    Aleatorio.Bytes(Fondo(total), total)
  }

  lemma NextDiffers(total: nat, i: nat)
    requires total >= TAMANO_MINIMO
    requires i != Corte(total) - 1 && i != Corte(total) + 7 && i != Corte(total) + Claro(total) - 1
    ensures FondoEn(total, i) != FondoEn(total, i + 1)
  {
    if Corte(total) + 8 <= i < Corte(total) + Claro(total) - 1 {
      TwoApart(i - Corte(total));
    }
  }

  lemma TwoApart(i: nat)
    requires 8 <= i
    ensures ((i - 8) % 0x100 + i) % 0x100 != ((i - 7) % 0x100 + (i + 1)) % 0x100
  {
    var r, x := (i - 8) % 0x100, (i - 8) % 0x100 + i;
    NextRemainder(i - 8);
    PlusTwo(x);
  }

  lemma NextRemainder(i: nat)
    ensures (i + 1) % 0x100 == if i % 0x100 == 0xff then 0 else i % 0x100 + 1
  {
  }

  lemma PlusTwo(x: nat)
    ensures (x + 2) % 0x100 != x % 0x100
    ensures x >= 0xfe ==> (x - 0xfe) % 0x100 == (x + 2) % 0x100
  {
  }

  lemma FondoIsHealthy(total: nat, n: nat)
    requires total >= TAMANO_MINIMO
    ensures Aleatorio.Healthy(Aleatorio.Bytes(Fondo(total), n))
  {
    var s := Aleatorio.Bytes(Fondo(total), n);
    var corte, claro := Corte(total), Claro(total);
    assert claro > 9;
    hide FondoEn, Corte, Claro;
    forall p: nat | p < |s|
      ensures !Aleatorio.RunAt(s, p)
    {
      var j := if p == corte - 1 || p == corte + 7 || p == corte + claro - 1 then p + 1 else p;
      NextDiffers(total, j);
      if j + 1 < |s| {
        assert s[j] == FondoEn(total, j) && s[j + 1] == FondoEn(total, j + 1);
      }
    }
  }

  lemma SeguidoIsHealthy(b: seq<byte>, n: nat)
    requires |b| == 32 && Aleatorio.Healthy(b)
    ensures Aleatorio.Healthy(Aleatorio.Bytes(Seguido(b), n))
  {
    var s := Aleatorio.Bytes(Seguido(b), n);
    forall p: nat | p < |s|
      ensures !Aleatorio.RunAt(s, p)
    {
      if p + 8 <= 32 {
        assert !Aleatorio.RunAt(b, p);
        if Aleatorio.RunAt(s, p) {
          assert forall j :: p <= j < p + 8 ==> b[j] == s[j];
        }
      } else {
        var j := if p < 31 then 31 else p;
        if j + 1 < |s| {
          StepDiffers(b[31], j - 31);
          assert s[j] == (b[31] + (j - 31)) % 0x100 && s[j + 1] == (b[31] + (j - 30)) % 0x100;
        }
      }
    }
  }

  lemma StepDiffers(x: nat, k: nat)
    ensures (x + k) % 0x100 != (x + k + 1) % 0x100
  {
  }

  /** A healthy delivery is taken at the first request. */
  lemma FirstDelivery(g: Tape, desde: nat, n: nat, f: nat -> byte)
    requires g(desde) == Aleatorio.Entrega(f) && Aleatorio.Healthy(Aleatorio.Bytes(f, n))
    ensures Llenar(g, desde, n) == Draw(Ok(Aleatorio.Bytes(f, n)), desde + 1)
  {
    Aleatorio.DiagnosisMeaning(Aleatorio.Bytes(f, n));
    hide Aleatorio.Healthy, Aleatorio.Diagnosis;
  }

  lemma Draws(total: nat, b: seq<byte>, desde: nat, n: nat)
    requires total >= TAMANO_MINIMO && |b| == 32 && Aleatorio.Healthy(b)
    ensures Llenar(Cinta(total, b), desde, n) == Draw(Ok(Aleatorio.Bytes(Entregado(total, b, desde), n)), desde + 1)
  {
    FondoIsHealthy(total, n);
    SeguidoIsHealthy(b, n);
    CountingIsHealthy(Cuenta, n);
    hide Aleatorio.Healthy, Fondo, Seguido, Llenar;
    FirstDelivery(Cinta(total, b), desde, n, Entregado(total, b, desde));
  }

  lemma CintaFiable(total: nat, b: seq<byte>)
    requires total >= TAMANO_MINIMO && |b| == 32 && Aleatorio.Healthy(b)
    ensures Fiable(Cinta(total, b))
  {
    hide Aleatorio.Healthy, Llenar, Cinta, Entregado;
    forall desde: nat, n: nat
      ensures Llenar(Cinta(total, b), desde, n).result.Ok?
    {
      Draws(total, b, desde, n);
    }
  }

  lemma TheBytes(total: nat, b: seq<byte>)
    requires total >= TAMANO_MINIMO && |b| == 32
    ensures Aleatorio.Bytes(Entregado(total, b, 2), 32) == b
  {
  }

  lemma FrameOfNothing()
    ensures Padme.Fits(Padme.LEN_PREFIX) && Padme.Frame([]) == ZeroBytes(8)
  {
    EmptyFits();
    assert Padme.Pow2(3) == 8 && Padme.Pow2(4) == 16;
    Padme.ExponentIs(8, 3);
    assert Padme.BitLength(3) == 2 && Padme.Pow2(1) == 2;
    assert Padme.PaddedLen(8) == 8;
    ZeroBe(8);
  }

  lemma {:induction false} ZeroBe(k: nat)
    ensures ToBe(0, k) == ZeroBytes(k)
  {
    if k > 0 {
      ZeroBe(k - 1);
    }
  }

  /** The plain text of the discarded volume: the frame of nothing, then counting. */
  function Descartado(total: nat): seq<byte>
    requires total >= TAMANO_MINIMO
  {
    ZeroBytes(8) + Aleatorio.Bytes(Cuenta, Claro(total) - 8)
  }

  /** A region for nothing holds eight zero bytes and what is drawn. */
  lemma PlainOfNothing(largo: nat, g: Tape, desde: nat)
    requires largo >= 8
    ensures Padme.Fits(Padme.LEN_PREFIX)
    ensures var cola := Llenar(g, desde, largo - 8).result;
      cola.Ok? ==> ClaroDeRegion([], largo, Oculto, g, desde).result == Ok(ZeroBytes(8) + cola.value)
  {
    FrameOfNothing();
    hide Padme.Frame, Padme.Fits, Llenar;
  }

  /** The draw after the discarded passphrase fills the discarded volume up. */
  lemma DiscardedPlain(total: nat, b: seq<byte>)
    requires total >= TAMANO_MINIMO && |b| == 32 && Aleatorio.Healthy(b)
    ensures Padme.Fits(Padme.LEN_PREFIX)
    ensures ClaroDeRegion([], Claro(total), Oculto, Cinta(total, b), 3).result == Ok(Descartado(total))
  {
    hide Padme.Frame, Padme.Fits, Llenar, Cinta, ClaroDeRegion, Fondo, Seguido, ZeroBytes, Aleatorio.Bytes;
    hide Aleatorio.Healthy;
    PlainOfNothing(Claro(total), Cinta(total, b), 3);
    Draws(total, b, 3, Claro(total) - 8);
  }

  /** And it is sealed to the background of its region. */
  lemma DiscardedCipher(total: nat, k: Key, n: Nonce, a: seq<byte>)
    requires total >= TAMANO_MINIMO
    ensures BoxSeal()(k, n, Descartado(total), a) == Region(Azar(total), Oculto)
  {
    var c, r := Masked(Descartado(total)), Region(Azar(total), Oculto);
    forall i | 0 <= i < |c|
      ensures c[i] == r[i]
    {
      assert r[i] == FondoEn(total, Corte(total) + i) == Cifra(Claro(total), i);
      if 8 <= i < Claro(total) {
        assert Descartado(total)[i] == Cuenta(i - 8);
      }
    }
  }

  /** What the second seal of that creation is. */
  function SelloDescartado(norm: Norm, pedido: Pedido, b: seq<byte>): Sealed
    requires pedido.total >= TAMANO_MINIMO
  {
    var sal := Sal(Azar(pedido.total));
    SelloDe(BoxSeal(), Maestra(norm, Hex(b), sal, pedido.params), Oculto, Descartado(pedido.total),
            DatoAutenticado(sal, pedido.total))
  }

  /** An order that only the collision can spoil: nothing to complain of, and no hidden volume. */
  ghost predicate SinOculto(norm: Norm, pedido: Pedido)
  {
    pedido.Representable() && Queja(norm, pedido) == None && pedido.oculto == None
  }

  lemma SecondRegion(norm: Norm, pedido: Pedido, b: seq<byte>)
    requires pedido.total >= TAMANO_MINIMO && |b| == 32 && Aleatorio.Healthy(b)
    ensures Padme.Fits(Padme.LEN_PREFIX)
    ensures var sal := Sal(Azar(pedido.total));
      SellarRegion(BoxSeal(), norm, pedido.params, Hex(b), [], Largo(pedido.total, Oculto), Oculto,
        DatoAutenticado(sal, pedido.total), sal, Cinta(pedido.total, b), 3).result
      == Ok(SelloDescartado(norm, pedido, b))
  {
    DiscardedPlain(pedido.total, b);
    hide Padme.Frame, Padme.Fits, Llenar, ClaroDeRegion, Hex, ToBe, Masked, Descartado, Cinta, Azar, Aleatorio.Healthy;
  }

  lemma FirstRegion(norm: Norm, pedido: Pedido, b: seq<byte>)
    requires SinOculto(norm, pedido) && |b| == 32 && Aleatorio.Healthy(b)
    ensures pedido.total >= TAMANO_MINIMO
    ensures var sal := Sal(Azar(pedido.total));
      SellarRegion(BoxSeal(), norm, pedido.params, pedido.claveSenuelo, pedido.senuelo,
                   Largo(pedido.total, Senuelo), Senuelo,
                   DatoAutenticado(sal, pedido.total), sal, Cinta(pedido.total, b), 1).next == 2
  {
    Draws(pedido.total, b, 1, Largo(pedido.total, Senuelo) - TAG_LEN - |Padme.Frame(pedido.senuelo)|);
    hide Padme.Frame, Padme.Fits, Padme.PaddedLen, Llenar, Hex, ToBe, Cinta, Azar, Aleatorio.Healthy;
  }

  /** The seals of a creation without a hidden volume, step by step. */
  lemma TwoSeals(seal: Seal, norm: Norm, pedido: Pedido, g: Tape, azar: seq<byte>, desde: nat, bytes: seq<byte>)
    requires IsSeal(seal) && pedido.Representable() && |azar| == pedido.total >= TAMANO_MINIMO && pedido.oculto == None
    requires Padme.Fits(Padme.LEN_PREFIX)
    requires CrearSobre(seal, norm, pedido, g, azar, desde).result.Ok?
    ensures var aad := DatoAutenticado(Sal(azar), pedido.total);
      var s := SellarRegion(seal, norm, pedido.params, pedido.claveSenuelo, pedido.senuelo,
                            Largo(pedido.total, Senuelo), Senuelo,
                 aad, Sal(azar), g, desde);
      var relleno := Llenar(g, s.next, 32);
      relleno.result == Ok(bytes) ==>
        var o := SellarRegion(seal, norm, pedido.params, Hex(bytes), [], Largo(pedido.total, Oculto), Oculto,
                   aad, Sal(azar), g, relleno.next).result;
        var c := CrearSobre(seal, norm, pedido, g, azar, desde);
        |c.sellos| == 2 && o == Ok(c.sellos[1])
  {
    hide SellarRegion, Llenar, ConRegion, Hex, Padme.Fits, DatoAutenticado, Sal, Largo;
  }

  lemma SecondOfTwo(norm: Norm, pedido: Pedido, b: seq<byte>)
    requires IsSeal(BoxSeal()) && SinOculto(norm, pedido) && pedido.total >= TAMANO_MINIMO
    requires |b| == 32 && Aleatorio.Healthy(b)
    requires CrearSobre(BoxSeal(), norm, pedido, Cinta(pedido.total, b), Azar(pedido.total), 1).result.Ok?
    ensures var c := CrearSobre(BoxSeal(), norm, pedido, Cinta(pedido.total, b), Azar(pedido.total), 1);
      |c.sellos| == 2 && c.sellos[1] == SelloDescartado(norm, pedido, b)
  {
    var total := pedido.total;
    assert pedido.Representable() && pedido.oculto == None;
    hide *;
    Draws(total, b, 2, 32);
    TheBytes(total, b);
    FirstRegion(norm, pedido, b);
    SecondRegion(norm, pedido, b);
    TwoSeals(BoxSeal(), norm, pedido, Cinta(total, b), Azar(total), 1, b);
  }

  lemma CrearGoesOn(norm: Norm, pedido: Pedido, b: seq<byte>)
    requires IsSeal(BoxSeal()) && SinOculto(norm, pedido) && pedido.total >= TAMANO_MINIMO
    requires |b| == 32 && Aleatorio.Healthy(b)
    ensures Crear(BoxSeal(), norm, pedido, Cinta(pedido.total, b), 0)
         == CrearSobre(BoxSeal(), norm, pedido, Cinta(pedido.total, b), Azar(pedido.total), 1)
    ensures Llenar(Cinta(pedido.total, b), 0, pedido.total).result == Ok(Azar(pedido.total))
  {
    Draws(pedido.total, b, 0, pedido.total);
    hide CrearSobre, Llenar, Hex, Padme.Fits, IsSeal, Cinta, Aleatorio.Healthy, Fondo;
  }

  /** The discarded passphrase normalises as `b`'s digits, and the background of its region is what it was sealed to. */
  lemma Collides(norm: Norm, pedido: Pedido, b: seq<byte>, p: Partes)
    requires IsSeal(BoxSeal()) && SinOculto(norm, pedido) && pedido.total >= TAMANO_MINIMO
    requires |b| == 32 && Aleatorio.Healthy(b)
    requires p.De(BoxSeal(), norm, pedido, Cinta(pedido.total, b), 0,
                  Crear(BoxSeal(), norm, pedido, Cinta(pedido.total, b), 0))
    ensures norm(p.descarte) == norm(Hex(b)) && Region(p.azar, Oculto) == p.o.cipher
  {
    CrearGoesOn(norm, pedido, b);
    SecondOfTwo(norm, pedido, b);
    var sal := Sal(Azar(pedido.total));
    var maestra := Maestra(norm, Hex(b), sal, pedido.params);
    DiscardedCipher(pedido.total, Clave(maestra, Oculto), NonceDe(maestra, Oculto),
                    DatoAutenticado(sal, pedido.total));
    hide Crear, CrearSobre, Llenar, Hex, Padme.Fits, Padme.Frame, ToBe, IsSeal, BoxSeal, Descartado, Region;
    hide Cinta, Azar;
  }

  lemma BothGenuine(seal: Seal, norm: Norm, pedido: Pedido, g: Tape, p: Partes, log: Log)
    requires IsSeal(seal) && pedido.Representable() && p.De(seal, norm, pedido, g, 0, Crear(seal, norm, pedido, g, 0))
    requires log == {} + {p.s} + {p.o}
    ensures LogAfter(seal, {}, p, log)
  {
    hide Crear, Llenar, Hex, Padme.Fits, Padme.Frame, ToBe, IsSeal;
  }

  lemma Answers(seal: Seal, norm: Norm, pedido: Pedido, g: Tape, p: Partes, log: Log)
    requires IsSeal(seal) && pedido.Representable() && p.De(seal, norm, pedido, g, 0, Crear(seal, norm, pedido, g, 0))
    requires LogAfter(seal, {}, p, log) && pedido.oculto == None
    requires norm(p.descarte) == norm(pedido.claveSenuelo) && Region(p.azar, Oculto) == p.o.cipher
    ensures Abrir(log, norm, p.Escrito(pedido), pedido.claveSenuelo, Some(pedido.params)) == Ok(Apertura(Oculto, []))
  {
    WhoOpensWhat(seal, norm, pedido, p, g, 0, {}, log, pedido.claveSenuelo, pedido.params);
    hide Crear, Intentar, LogAfter;
  }

  /** If the digits of `b` normalise to the decoy's passphrase, on some tape the discarded volume opens instead. */
  lemma DecoyFails(norm: Norm, pedido: Pedido, b: seq<byte>) returns (seal: Seal, g: Tape, p: Partes, log: Log)
    requires SinOculto(norm, pedido) && Descarta(norm, pedido.claveSenuelo, b)
    ensures IsSeal(seal) && pedido.Representable()
    ensures p.De(seal, norm, pedido, g, 0, Crear(seal, norm, pedido, g, 0))
    ensures LogAfter(seal, {}, p, log)
    ensures Abrir(log, norm, p.Escrito(pedido), pedido.claveSenuelo, Some(pedido.params)) == Ok(Apertura(Oculto, []))
  {
    assert pedido.total >= TAMANO_MINIMO && pedido.Representable();
    assert pedido.oculto == None && Queja(norm, pedido) == None;
    assert |b| == 32 && Aleatorio.Healthy(b) && norm(Hex(b)) == norm(pedido.claveSenuelo);
    seal, g := BoxSeal(), Cinta(pedido.total, b);
    hide *;
    BoxIsSeal();
    CintaFiable(pedido.total, b);
    CrearEnds(seal, norm, pedido, g, 0);
    p := CreacionLograda(seal, norm, pedido, g, 0);
    log := {} + {p.s} + {p.o};
    BothGenuine(seal, norm, pedido, g, p, log);
    Collides(norm, pedido, b, p);
    Answers(seal, norm, pedido, g, p, log);
  }

  // ------------------------------------------------------------ exactly when safe

  /** The decoy of an order that creates something opens on every tape if and only if there is a hidden volume, or
   *  its passphrase normalises like none that could be discarded.
   */
  lemma DecoyIsSafeExactly(norm: Norm, pedido: Pedido)
    requires pedido.Representable() && Queja(norm, pedido) == None
    ensures Segura(norm, pedido) <==> pedido.oculto.Some? || !Descartable(norm, pedido.claveSenuelo)
  {
    if pedido.oculto.Some? || !Descartable(norm, pedido.claveSenuelo) {
      Safe(norm, pedido);
    } else {
      Unsafe(norm, pedido);
    }
    hide *;
  }

  lemma Safe(norm: Norm, pedido: Pedido)
    requires pedido.Representable() && (pedido.oculto.Some? || !Descartable(norm, pedido.claveSenuelo))
    ensures Segura(norm, pedido)
  {
    hide Crear, LogAfter, Abrir, Partes.Escrito, Descartable, IsSeal, Pedido.Representable, Padme.Fits, Padme.Frame;
    hide Llenar, MismaFrase, ToBe;
    forall seal: Seal, g: Tape, desde: nat, p: Partes, previo: Log, log: Log |
      IsSeal(seal) && p.De(seal, norm, pedido, g, desde, Crear(seal, norm, pedido, g, desde))
      && LogAfter(seal, previo, p, log)
      ensures Abrir(log, norm, p.Escrito(pedido), pedido.claveSenuelo, Some(pedido.params))
        == Ok(Apertura(Senuelo, pedido.senuelo))
    {
      DecoyOpensExactly(seal, norm, pedido, p, g, desde, previo, log);
      if pedido.oculto == None {
        DiscardedIsDrawn(seal, norm, pedido, p, g, desde);
        if norm(p.descarte) == norm(pedido.claveSenuelo) {
          AlikeDiscarded(norm, p.descarte, pedido.claveSenuelo);
        }
      }
    }
  }

  lemma AlikeDiscarded(norm: Norm, clave: string, otra: string)
    requires norm(clave) == norm(otra)
    ensures Descartable(norm, clave) <==> Descartable(norm, otra)
  {
    hide Hex, Aleatorio.Healthy;
    assert forall b :: Descarta(norm, clave, b) <==> Descarta(norm, otra, b);
  }

  lemma Unsafe(norm: Norm, pedido: Pedido)
    requires SinOculto(norm, pedido) && Descartable(norm, pedido.claveSenuelo)
    ensures !Segura(norm, pedido)
  {
    var b :| Descarta(norm, pedido.claveSenuelo, b);
    hide Crear, Partes.De, LogAfter, Abrir, Partes.Escrito, Descarta, IsSeal, Pedido.Representable, Queja;
    var seal, g, p, log := DecoyFails(norm, pedido, b);
  }

  // ------------------------------------------------------------------ an example

  lemma NineFits()
    ensures Padme.Fits(9) && Padme.PaddedLen(9) <= 16
  {
    assert Padme.Pow2(3) == 8 && Padme.Pow2(4) == 16;
    Padme.ExponentIs(9, 3);
    assert Padme.BitLength(3) == 2 && Padme.Pow2(1) == 2;
    assert Padme.Granule(9) == 2;
    Padme.PaddedInOctave(9);
  }

  /** The decoy is one byte, and its passphrase the digits of counting. */
  function Encargo(params: KdfParams): Pedido
  {
    Pedido(TAMANO_MINIMO, [1], Hex(Aleatorio.Bytes(Cuenta, 32)), None, params)
  }

  lemma EncargoIsGood(norm: Norm, params: KdfParams)
    ensures SinOculto(norm, Encargo(params))
  {
    NineFits();
    Powers();
    Padme.FrameRoundTrip([1], []);
    hide Padme.Frame, Padme.Fits, Padme.PaddedLen, Hex;
  }

  /** For any normalisation and profile, there is an order whose decoy can fail to open. */
  lemma DecoyCanFail(norm: Norm, params: KdfParams) returns (seal: Seal, pedido: Pedido, g: Tape, p: Partes, log: Log)
    ensures IsSeal(seal) && pedido.Representable() && pedido.params == params
    ensures p.De(seal, norm, pedido, g, 0, Crear(seal, norm, pedido, g, 0))
    ensures LogAfter(seal, {}, p, log)
    ensures Abrir(log, norm, p.Escrito(pedido), pedido.claveSenuelo, Some(params)) == Ok(Apertura(Oculto, []))
  {
    pedido := Encargo(params);
    EncargoIsGood(norm, params);
    CountingIsHealthy(Cuenta, 32);
    assert Descarta(norm, pedido.claveSenuelo, Aleatorio.Bytes(Cuenta, 32));
    assert pedido.params == params;
    hide *;
    seal, g, p, log := DecoyFails(norm, pedido, Aleatorio.Bytes(Cuenta, 32));
  }
}
