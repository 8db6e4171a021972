/** What the container with deniability promises. */
module NegacionTheorems {
  import opened Results
  import opened Bytes
  import opened Aead
  import opened NegacionSpec
  import Padme
  import Aleatorio

  // ------------------------------------------------------------ two runs compared

  /** What every successful creation did: the same operations, over regions of the same lengths. */
  function OpsDeCreacion(total: nat, p: KdfParams): seq<Op>
    requires total >= TAMANO_MINIMO
  {
    [Derives(p), SealsBytes(Largo(total, Senuelo) - TAG_LEN, SALT_LEN + 8),
     Derives(p), SealsBytes(Largo(total, Oculto) - TAG_LEN, SALT_LEN + 8)]
  }

  /** `s` seals the frame of `datos`, and random bytes, for one region of a container of `total` bytes. */
  ghost predicate EsSello(seal: Seal, norm: Norm, p: KdfParams, frase: string, datos: seq<byte>, total: nat, v: Volumen,
                          sal: Salt, s: Sealed)
    requires total >= TAMANO_MINIMO
  {
    && s == SelloDe(seal, Maestra(norm, frase, sal, p), v, s.plain, DatoAutenticado(sal, total))
    && Padme.Fits(Padme.LEN_PREFIX + |datos|) && Padme.Frame(datos) <= s.plain
    && |s.plain| == Largo(total, v) - TAG_LEN && |s.cipher| == Largo(total, v)
  }

  lemma SellarRegionSeals(seal: Seal, norm: Norm, p: KdfParams, frase: string, datos: seq<byte>, total: nat, v: Volumen,
                          sal: Salt, g: Tape, desde: nat)
    requires IsSeal(seal) && TAMANO_MINIMO <= total && Padme.Fits(Padme.LEN_PREFIX + |datos|)
    ensures var r := SellarRegion(seal, norm, p, frase, datos, Largo(total, v), v, DatoAutenticado(sal, total), sal, g,
                                  desde);
      r.result.Ok? ==>
        && EsSello(seal, norm, p, frase, datos, total, v, sal, r.result.value)
        && r.ops == [Derives(p), SealsBytes(Largo(total, v) - TAG_LEN, SALT_LEN + 8)]
  {
    hide Padme.Frame, Padme.Fits, ToBe, Llenar;
  }

  /** The parts of a successful creation: the background, the two seals, the discarded passphrase. */
  datatype Partes = Partes(azar: seq<byte>, s: Sealed, o: Sealed, descarte: string)
  {
    ghost predicate De(seal: Seal, norm: Norm, pedido: Pedido, g: Tape, desde: nat, c: Creacion)
    {
      && pedido.senuelo != [] && pedido.total >= TAMANO_MINIMO && !MismaFrase(norm, pedido)
      && Llenar(g, desde, pedido.total).result == Ok(azar) && |azar| == pedido.total
      && EsSello(seal, norm, pedido.params, pedido.claveSenuelo, pedido.senuelo, pedido.total, Senuelo, Sal(azar), s)
      && EsSello(seal, norm, pedido.params, Segundo(pedido, descarte).1, Segundo(pedido, descarte).0, pedido.total,
                 Oculto, Sal(azar), o)
      && c.sellos == [s, o]
      && c.ops == OpsDeCreacion(pedido.total, pedido.params)
      && c.result == Ok(Escrito(pedido))
    }

    /** The hidden region is overwritten only if there is a hidden volume. */
    ghost function Escrito(pedido: Pedido): (r: seq<byte>)
      requires |azar| >= SALT_LEN && |s.cipher| == Largo(|azar|, Senuelo) && |o.cipher| == Largo(|azar|, Oculto)
      ensures |r| == |azar|
    {
      var fuera := ConRegion(azar, Senuelo, s.cipher);
      if pedido.oculto.Some? then ConRegion(fuera, Oculto, o.cipher) else fuera
    }
  }

  lemma CreacionLograda(seal: Seal, norm: Norm, pedido: Pedido, g: Tape, desde: nat) returns (p: Partes)
    requires IsSeal(seal) && pedido.Representable()
    requires Crear(seal, norm, pedido, g, desde).result.Ok?
    ensures p.De(seal, norm, pedido, g, desde, Crear(seal, norm, pedido, g, desde))
  {
    hide Padme.Fits, Padme.Frame, Llenar, ConRegion, Hex, ToBe, SellarRegion, EsSello;
    var fondo := Llenar(g, desde, pedido.total);
    var azar := fondo.result.value;
    var aad := DatoAutenticado(Sal(azar), pedido.total);
    var s := SellarRegion(seal, norm, pedido.params, pedido.claveSenuelo, pedido.senuelo, Largo(pedido.total, Senuelo),
                          Senuelo,
               aad, Sal(azar), g, fondo.next);
    SellarRegionSeals(seal, norm, pedido.params, pedido.claveSenuelo, pedido.senuelo, pedido.total, Senuelo, Sal(azar),
                      g, fondo.next);
    var relleno := Llenar(g, s.next, 32);
    var descarte := Hex(relleno.result.value);
    EmptyFits();
    var (datos, frase) := Segundo(pedido, descarte);
    var o := SellarRegion(seal, norm, pedido.params, frase, datos, Largo(pedido.total, Oculto), Oculto, aad, Sal(azar),
                          g, relleno.next);
    SellarRegionSeals(seal, norm, pedido.params, frase, datos, pedido.total, Oculto, Sal(azar), g, relleno.next);
    p := Partes(azar, s.result.value, o.result.value, descarte);
  }

  /** The source never lets a request fail. */
  ghost predicate Fiable(g: Tape) { forall desde: nat, n: nat :: Llenar(g, desde, n).result.Ok? }

  /** Such sources exist: one that counts never delivers equal bytes in a row. */
  lemma FiableExists() returns (g: Tape)
    ensures Fiable(g)
  {
    var f: nat -> byte := i => i % 0x100;
    g := i => Aleatorio.Entrega(f);
    forall desde: nat, n: nat
      ensures Llenar(g, desde, n).result.Ok?
    {
      CountingIsHealthy(f, n);
      Aleatorio.DiagnosisMeaning(Aleatorio.Bytes(f, n));
    }
  }

  lemma CountingIsHealthy(f: nat -> byte, n: nat)
    requires forall i: nat :: f(i) == i % 0x100
    ensures Aleatorio.Healthy(Aleatorio.Bytes(f, n))
  {
    var s := Aleatorio.Bytes(f, n);
    forall p: nat | p < |s|
      ensures !Aleatorio.RunAt(s, p)
    {
      if p + 1 < |s| {
        assert s[p] == p % 0x100 && s[p + 1] == (p + 1) % 0x100;
      }
    }
  }

  /** The frame of the data fits its region, next to the tag. */
  predicate Cabe(datos: seq<byte>, total: nat, v: Volumen)
    requires total >= TAMANO_MINIMO && Padme.Fits(Padme.LEN_PREFIX + |datos|)
  {
    |Padme.Frame(datos)| <= Largo(total, v) - TAG_LEN
  }

  lemma SellarRegionFits(seal: Seal, norm: Norm, p: KdfParams, frase: string, datos: seq<byte>, total: nat, v: Volumen,
                         sal: Salt, g: Tape, desde: nat)
    requires IsSeal(seal) && TAMANO_MINIMO <= total && Padme.Fits(Padme.LEN_PREFIX + |datos|) && Fiable(g)
    ensures var r := SellarRegion(seal, norm, p, frase, datos, Largo(total, v), v, DatoAutenticado(sal, total), sal, g,
                                  desde).result;
      && (r.Ok? <==> Cabe(datos, total, v))
      && (r.Err? ==> r == Err(NoCabeEn(datos, total, v)))
  {
    hide Padme.Frame, Padme.Fits, ToBe, Llenar;
  }

  lemma NothingFits(total: nat)
    requires total >= TAMANO_MINIMO
    ensures Padme.Fits(Padme.LEN_PREFIX) && Cabe([], total, Oculto)
  {
    EmptyFits();
    Padme.PaddedInOctave(8);
    Padme.ExponentIs(8, 3);
    assert Padme.Pow2(3) == 8 && Padme.Pow2(4) == 16;
    Padme.FrameRoundTrip([], []);
  }

  function NoCabeEn(datos: seq<byte>, total: nat, v: Volumen): NegacionError
    requires total >= TAMANO_MINIMO && Padme.Fits(Padme.LEN_PREFIX + |datos|)
  {
    NoCabe(v, Largo(total, v) - TAG_LEN, |Padme.Frame(datos)|)
  }

  /** The complaint a creation ends with, if any: the checks in their order. */
  ghost function Queja(norm: Norm, pedido: Pedido): Option<NegacionError>
    requires pedido.Representable()
  {
    if pedido.senuelo == [] then Some(SenueloVacio)
    else if pedido.total < TAMANO_MINIMO then Some(TamanoInsuficiente(pedido.total, TAMANO_MINIMO))
    else if MismaFrase(norm, pedido) then Some(MismaContrasena)
    else if !Cabe(pedido.senuelo, pedido.total, Senuelo) then Some(NoCabeEn(pedido.senuelo, pedido.total, Senuelo))
    else if pedido.oculto.Some? && !Cabe(pedido.oculto.value.0, pedido.total, Oculto) then
      Some(NoCabeEn(pedido.oculto.value.0, pedido.total, Oculto))
    else None
  }

  /** With a source that does not fail, a creation ends with its complaint, and succeeds exactly when there is none. */
  lemma CrearEnds(seal: Seal, norm: Norm, pedido: Pedido, g: Tape, desde: nat)
    requires IsSeal(seal) && pedido.Representable() && Fiable(g)
    ensures match Queja(norm, pedido)
      case Some(e) => Crear(seal, norm, pedido, g, desde).result == Err(e)
      case None => Crear(seal, norm, pedido, g, desde).result.Ok?
  {
    hide Padme.Fits, Padme.Frame, Llenar, ConRegion, Hex, ToBe, SellarRegion, Cabe;
    if pedido.senuelo != [] && pedido.total >= TAMANO_MINIMO && !MismaFrase(norm, pedido) {
      var fondo := Llenar(g, desde, pedido.total);
      var azar := fondo.result.value;
      SellarRegionFits(seal, norm, pedido.params, pedido.claveSenuelo, pedido.senuelo, pedido.total, Senuelo, Sal(azar),
                       g, fondo.next);
      var s := SellarRegion(seal, norm, pedido.params, pedido.claveSenuelo, pedido.senuelo,
                            Largo(pedido.total, Senuelo), Senuelo,
                 DatoAutenticado(Sal(azar), pedido.total), Sal(azar), g, fondo.next);
      if s.result.Ok? {
        var relleno := Llenar(g, s.next, 32);
        NothingFits(pedido.total);
        var (datos, frase) := Segundo(pedido, Hex(relleno.result.value));
        SellarRegionFits(seal, norm, pedido.params, frase, datos, pedido.total, Oculto, Sal(azar), g, relleno.next);
      }
    }
  }

  /** On the same tape, a creation with a hidden volume and one without it agree on every byte before the
   *  hidden region, which is left as the tape gave it without one; and they do the same operations.
   */
  lemma SameOutside(seal: Seal, norm: Norm, con: Pedido, sin: Pedido, g: Tape, desde: nat)
    requires IsSeal(seal) && con.Representable() && sin.Representable() && sin == con.(oculto := None)
    requires con.oculto.Some?
    requires Crear(seal, norm, con, g, desde).result.Ok? && Crear(seal, norm, sin, g, desde).result.Ok?
    ensures var a, b := Crear(seal, norm, con, g, desde), Crear(seal, norm, sin, g, desde);
      && |a.result.value| == |b.result.value| == con.total >= TAMANO_MINIMO
      && a.result.value[..Corte(con.total)] == b.result.value[..Corte(con.total)]
      && Llenar(g, desde, con.total).result.Ok?
      && Region(b.result.value, Oculto) == Region(Llenar(g, desde, con.total).result.value, Oculto)
      && a.ops == b.ops == OpsDeCreacion(con.total, con.params)
  {
    var a := CreacionLograda(seal, norm, con, g, desde);
    var b := CreacionLograda(seal, norm, sin, g, desde);
    SameDecoy(seal, norm, con, sin, g, desde, a, b);
    hide EsSello, Crear, Llenar, ToBe;
    var fuera := ConRegion(a.azar, Senuelo, a.s.cipher);
    assert a.Escrito(con)[..Corte(con.total)] == fuera[..Corte(con.total)];
  }

  /** The decoy is sealed from the same draws in both runs. */
  lemma SameDecoy(seal: Seal, norm: Norm, con: Pedido, sin: Pedido, g: Tape, desde: nat, a: Partes, b: Partes)
    requires IsSeal(seal) && con.Representable() && sin.Representable() && sin == con.(oculto := None)
    requires a.De(seal, norm, con, g, desde, Crear(seal, norm, con, g, desde))
    requires b.De(seal, norm, sin, g, desde, Crear(seal, norm, sin, g, desde))
    ensures a.azar == b.azar && a.s == b.s
  {
    hide Padme.Fits, Padme.Frame, Llenar, ConRegion, Hex, ToBe, SellarRegion, EsSello;
  }

  /** Opening does one derivation and two openings per profile, whatever passphrase, content or outcome;
   *  the container counts by its length only.
   */
  lemma {:induction false} OpeningCost(total: nat, perfiles: seq<KdfParams>)
    requires total >= SALT_LEN
    ensures var ops := OpsDeApertura(total, perfiles);
      && |ops| == 3 * |perfiles|
      && forall i :: 0 <= i < |perfiles| ==>
           && ops[3 * i] == Derives(perfiles[i])
           && ops[3 * i + 1] == OpensBytes(Largo(total, Senuelo), SALT_LEN + 8)
           && ops[3 * i + 2] == OpensBytes(Largo(total, Oculto), SALT_LEN + 8)
    decreases |perfiles|
  {
    if perfiles != [] {
      OpeningCost(total, perfiles[..|perfiles| - 1]);
    }
  }

  // ------------------------------------------------------------ who opens what

  /** No earlier seal was made under the salt of these bytes. */
  ghost predicate SalNueva(previo: Log, contenedor: seq<byte>)
    requires |contenedor| >= SALT_LEN
  {
    forall s <- previo :: !(Sal(contenedor) <= s.aad)
  }

  /** The log after a creation: earlier seals, none of them under this salt, and the two new ones. */
  ghost predicate LogAfter(seal: Seal, previo: Log, p: Partes, log: Log)
  {
    && Genuine(seal, log)
    && log == previo + {p.s} + {p.o}
    && |p.azar| >= SALT_LEN
    && SalNueva(previo, p.azar)
  }

  lemma InfosDiffer()
    ensures INFO_SENUELO != INFO_OCULTO
  {
    assert |INFO_SENUELO| != |INFO_OCULTO|;
  }

  lemma AadInjective(a: Salt, m: nat, b: Salt, n: nat)
    requires m < Pow256(8) && n < Pow256(8)
    ensures DatoAutenticado(a, m) == DatoAutenticado(b, n) <==> a == b && m == n
  {
    hide ToBe, FromBe, Pow256;
    ToBeInjective(m, n, 8);
    assert DatoAutenticado(a, m)[..SALT_LEN] == a && DatoAutenticado(a, m)[SALT_LEN..] == ToBe(m, 8);
    assert DatoAutenticado(b, n)[..SALT_LEN] == b && DatoAutenticado(b, n)[SALT_LEN..] == ToBe(n, 8);
  }

  /** Any byte string at all: a region opens exactly when the salt, the length, the passphrase as the KDF sees it,
   *  the profile and the bytes are those of its seal.
   */
  lemma RegionOpens(seal: Seal, norm: Norm, pedido: Pedido, p: Partes, g: Tape, desde: nat, previo: Log, log: Log,
                    contenedor: seq<byte>, frase: string, params: KdfParams, v: Volumen)
    requires IsSeal(seal) && pedido.Representable()
    requires p.De(seal, norm, pedido, g, desde, Crear(seal, norm, pedido, g, desde))
    requires LogAfter(seal, previo, p, log)
    requires SALT_LEN <= |contenedor| < Pow256(8) && SalNueva(previo, contenedor)
    ensures var s := if v == Senuelo then p.s else p.o;
      var suya := if v == Senuelo then pedido.claveSenuelo else Segundo(pedido, p.descarte).1;
      AbrirRegion(log, norm, contenedor, frase, params, v)
      == if Sal(contenedor) == Sal(p.azar) && |contenedor| == pedido.total && norm(frase) == norm(suya)
            && params == pedido.params && Region(contenedor, v) == s.cipher
         then Some(s.plain) else None
  {
    hide ToBe, Pow256, Crear, Padme.Frame, Padme.Fits, Llenar, Open, Genuine, ConRegion;
    var sal := Sal(contenedor);
    var aad := DatoAutenticado(sal, |contenedor|);
    var maestra := Maestra(norm, frase, sal, params);
    var suya := if v == Senuelo then pedido.claveSenuelo else Segundo(pedido, p.descarte).1;
    var s := if v == Senuelo then p.s else p.o;
    InfosDiffer();
    AadInjective(sal, |contenedor|, Sal(p.azar), pedido.total);
    OpenSealed(seal, log, s);
    OpenOnly(log, Clave(maestra, v), NonceDe(maestra, v), Region(contenedor, v), aad, s);
  }

  /** Opening answers `s`, or finds nothing, when no other entry of the log can match. */
  lemma OpenOnly(log: Log, k: Key, n: Nonce, c: seq<byte>, a: seq<byte>, s: Sealed)
    requires s in log && Open(log, s.key, s.nonce, s.cipher, s.aad) == Some(s.plain)
    requires forall t :: t in log && Matches(t, k, n, c, a) ==> t == s
    ensures Open(log, k, n, c, a) == if Matches(s, k, n, c, a) then Some(s.plain) else None
  {
  }

  /** A region that opened to what was sealed for `datos` contributes exactly `datos`. */
  lemma ContenidoDeSello(v: Volumen, claro: seq<byte>, datos: seq<byte>)
    requires Padme.Fits(Padme.LEN_PREFIX + |datos|) && Padme.Frame(datos) <= claro
    ensures Contenido(v, Some(claro)) == Some(Apertura(v, datos))
  {
    hide Padme.Fits, Padme.Frame, Padme.Unpad;
    var tail := claro[|Padme.Frame(datos)|..];
    assert claro == Padme.Frame(datos) + tail;
    Padme.FrameRoundTrip(datos, tail);
  }

  /** What each passphrase opens in a container just created, for every passphrase and every profile:
   *  the hidden data, the decoy, or nothing. The second case of `oculta` is the discarded passphrase,
   *  which opens only if the random background happens to be what was sealed and thrown away.
   */
  lemma WhoOpensWhat(seal: Seal, norm: Norm, pedido: Pedido, p: Partes, g: Tape, desde: nat, previo: Log, log: Log,
                     frase: string, params: KdfParams)
    requires IsSeal(seal) && pedido.Representable() &&
      p.De(seal, norm, pedido, g, desde, Crear(seal, norm, pedido, g, desde))
    requires LogAfter(seal, previo, p, log)
    ensures var contenedor := p.Escrito(pedido);
      var (datos, frase2) := Segundo(pedido, p.descarte);
      Intentar(log, norm, contenedor, frase, params)
      == if params != pedido.params then None
         else if norm(frase) == norm(frase2) && (pedido.oculto.Some? || Region(p.azar, Oculto) == p.o.cipher) then
           Some(Apertura(Oculto, datos))
         else if norm(frase) == norm(pedido.claveSenuelo) then Some(Apertura(Senuelo, pedido.senuelo))
         else None
  {
    hide ToBe, Pow256, Crear, Padme.Frame, Padme.Fits, Padme.Unpad, Llenar, Open, Genuine, ConRegion, Contenido,
      LogAfter, AbrirRegion;
    var contenedor := p.Escrito(pedido);
    SizeFits(pedido);
    assert Sal(contenedor) == Sal(p.azar) && Region(contenedor, Senuelo) == p.s.cipher;
    assert Region(contenedor, Oculto) == if pedido.oculto.Some? then p.o.cipher else Region(p.azar, Oculto);
    SameSaltIsNew(seal, previo, p, log, contenedor);
    RegionOpens(seal, norm, pedido, p, g, desde, previo, log, contenedor, frase, params, Oculto);
    RegionOpens(seal, norm, pedido, p, g, desde, previo, log, contenedor, frase, params, Senuelo);
    ContenidoDeSello(Oculto, p.o.plain, Segundo(pedido, p.descarte).0);
    ContenidoDeSello(Senuelo, p.s.plain, pedido.senuelo);
    NothingInside(Oculto);
    NothingInside(Senuelo);
  }

  lemma SameSaltIsNew(seal: Seal, previo: Log, p: Partes, log: Log, contenedor: seq<byte>)
    requires LogAfter(seal, previo, p, log) && |contenedor| >= SALT_LEN && Sal(contenedor) == Sal(p.azar)
    ensures SalNueva(previo, contenedor)
  {
  }

  lemma SizeFits(pedido: Pedido)
    requires pedido.Representable()
    ensures pedido.total < Pow256(8)
  {
  }

  lemma NothingInside(v: Volumen)
    ensures Contenido(v, None) == None
  {
  }

  /** The decoy passphrase opens exactly the decoy, unless the discarded passphrase normalises to it and
   *  the background is what was thrown away: nothing in the code excludes that, and then the empty
   *  discarded data answer instead.
   */
  lemma DecoyOpensExactly(seal: Seal, norm: Norm, pedido: Pedido, p: Partes, g: Tape, desde: nat, previo: Log, log: Log)
    requires IsSeal(seal) && pedido.Representable() &&
      p.De(seal, norm, pedido, g, desde, Crear(seal, norm, pedido, g, desde))
    requires LogAfter(seal, previo, p, log)
    ensures Abrir(log, norm, p.Escrito(pedido), pedido.claveSenuelo, Some(pedido.params))
      == Ok(Apertura(Senuelo, pedido.senuelo))
      <==> pedido.oculto.Some? || norm(p.descarte) != norm(pedido.claveSenuelo) || Region(p.azar, Oculto) != p.o.cipher
  {
    WhoOpensWhat(seal, norm, pedido, p, g, desde, previo, log, pedido.claveSenuelo, pedido.params);
    hide Crear, Intentar, LogAfter;
  }

  /** The hidden passphrase opens exactly the hidden data. */
  lemma HiddenOpensExactly(seal: Seal, norm: Norm, pedido: Pedido, p: Partes, g: Tape, desde: nat, previo: Log,
                           log: Log)
    requires IsSeal(seal) && pedido.Representable() &&
      p.De(seal, norm, pedido, g, desde, Crear(seal, norm, pedido, g, desde))
    requires LogAfter(seal, previo, p, log) && pedido.oculto.Some?
    ensures Abrir(log, norm, p.Escrito(pedido), pedido.oculto.value.1, Some(pedido.params))
      == Ok(Apertura(Oculto, pedido.oculto.value.0))
  {
    WhoOpensWhat(seal, norm, pedido, p, g, desde, previo, log, pedido.oculto.value.1, pedido.params);
    hide Crear, Intentar, LogAfter;
  }

  /** Bytes of another length, or with another salt, that no earlier seal carries: neither region opens, for any
   *  passphrase and profile.
   */
  lemma OtherRegionsStayShut(seal: Seal, norm: Norm, pedido: Pedido, p: Partes, g: Tape, desde: nat, previo: Log,
                             log: Log, contenedor: seq<byte>, frase: string, params: KdfParams)
    requires IsSeal(seal) && pedido.Representable()
    requires p.De(seal, norm, pedido, g, desde, Crear(seal, norm, pedido, g, desde))
    requires LogAfter(seal, previo, p, log)
    requires SALT_LEN <= |contenedor| < Pow256(8) && SalNueva(previo, contenedor)
    requires |contenedor| != pedido.total || Sal(contenedor) != Sal(p.azar)
    ensures AbrirRegion(log, norm, contenedor, frase, params, Senuelo) == None
    ensures AbrirRegion(log, norm, contenedor, frase, params, Oculto) == None
    ensures Intentar(log, norm, contenedor, frase, params) == None
  {
    RegionOpens(seal, norm, pedido, p, g, desde, previo, log, contenedor, frase, params, Oculto);
    RegionOpens(seal, norm, pedido, p, g, desde, previo, log, contenedor, frase, params, Senuelo);
    NothingInside(Oculto);
    NothingInside(Senuelo);
    hide Crear, LogAfter, Contenido, AbrirRegion, Partes.De;
  }

  lemma {:induction false} OtherProfilesStayShut(log: Log, norm: Norm, contenedor: seq<byte>, frase: string,
                                                 perfiles: seq<KdfParams>)
    requires |contenedor| >= SALT_LEN
    requires forall params :: Intentar(log, norm, contenedor, frase, params) == None
    ensures AbrirConPerfiles(log, norm, contenedor, frase, perfiles) == None
    decreases |perfiles|
  {
    hide Intentar;
    if perfiles != [] {
      OtherProfilesStayShut(log, norm, contenedor, frase, perfiles[1..]);
    }
  }

  /** Bytes added or cut, in front, in the middle or behind, or an altered salt: nothing opens, for any passphrase,
   *  with a profile in hand or trying any.
   */
  lemma OtherLengthOpensNothing(seal: Seal, norm: Norm, pedido: Pedido, p: Partes, g: Tape, desde: nat, previo: Log,
                                log: Log, contenedor: seq<byte>, frase: string, perfil: Option<KdfParams>,
                                perfiles: seq<KdfParams>)
    requires IsSeal(seal) && pedido.Representable()
    requires p.De(seal, norm, pedido, g, desde, Crear(seal, norm, pedido, g, desde))
    requires LogAfter(seal, previo, p, log)
    requires SALT_LEN <= |contenedor| < Pow256(8) ==> SalNueva(previo, contenedor)
    requires |contenedor| < Pow256(8)
    requires |contenedor| != pedido.total || |contenedor| < SALT_LEN || Sal(contenedor) != Sal(p.azar)
    ensures Abrir(log, norm, contenedor, frase, perfil).Err?
    ensures |contenedor| >= SALT_LEN ==> AbrirConPerfiles(log, norm, contenedor, frase, perfiles) == None
  {
    hide Intentar, AbrirConPerfiles, Crear, Partes.De, LogAfter, Partes.Escrito, Pow256;
    if |contenedor| >= SALT_LEN {
      ProfilesStayShut(seal, norm, pedido, p, g, desde, previo, log, contenedor, frase, perfiles);
      ProfilesStayShut(seal, norm, pedido, p, g, desde, previo, log, contenedor, frase, CONOCIDOS);
      if perfil.Some? {
        OtherRegionsStayShut(seal, norm, pedido, p, g, desde, previo, log, contenedor, frase, perfil.value);
      }
    }
  }

  lemma ProfilesStayShut(seal: Seal, norm: Norm, pedido: Pedido, p: Partes, g: Tape, desde: nat, previo: Log, log: Log,
                         contenedor: seq<byte>, frase: string, perfiles: seq<KdfParams>)
    requires IsSeal(seal) && pedido.Representable()
    requires p.De(seal, norm, pedido, g, desde, Crear(seal, norm, pedido, g, desde))
    requires LogAfter(seal, previo, p, log)
    requires SALT_LEN <= |contenedor| < Pow256(8) && SalNueva(previo, contenedor)
    requires |contenedor| != pedido.total || Sal(contenedor) != Sal(p.azar)
    ensures AbrirConPerfiles(log, norm, contenedor, frase, perfiles) == None
  {
    hide Intentar, AbrirConPerfiles, Crear, Partes.De, LogAfter, Partes.Escrito, Pow256;
    forall params
      ensures Intentar(log, norm, contenedor, frase, params) == None
    {
      OtherRegionsStayShut(seal, norm, pedido, p, g, desde, previo, log, contenedor, frase, params);
    }
    OtherProfilesStayShut(log, norm, contenedor, frase, perfiles);
  }
}
