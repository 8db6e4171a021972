/** `src/negacion.rs` as values: the container with a decoy and perhaps a hidden volume, what creating
 *  one does, and what opening one answers.
 *
 *  `norm` stands for NFKC normalisation followed by UTF-8. The random tape is the list of answers of
 *  the system's source: two creations on the same tape start at the same position of the same list.
 */
module NegacionSpec {
  import opened Results
  import opened Bytes
  import opened Aead
  import Padme
  import Aleatorio

  const TAMANO_MINIMO: nat := 1024

  type Norm = string -> seq<byte>

  type Tape = nat -> Aleatorio.Respuesta

  datatype Volumen = Senuelo | Oculto

  datatype NegacionError =
    | TamanoInsuficiente(dado: nat, minimo: nat)
    | NoCabe(volumen: Volumen, disponible: nat, necesario: nat)
    | SenueloVacio
    | MismaContrasena
    | ContenedorCorto
    | NoAbre
    | SinEntropia(causa: Aleatorio.SinEntropia)

  datatype Apertura = Apertura(volumen: Volumen, datos: seq<byte>)

  /** What a clock or a memory profile can see: a key derivation, a sealing, an opening. */
  datatype Op = Derives(params: KdfParams) | SealsBytes(plain: nat, aad: nat) | OpensBytes(cipher: nat, aad: nat)

  function Ascii(s: string): (b: seq<byte>)
    ensures |b| == |s|
  {
    seq(|s|, i requires 0 <= i < |s| => (s[i] as int) % 0x100)
  }

  const INFO_SENUELO: seq<byte> := Ascii("quipu/negacion/v1/senuelo")
  const INFO_OCULTO: seq<byte> := Ascii("quipu/negacion/v1/oculto")
  const INFO_NONCE: seq<byte> := Ascii("/nonce")

  function Info(v: Volumen): seq<byte> { if v == Senuelo then INFO_SENUELO else INFO_OCULTO }

  // ------------------------------------------------------------- canonical sizes

  ghost predicate PowerOfTwo(n: nat) { exists k: nat :: n == Padme.Pow2(k) }

  /** The next power of two, never below the minimum. */
  function TamanoCanonico(minimo: nat): nat
  {
    var m := if minimo < TAMANO_MINIMO then TAMANO_MINIMO else minimo;
    Padme.Pow2(Padme.BitLength(m - 1))
  }

  ghost predicate EsCanonico(tamano: nat) { tamano >= TAMANO_MINIMO && PowerOfTwo(tamano) }

  /** The canonical size is the least one on the ladder that is large enough, at most twice what was asked. */
  lemma TamanoCanonicoIsLeast(minimo: nat, otro: nat)
    ensures EsCanonico(TamanoCanonico(minimo)) && TamanoCanonico(minimo) >= minimo
    ensures minimo > TAMANO_MINIMO ==> TamanoCanonico(minimo) < 2 * minimo
    ensures EsCanonico(otro) && otro >= minimo ==> TamanoCanonico(minimo) <= otro
    ensures TamanoCanonico(minimo) == minimo <==> EsCanonico(minimo)
  {
    var m := if minimo < TAMANO_MINIMO then TAMANO_MINIMO else minimo;
    var b := Padme.BitLength(m - 1);
    Padme.BitLengthBounds(m - 1);
    if EsCanonico(otro) && otro >= minimo {
      LadderStep(m, b, otro);
    }
    if EsCanonico(minimo) {
      LadderStep(m, b, minimo);
    }
  }

  lemma LadderStep(m: nat, b: nat, otro: nat)
    requires m > 1 && b == Padme.BitLength(m - 1) && PowerOfTwo(otro) && otro >= m
    ensures Padme.Pow2(b) <= otro
  {
    hide Padme.Pow2, Padme.BitLength;
    var k: nat :| otro == Padme.Pow2(k);
    Padme.BitLengthBounds(m - 1);
    if k < b {
      Padme.Pow2Monotone(k, b - 1);
    } else {
      Padme.Pow2Monotone(b, k);
    }
  }

  // --------------------------------------------------------------------- layout

  /** Where the hidden region starts; the decoy region ends there. */
  function Corte(total: nat): nat
    requires total >= SALT_LEN
  {
    SALT_LEN + (total - SALT_LEN) / 2
  }

  function Largo(total: nat, v: Volumen): nat
    requires total >= SALT_LEN
  {
    if v == Senuelo then Corte(total) - SALT_LEN else total - Corte(total)
  }

  /** The bytes of a region. */
  function Region(contenedor: seq<byte>, v: Volumen): (r: seq<byte>)
    requires |contenedor| >= SALT_LEN
    ensures |r| == Largo(|contenedor|, v)
  {
    if v == Senuelo then contenedor[SALT_LEN..Corte(|contenedor|)] else contenedor[Corte(|contenedor|)..]
  }

  function Sal(contenedor: seq<byte>): Salt
    requires |contenedor| >= SALT_LEN
  {
    contenedor[..SALT_LEN]
  }

  /** The salt and the total length, both under the tag of each region. */
  function DatoAutenticado(sal: Salt, total: nat): (aad: seq<byte>)
    ensures |aad| == SALT_LEN + 8
  {
    sal + ToBe(total, 8)
  }

  function Maestra(norm: Norm, frase: string, sal: Salt, params: KdfParams): Key { Master(norm(frase), sal, params) }

  function Clave(maestra: Key, v: Volumen): Key { Sub(maestra, Info(v)) }

  function NonceDe(maestra: Key, v: Volumen): Nonce { Stretched(maestra, Info(v) + INFO_NONCE) }

  function SelloDe(seal: Seal, maestra: Key, v: Volumen, claro: seq<byte>, aad: seq<byte>): Sealed
  {
    SealedAs(seal, Clave(maestra, v), NonceDe(maestra, v), claro, aad)
  }

  /** A container with the bytes of one region replaced. */
  function ConRegion(contenedor: seq<byte>, v: Volumen, nuevo: seq<byte>): (r: seq<byte>)
    requires |contenedor| >= SALT_LEN && |nuevo| == Largo(|contenedor|, v)
    ensures |r| == |contenedor|
    ensures Region(r, v) == nuevo && Sal(r) == Sal(contenedor)
    ensures Region(r, if v == Senuelo then Oculto else Senuelo)
      == Region(contenedor, if v == Senuelo then Oculto else Senuelo)
  {
    if v == Senuelo then contenedor[..SALT_LEN] + nuevo + contenedor[Corte(|contenedor|)..]
    else contenedor[..Corte(|contenedor|)] + nuevo
  }

  // --------------------------------------------------------------- the plain region

  /** A value drawn from the tape and the position after it. */
  datatype Draw<T> = Draw(result: Result<T, NegacionError>, next: nat)

  function Llenar(g: Tape, desde: nat, n: nat): (d: Draw<seq<byte>>)
    ensures d.result.Ok? ==> |d.result.value| == n
  {
    var l := Aleatorio.LlenarSpec(g, desde, n);
    Aleatorio.LlenarGuarantees(g, desde, n);
    match l.resultado
    case Ok(_) => Draw(Ok(l.buffer), desde + l.pedidas)
    case Err(e) => Draw(Err(SinEntropia(e)), desde + l.pedidas)
  }

  /** The frame of the data, and random bytes up to the length of the region. */
  function ClaroDeRegion(datos: seq<byte>, largo: nat, v: Volumen, g: Tape, desde: nat): (d: Draw<seq<byte>>)
    requires Padme.Fits(Padme.LEN_PREFIX + |datos|)
    ensures d.result.Ok? ==> |d.result.value| == largo && Padme.Frame(datos) <= d.result.value
  {
    var marco := Padme.Frame(datos);
    if |marco| > largo then Draw(Err(NoCabe(v, largo, |marco|)), desde)
    else
      var cola := Llenar(g, desde, largo - |marco|);
      match cola.result
      case Err(e) => Draw(Err(e), cola.next)
      case Ok(azar) => Draw(Ok(marco + azar), cola.next)
  }

  // --------------------------------------------------------------------- creation

  datatype Pedido = Pedido(total: nat, senuelo: seq<byte>, claveSenuelo: string, oculto: Option<(seq<byte>, string)>,
                           params: KdfParams)
  {
    /** Sizes that a 64-bit machine can hold. */
    ghost predicate Representable()
    {
      && total < Pow256(8)
      && Padme.Fits(Padme.LEN_PREFIX + |senuelo|)
      && (oculto.Some? ==> Padme.Fits(Padme.LEN_PREFIX + |oculto.value.0|))
    }
  }

  /** How a creation ends, what it sealed, and what it did on the way. */
  datatype Creacion = Creacion(result: Result<seq<byte>, NegacionError>, sellos: seq<Sealed>, ops: seq<Op>, next: nat)

  /** One region: derive, prepare the plain text, seal. */
  datatype Sellado = Sellado(result: Result<Sealed, NegacionError>, ops: seq<Op>, next: nat)

  function SellarRegion(seal: Seal, norm: Norm, p: KdfParams, frase: string, datos: seq<byte>, largo: nat, v: Volumen,
                        aad: seq<byte>, sal: Salt, g: Tape, desde: nat): (r: Sellado)
    requires Padme.Fits(Padme.LEN_PREFIX + |datos|) && largo >= TAG_LEN
  {
    var maestra := Maestra(norm, frase, sal, p);
    var claro := ClaroDeRegion(datos, largo - TAG_LEN, v, g, desde);
    match claro.result
    case Err(e) => Sellado(Err(e), [Derives(p)], claro.next)
    case Ok(texto) => Sellado(Ok(SelloDe(seal, maestra, v, texto, aad)), [Derives(p), SealsBytes(|texto|, |aad|)],
                              claro.next)
  }

  function Hex(b: seq<byte>): string
  {
    if b == [] then "" else ["0123456789abcdef"[b[0] / 16], "0123456789abcdef"[b[0] % 16]] + Hex(b[1..])
  }

  /** The passphrase and the data of the second derivation: the hidden volume's, or the discarded ones. */
  function Segundo(pedido: Pedido, descarte: string): (seq<byte>, string)
  {
    match pedido.oculto
    case Some(par) => par
    case None => ([], descarte)
  }

  lemma EmptyFits()
    ensures Padme.Fits(Padme.LEN_PREFIX)
  {
    Padme.ExponentIs(8, 3);
    assert Padme.Pow2(3) == 8 && Padme.Pow2(4) == 16;
    assert Padme.BitLength(3) == 2;
    assert Padme.Pow2(1) == 2;
  }

  ghost predicate MismaFrase(norm: Norm, pedido: Pedido)
  {
    pedido.oculto.Some? && norm(pedido.claveSenuelo) == norm(pedido.oculto.value.1)
  }

  /** `crear`, step by step. */
  ghost function Crear(seal: Seal, norm: Norm, pedido: Pedido, g: Tape, desde: nat): Creacion
    requires IsSeal(seal) && pedido.Representable()
  {
    if pedido.senuelo == [] then Creacion(Err(SenueloVacio), [], [], desde)
    else if pedido.total < TAMANO_MINIMO then
      Creacion(Err(TamanoInsuficiente(pedido.total, TAMANO_MINIMO)), [], [], desde)
    else if MismaFrase(norm, pedido) then Creacion(Err(MismaContrasena), [], [], desde)
    else
      var fondo := Llenar(g, desde, pedido.total);
      match fondo.result
      case Err(e) => Creacion(Err(e), [], [], fondo.next)
      case Ok(azar) => CrearSobre(seal, norm, pedido, g, azar, fondo.next)
  }

  /** The rest of the creation, over the random background `azar`. */
  ghost function CrearSobre(seal: Seal, norm: Norm, pedido: Pedido, g: Tape, azar: seq<byte>, desde: nat): Creacion
    requires IsSeal(seal) && pedido.Representable() && |azar| == pedido.total >= TAMANO_MINIMO
  {
    var s := SellarRegion(seal, norm, pedido.params, pedido.claveSenuelo, pedido.senuelo, Largo(pedido.total, Senuelo),
                          Senuelo,
               DatoAutenticado(Sal(azar), pedido.total), Sal(azar), g, desde);
    match s.result
    case Err(e) => Creacion(Err(e), [], s.ops, s.next)
    case Ok(sello) => Segunda(seal, norm, pedido, g, ConRegion(azar, Senuelo, sello.cipher), Sal(azar), sello, s.ops,
                              s.next)
  }

  /** The second region, over a container with the decoy in it: always sealed, and
   *  written if there is a hidden volume. */
  ghost function Segunda(seal: Seal, norm: Norm, pedido: Pedido, g: Tape, fuera: seq<byte>, sal: Salt, sello: Sealed,
                         ops: seq<Op>, desde: nat): Creacion
    requires IsSeal(seal) && pedido.Representable() && |fuera| == pedido.total >= TAMANO_MINIMO
  {
    var relleno := Llenar(g, desde, 32);
    match relleno.result
    case Err(e) => Creacion(Err(e), [sello], ops, relleno.next)
    case Ok(bytes) =>
      var (datos, frase) := Segundo(pedido, Hex(bytes));
      EmptyFits();
      var o := SellarRegion(seal, norm, pedido.params, frase, datos, Largo(pedido.total, Oculto), Oculto,
                 DatoAutenticado(sal, pedido.total), sal, g, relleno.next);
      match o.result
      case Err(e) => Creacion(Err(e), [sello], ops + o.ops, o.next)
      case Ok(otro) =>
        Creacion(Ok(if pedido.oculto.Some? then ConRegion(fuera, Oculto, otro.cipher) else fuera),
          [sello, otro], ops + o.ops, o.next)
  }

  // ---------------------------------------------------------------------- opening

  /** One region under one passphrase. */
  ghost function AbrirRegion(log: Log, norm: Norm, contenedor: seq<byte>, frase: string, p: KdfParams,
                             v: Volumen): Option<seq<byte>>
    requires |contenedor| >= SALT_LEN
  {
    var maestra := Maestra(norm, frase, Sal(contenedor), p);
    Open(log, Clave(maestra, v), NonceDe(maestra, v), Region(contenedor, v),
         DatoAutenticado(Sal(contenedor), |contenedor|))
  }

  /** What a region contributes: its data, if it opened and its frame is sound. */
  function Contenido(v: Volumen, claro: Option<seq<byte>>): Option<Apertura>
  {
    match claro
    case None => None
    case Some(c) =>
      match Padme.Unpad(c)
      case Ok(datos) => Some(Apertura(v, datos))
      case Err(_) => None
  }

  /** The hidden volume wins if both open. */
  ghost function Intentar(log: Log, norm: Norm, contenedor: seq<byte>, frase: string, p: KdfParams): Option<Apertura>
    requires |contenedor| >= SALT_LEN
  {
    var o := Contenido(Oculto, AbrirRegion(log, norm, contenedor, frase, p, Oculto));
    if o.Some? then o else Contenido(Senuelo, AbrirRegion(log, norm, contenedor, frase, p, Senuelo))
  }

  /** The first profile that opens. */
  ghost function AbrirConPerfiles(log: Log, norm: Norm, contenedor: seq<byte>, frase: string,
                                  perfiles: seq<KdfParams>): Option<Apertura>
    requires |contenedor| >= SALT_LEN
  {
    if perfiles == [] then None
    else
      var r := Intentar(log, norm, contenedor, frase, perfiles[0]);
      if r.Some? then r else AbrirConPerfiles(log, norm, contenedor, frase, perfiles[1..])
  }

  /** What one attempt costs: it depends on the length only. */
  function OpsDeIntento(total: nat, p: KdfParams): seq<Op>
    requires total >= SALT_LEN
  {
    [Derives(p), OpensBytes(Largo(total, Senuelo), SALT_LEN + 8), OpensBytes(Largo(total, Oculto), SALT_LEN + 8)]
  }

  function OpsDeApertura(total: nat, perfiles: seq<KdfParams>): seq<Op>
    requires total >= SALT_LEN
  {
    if perfiles == [] then [] else
      OpsDeApertura(total, perfiles[..|perfiles| - 1]) + OpsDeIntento(total, perfiles[|perfiles| - 1])
  }

  /** Profile v1, the only one published. */
  const V1: KdfParams := KdfParams(262144, 4, 1)
  const CONOCIDOS: seq<KdfParams> := [V1]

  ghost function Abrir(log: Log, norm: Norm, contenedor: seq<byte>, frase: string,
                       perfil: Option<KdfParams>): Result<Apertura, NegacionError>
  {
    if |contenedor| < TAMANO_MINIMO then Err(ContenedorCorto)
    else
      var r := match perfil
        case Some(p) => Intentar(log, norm, contenedor, frase, p)
        case None => AbrirConPerfiles(log, norm, contenedor, frase, CONOCIDOS);
      match r
      case Some(a) => Ok(a)
      case None => Err(NoAbre)
  }
}
