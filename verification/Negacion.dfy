/** `src/negacion.rs` as it runs: buffers that are filled and overwritten, a box that seals, a source
 *  of randomness, and a meter that records what an observer of the process can see.
 */
module Negacion {
  import opened Results
  import opened Bytes
  import opened Aead
  import opened NegacionSpec
  import Padme
  import Aleatorio

  /** The cryptography of the process, with the operations it has done. */
  class Meter {
    const box: Box
    var ops: seq<Op>

    constructor (b: Box)
      ensures box == b && ops == []
    {
      box := b;
      ops := [];
    }

    method Derive(norm: Norm, frase: string, sal: Salt, params: KdfParams) returns (maestra: Key)
      modifies this
      ensures maestra == Maestra(norm, frase, sal, params)
      ensures ops == old(ops) + [Derives(params)]
    {
      maestra := Master(norm(frase), sal, params);
      ops := ops + [Derives(params)];
    }

    method Encrypt(k: Key, n: Nonce, claro: seq<byte>, aad: seq<byte>) returns (c: seq<byte>)
      requires box.Valid()
      modifies this, box
      ensures box.Valid()
      ensures c == box.seal(k, n, claro, aad) && |c| == |claro| + TAG_LEN
      ensures box.log == old(box.log) + {SealedAs(box.seal, k, n, claro, aad)}
      ensures ops == old(ops) + [SealsBytes(|claro|, |aad|)]
    {
      c := box.Encrypt(k, n, claro, aad);
      ops := ops + [SealsBytes(|claro|, |aad|)];
    }

    method Decrypt(k: Key, n: Nonce, c: seq<byte>, aad: seq<byte>) returns (r: Option<seq<byte>>)
      requires box.Valid()
      modifies this
      ensures r == Open(box.log, k, n, c, aad)
      ensures ops == old(ops) + [OpensBytes(|c|, |aad|)]
    {
      r := box.Decrypt(k, n, c, aad);
      ops := ops + [OpensBytes(|c|, |aad|)];
    }
  }

  /** The draws of a fresh buffer, as `llenar` leaves it. */
  method Azar(fuente: Aleatorio.Fuente, n: nat) returns (r: Result<seq<byte>, NegacionError>)
    modifies fuente`pedidas
    ensures var d := NegacionSpec.Llenar(fuente.guion, old(fuente.pedidas), n);
      r == d.result && fuente.pedidas == d.next
  {
    var buffer := new byte[n];
    var lleno := Aleatorio.Llenar(fuente, buffer);
    match lleno {
      case Ok(_) => r := Ok(buffer[..]);
      case Err(e) => r := Err(SinEntropia(e));
    }
  }

  lemma FrameThenTail(datos: seq<byte>, largo: nat, v: Volumen, g: Tape, desde: nat)
    requires Padme.Fits(Padme.LEN_PREFIX + |datos|)
    ensures var marco := Padme.Frame(datos);
      NegacionSpec.ClaroDeRegion(datos, largo, v, g, desde) ==
        if |marco| > largo then Draw(Err(NoCabe(v, largo, |marco|)), desde)
        else
          var cola := NegacionSpec.Llenar(g, desde, largo - |marco|);
          Draw(if cola.result.Ok? then Ok(marco + cola.result.value) else Err(cola.result.error), cola.next)
  {
    hide Padme.Frame, Padme.Fits, NegacionSpec.Llenar;
  }

  method ClaroDeRegion(datos: seq<byte>, largo: nat, v: Volumen, fuente: Aleatorio.Fuente)
    returns (r: Result<seq<byte>, NegacionError>)
    requires Padme.Fits(Padme.LEN_PREFIX + |datos|)
    modifies fuente`pedidas
    ensures var d := NegacionSpec.ClaroDeRegion(datos, largo, v, fuente.guion, old(fuente.pedidas));
      r == d.result && fuente.pedidas == d.next
  {
    hide *;
    FrameThenTail(datos, largo, v, fuente.guion, fuente.pedidas);
    var claro := Padme.Pad(datos);
    if |claro| > largo {
      return Err(NoCabe(v, largo, |claro|));
    }
    var azar := Azar(fuente, largo - |claro|);
    match azar {
      case Ok(cola) => r := Ok(claro + cola);
      case Err(e) => r := Err(e);
    }
  }

  /** Derives the keys of a region, prepares its plain text and seals it. */
  method SellarRegion(meter: Meter, norm: Norm, p: KdfParams, frase: string, datos: seq<byte>, largo: nat, v: Volumen,
                      aad: seq<byte>, sal: Salt, fuente: Aleatorio.Fuente)
    returns (r: Result<seq<byte>, NegacionError>, ghost sello: Sealed)
    requires meter.box.Valid() && Padme.Fits(Padme.LEN_PREFIX + |datos|) && largo >= TAG_LEN
    modifies meter, meter.box, fuente`pedidas
    ensures meter.box.Valid()
    ensures var d := NegacionSpec.SellarRegion(meter.box.seal, norm, p, frase, datos, largo, v, aad, sal, fuente.guion,
                                               old(fuente.pedidas));
      && fuente.pedidas == d.next
      && meter.ops == old(meter.ops) + d.ops
      && match d.result
         case Err(e) => r == Err(e) && meter.box.log == old(meter.box.log)
         case Ok(s) =>
           && s == sello && r == Ok(s.cipher) && |s.cipher| == largo
           && meter.box.log == old(meter.box.log) + {s}
  {
    hide Padme.Fits;
    var maestra := meter.Derive(norm, frase, sal, p);
    sello := SelloDe(meter.box.seal, maestra, v, [], aad);
    var claro := ClaroDeRegion(datos, largo - TAG_LEN, v, fuente);
    match claro {
      case Err(e) =>
        r := Err(e);
      case Ok(texto) =>
        var cifrado := meter.Encrypt(Clave(maestra, v), NonceDe(maestra, v), texto, aad);
        sello := SelloDe(meter.box.seal, maestra, v, texto, aad);
        assert old(meter.ops) + [Derives(p)] + [SealsBytes(|texto|, |aad|)]
          == old(meter.ops) + [Derives(p), SealsBytes(|texto|, |aad|)];
        r := Ok(cifrado);
    }
  }

  method Hexadecimal(bytes: seq<byte>) returns (s: string)
    ensures s == Hex(bytes)
  {
    s := "";
    var i := |bytes|;
    while i > 0
      invariant 0 <= i <= |bytes| && s == Hex(bytes[i..])
    {
      i := i - 1;
      assert bytes[i..][1..] == bytes[i + 1..];
      s := ["0123456789abcdef"[bytes[i] / 16], "0123456789abcdef"[bytes[i] % 16]] + s;
    }
    assert bytes[0..] == bytes;
  }

  ghost function Sellos(s: seq<Sealed>): Log { set x | x in s }

  lemma SellosAre(s: Sealed, o: Sealed)
    ensures Sellos([]) == {} && Sellos([s]) == {s} && Sellos([s, o]) == {s} + {o}
  {
  }

  method Crear(meter: Meter, norm: Norm, pedido: Pedido, fuente: Aleatorio.Fuente)
    returns (r: Result<seq<byte>, NegacionError>)
    requires meter.box.Valid() && pedido.Representable()
    modifies meter, meter.box, fuente`pedidas
    ensures meter.box.Valid()
    ensures var c := NegacionSpec.Crear(meter.box.seal, norm, pedido, fuente.guion, old(fuente.pedidas));
      && r == c.result
      && fuente.pedidas == c.next
      && meter.ops == old(meter.ops) + c.ops
      && meter.box.log == old(meter.box.log) + Sellos(c.sellos)
  {
    hide Padme.Fits, DatoAutenticado, Genuine, IsSeal, NegacionSpec.CrearSobre, NegacionSpec.Llenar;
    assert Sellos([]) == {};
    assert IsSeal(meter.box.seal) by { Sealing(meter.box.seal, meter.box.log); }
    if pedido.senuelo == [] {
      return Err(SenueloVacio);
    }
    if pedido.total < TAMANO_MINIMO {
      return Err(TamanoInsuficiente(pedido.total, TAMANO_MINIMO));
    }
    match pedido.oculto {
      case None =>
      case Some(par) =>
        if norm(pedido.claveSenuelo) == norm(par.1) {
          return Err(MismaContrasena);
        }
    }
    var azar := Azar(fuente, pedido.total);
    if azar.Err? {
      return Err(azar.error);
    }
    r := CrearSobre(meter, norm, pedido, fuente, azar.value);
  }

  lemma Sealing(seal: Seal, log: Log)
    requires Genuine(seal, log)
    ensures IsSeal(seal)
  {
  }

  /** `fuera[region].copy_from_slice(cifrado)`. */
  method EscribirRegion(fuera: array<byte>, v: Volumen, cifrado: seq<byte>)
    requires fuera.Length >= SALT_LEN && |cifrado| == Largo(fuera.Length, v)
    modifies fuera
    ensures fuera[..] == ConRegion(old(fuera[..]), v, cifrado)
  {
    var desde := if v == Senuelo then SALT_LEN else Corte(fuera.Length);
    CopyInto(fuera, desde, cifrado);
    assert fuera[..] == fuera[..desde] + fuera[desde..desde + |cifrado|] + fuera[desde + |cifrado|..];
  }

  /** The decoy over the random background, and then the other region. */
  method CrearSobre(meter: Meter, norm: Norm, pedido: Pedido, fuente: Aleatorio.Fuente, azar: seq<byte>)
    returns (r: Result<seq<byte>, NegacionError>)
    requires meter.box.Valid() && IsSeal(meter.box.seal) && pedido.Representable()
    requires |azar| == pedido.total >= TAMANO_MINIMO
    modifies meter, meter.box, fuente`pedidas
    ensures meter.box.Valid()
    ensures var c := NegacionSpec.CrearSobre(meter.box.seal, norm, pedido, fuente.guion, azar, old(fuente.pedidas));
      && r == c.result
      && fuente.pedidas == c.next
      && meter.ops == old(meter.ops) + c.ops
      && meter.box.log == old(meter.box.log) + Sellos(c.sellos)
  {
    hide Padme.Fits, DatoAutenticado, Genuine, IsSeal, NegacionSpec.SellarRegion, ConRegion, Sellos, Segunda, Sal;
    var sal := Sal(azar);
    var aad := DatoAutenticado(sal, pedido.total);
    var fuera := new byte[|azar|](i requires 0 <= i < |azar| => azar[i]);
    assert fuera[..] == azar;
    ghost var d := NegacionSpec.SellarRegion(meter.box.seal, norm, pedido.params, pedido.claveSenuelo, pedido.senuelo,
                     Largo(pedido.total, Senuelo), Senuelo, aad, sal, fuente.guion, fuente.pedidas);
    ghost var s;
    var cifrado;
    cifrado, s := SellarRegion(meter, norm, pedido.params, pedido.claveSenuelo, pedido.senuelo,
                               Largo(pedido.total, Senuelo),
      Senuelo, aad, sal, fuente);
    SellosAre(s, s);
    if cifrado.Err? {
      return Err(cifrado.error);
    }
    EscribirRegion(fuera, Senuelo, cifrado.value);
    r := SellarOtra(meter, norm, pedido, fuente, fuera, sal, old(meter.box.log), s, old(meter.ops), d.ops);
  }

  /** The second region is derived and sealed whether or not it is written. */
  method SellarOtra(meter: Meter, norm: Norm, pedido: Pedido, fuente: Aleatorio.Fuente, fuera: array<byte>, sal: Salt,
                    ghost log: Log, ghost s: Sealed, ghost before: seq<Op>, ghost ops: seq<Op>)
    returns (r: Result<seq<byte>, NegacionError>)
    requires meter.box.Valid() && IsSeal(meter.box.seal) && pedido.Representable()
    requires fuera.Length == pedido.total >= TAMANO_MINIMO
    requires meter.box.log == log + {s} && meter.ops == before + ops
    modifies meter, meter.box, fuente`pedidas, fuera
    ensures meter.box.Valid()
    ensures var c := Segunda(meter.box.seal, norm, pedido, fuente.guion, old(fuera[..]), sal, s, ops,
                             old(fuente.pedidas));
      && r == c.result
      && fuente.pedidas == c.next
      && meter.ops == before + c.ops
      && meter.box.log == log + Sellos(c.sellos)
  {
    hide Padme.Fits, DatoAutenticado, Genuine, IsSeal, NegacionSpec.SellarRegion, ConRegion, NegacionSpec.Llenar, Hex,
      Sellos;
    SellosAre(s, s);
    var relleno := Azar(fuente, 32);
    if relleno.Err? {
      return Err(relleno.error);
    }
    var descarte := Hexadecimal(relleno.value);
    var (datos, frase) := Segundo(pedido, descarte);
    EmptyFits();
    var cifrado;
    ghost var o;
    cifrado, o := SellarRegion(meter, norm, pedido.params, frase, datos, Largo(pedido.total, Oculto), Oculto,
      DatoAutenticado(sal, pedido.total), sal, fuente);
    if cifrado.Err? {
      return Err(cifrado.error);
    }
    SellosAre(s, o);
    if pedido.oculto.Some? {
      EscribirRegion(fuera, Oculto, cifrado.value);
    }
    r := Ok(fuera[..]);
  }

  /** Both regions are always tried, whatever the first one answers. */
  method Intentar(meter: Meter, norm: Norm, contenedor: seq<byte>, frase: string, p: KdfParams)
    returns (r: Option<Apertura>)
    requires meter.box.Valid() && |contenedor| >= SALT_LEN
    modifies meter
    ensures r == NegacionSpec.Intentar(meter.box.log, norm, contenedor, frase, p)
    ensures meter.ops == old(meter.ops) + OpsDeIntento(|contenedor|, p)
  {
    hide Open, ToBe;
    var sal := Sal(contenedor);
    var aad := DatoAutenticado(sal, |contenedor|);
    var maestra := meter.Derive(norm, frase, sal, p);
    var abreSenuelo := meter.Decrypt(Clave(maestra, Senuelo), NonceDe(maestra, Senuelo), Region(contenedor, Senuelo),
                                     aad);
    var abreOculto := meter.Decrypt(Clave(maestra, Oculto), NonceDe(maestra, Oculto), Region(contenedor, Oculto), aad);
    r := None;
    for i := 0 to 2
      invariant i == 0 ==> r == None
      invariant i == 1 ==> r == Contenido(Oculto, abreOculto)
      invariant i == 2 && Contenido(Oculto, abreOculto).Some? ==> r == Contenido(Oculto, abreOculto)
      invariant i == 2 && Contenido(Oculto, abreOculto).None? ==> r == Contenido(Senuelo, abreSenuelo)
    {
      var v, claro := if i == 0 then Oculto else Senuelo, if i == 0 then abreOculto else abreSenuelo;
      if r.None? && claro.Some? {
        var datos := Padme.Unpad(claro.value);
        if datos.Ok? {
          r := Some(Apertura(v, datos.value));
        }
      }
    }
  }

  /** All profiles are tried, whichever opens. */
  method AbrirConPerfiles(meter: Meter, norm: Norm, contenedor: seq<byte>, frase: string, perfiles: seq<KdfParams>)
    returns (abierto: Option<Apertura>)
    requires meter.box.Valid() && |contenedor| >= SALT_LEN
    modifies meter
    ensures abierto == NegacionSpec.AbrirConPerfiles(meter.box.log, norm, contenedor, frase, perfiles)
    ensures meter.ops == old(meter.ops) + OpsDeApertura(|contenedor|, perfiles)
  {
    hide NegacionSpec.Intentar, OpsDeIntento;
    abierto := None;
    for i := 0 to |perfiles|
      invariant NegacionSpec.AbrirConPerfiles(meter.box.log, norm, contenedor, frase, perfiles)
        == if abierto.Some? then abierto
           else NegacionSpec.AbrirConPerfiles(meter.box.log, norm, contenedor, frase, perfiles[i..])
      invariant meter.ops == old(meter.ops) + OpsDeApertura(|contenedor|, perfiles[..i])
    {
      assert perfiles[i..][1..] == perfiles[i + 1..];
      assert perfiles[..i + 1][..i] == perfiles[..i];
      var r := Intentar(meter, norm, contenedor, frase, perfiles[i]);
      if abierto.None? {
        abierto := r;
      }
    }
    assert perfiles[..|perfiles|] == perfiles;
  }

  method Abrir(meter: Meter, norm: Norm, contenedor: seq<byte>, frase: string, perfil: Option<KdfParams>)
    returns (r: Result<Apertura, NegacionError>)
    requires meter.box.Valid()
    modifies meter
    ensures r == NegacionSpec.Abrir(meter.box.log, norm, contenedor, frase, perfil)
    ensures |contenedor| < TAMANO_MINIMO ==> meter.ops == old(meter.ops)
    ensures |contenedor| >= TAMANO_MINIMO ==>
      meter.ops == old(meter.ops) + OpsDeApertura(|contenedor|, if perfil.Some? then [perfil.value] else CONOCIDOS)
  {
    hide NegacionSpec.Intentar, OpsDeIntento;
    if |contenedor| < TAMANO_MINIMO {
      return Err(ContenedorCorto);
    }
    var abierto;
    match perfil {
      case Some(p) =>
        assert OpsDeApertura(|contenedor|, [p]) == OpsDeIntento(|contenedor|, p) by {
          assert OpsDeApertura(|contenedor|, [p][..0]) == [];
        }
        abierto := Intentar(meter, norm, contenedor, frase, p);
      case None =>
        abierto := AbrirConPerfiles(meter, norm, contenedor, frase, CONOCIDOS);
    }
    r := if abierto.Some? then Ok(abierto.value) else Err(NoAbre);
  }
}
