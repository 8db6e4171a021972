/** Opening without knowing the profile, and the keys of the regions. */
module NegacionApertura {
  import opened Results
  import opened Bytes
  import opened Aead
  import opened NegacionSpec
  import opened NegacionTheorems
  import Padme
  import Aleatorio

  // ------------------------------------------------------------------ the profiles

  /** The profile number `i` opens to `a`, and none before it opens. */
  ghost predicate OpensFirst(log: Log, norm: Norm, contenedor: seq<byte>, frase: string, perfiles: seq<KdfParams>,
                             i: nat, a: Apertura)
    requires |contenedor| >= SALT_LEN
  {
    && i < |perfiles|
    && Intentar(log, norm, contenedor, frase, perfiles[i]) == Some(a)
    && forall j :: 0 <= j < i ==> Intentar(log, norm, contenedor, frase, perfiles[j]) == None
  }

  /** Trying all profiles gives what the first that opens gives, and nothing only if none opens. */
  lemma {:induction false} FirstProfileWins(log: Log, norm: Norm, contenedor: seq<byte>, frase: string,
                                            perfiles: seq<KdfParams>, a: Apertura)
    requires |contenedor| >= SALT_LEN
    ensures AbrirConPerfiles(log, norm, contenedor, frase, perfiles) == Some(a) <==>
      exists i: nat :: OpensFirst(log, norm, contenedor, frase, perfiles, i, a)
    ensures AbrirConPerfiles(log, norm, contenedor, frase, perfiles) == None <==>
      forall i :: 0 <= i < |perfiles| ==> Intentar(log, norm, contenedor, frase, perfiles[i]) == None
    decreases |perfiles|
  {
    hide Intentar;
    if perfiles != [] {
      var first, rest := Intentar(log, norm, contenedor, frase, perfiles[0]), perfiles[1..];
      FirstProfileWins(log, norm, contenedor, frase, rest, a);
      if first.Some? {
        assert first == Some(a) ==> OpensFirst(log, norm, contenedor, frase, perfiles, 0, a);
        forall i: nat | OpensFirst(log, norm, contenedor, frase, perfiles, i, a)
          ensures i == 0
        {
        }
      } else {
        if i: nat :| OpensFirst(log, norm, contenedor, frase, rest, i, a) {
          ShiftedFirst(log, norm, contenedor, frase, perfiles, i, a);
        }
        if i: nat :| OpensFirst(log, norm, contenedor, frase, perfiles, i, a) {
          ShiftedFirst(log, norm, contenedor, frase, perfiles, i, a);
        }
        assert forall i :: 0 <= i < |rest| ==> rest[i] == perfiles[i + 1];
        assert forall i :: 0 < i < |perfiles| ==> perfiles[i] == rest[i - 1];
      }
    }
  }

  lemma ShiftedFirst(log: Log, norm: Norm, contenedor: seq<byte>, frase: string, perfiles: seq<KdfParams>, i: nat,
                     a: Apertura)
    requires |contenedor| >= SALT_LEN && perfiles != []
    requires Intentar(log, norm, contenedor, frase, perfiles[0]) == None
    ensures OpensFirst(log, norm, contenedor, frase, perfiles[1..], i, a)
      ==> OpensFirst(log, norm, contenedor, frase, perfiles, i + 1, a)
    ensures OpensFirst(log, norm, contenedor, frase, perfiles, i, a)
      ==> i > 0 && OpensFirst(log, norm, contenedor, frase, perfiles[1..], i - 1, a)
  {
    hide Intentar;
    var rest := perfiles[1..];
    assert forall j :: 0 <= j < |rest| ==> rest[j] == perfiles[j + 1];
    assert forall j :: 0 < j < |perfiles| ==> perfiles[j] == rest[j - 1];
  }

  /** In a container just created no profile but its own opens anything, so a list opens what its own profile does. */
  lemma OwnProfileAnswers(seal: Seal, norm: Norm, pedido: Pedido, p: Partes, g: Tape, desde: nat, previo: Log,
                          log: Log, frase: string, perfiles: seq<KdfParams>)
    requires IsSeal(seal) && pedido.Representable() &&
      p.De(seal, norm, pedido, g, desde, Crear(seal, norm, pedido, g, desde))
    requires LogAfter(seal, previo, p, log)
    ensures AbrirConPerfiles(log, norm, p.Escrito(pedido), frase, perfiles)
      == if pedido.params in perfiles then Intentar(log, norm, p.Escrito(pedido), frase, pedido.params) else None
  {
    hide Crear, LogAfter, Intentar, Partes.Escrito;
    var contenedor := p.Escrito(pedido);
    forall params | params != pedido.params
      ensures Intentar(log, norm, contenedor, frase, params) == None
    {
      WhoOpensWhat(seal, norm, pedido, p, g, desde, previo, log, frase, params);
    }
    hide Partes.De;
    OnlyOneOpens(log, norm, contenedor, frase, perfiles, pedido.params);
  }

  lemma {:induction false} OnlyOneOpens(log: Log, norm: Norm, contenedor: seq<byte>, frase: string,
                                        perfiles: seq<KdfParams>, own: KdfParams)
    requires |contenedor| >= SALT_LEN
    requires forall params :: params != own ==> Intentar(log, norm, contenedor, frase, params) == None
    ensures AbrirConPerfiles(log, norm, contenedor, frase, perfiles)
      == if own in perfiles then Intentar(log, norm, contenedor, frase, own) else None
    decreases |perfiles|
  {
    hide Intentar;
    if perfiles != [] {
      OnlyOneOpens(log, norm, contenedor, frase, perfiles[1..], own);
      assert perfiles == [perfiles[0]] + perfiles[1..];
    }
  }

  /** Without a profile in hand, `abrir` answers as with profile v1: 256 MiB, four passes, one lane. */
  lemma WithoutHint(seal: Seal, norm: Norm, pedido: Pedido, p: Partes, g: Tape, desde: nat, previo: Log, log: Log,
                    frase: string)
    requires IsSeal(seal) && pedido.Representable() &&
      p.De(seal, norm, pedido, g, desde, Crear(seal, norm, pedido, g, desde))
    requires LogAfter(seal, previo, p, log)
    ensures Abrir(log, norm, p.Escrito(pedido), frase, None)
      == if pedido.params == KdfParams(262144, 4, 1)
         then Abrir(log, norm, p.Escrito(pedido), frase, Some(pedido.params)) else Err(NoAbre)
  {
    OwnProfileAnswers(seal, norm, pedido, p, g, desde, previo, log, frase, CONOCIDOS);
    hide Crear, LogAfter, Intentar, AbrirConPerfiles;
    assert pedido.params in CONOCIDOS <==> pedido.params == KdfParams(262144, 4, 1);
  }

  /** What was discarded cannot answer for the decoy. */
  ghost predicate Segregada(norm: Norm, pedido: Pedido, p: Partes)
    requires |p.azar| >= SALT_LEN
  {
    pedido.oculto.Some? || norm(p.descarte) != norm(pedido.claveSenuelo) || Region(p.azar, Oculto) != p.o.cipher
  }

  /** So with any list that holds the profile the decoy's passphrase opens the decoy exactly when it does with the
   *  profile itself; and without a hint, if the profile is v1.
   */
  lemma DecoyOpensItself(seal: Seal, norm: Norm, pedido: Pedido, p: Partes, g: Tape, desde: nat, previo: Log, log: Log,
                         perfiles: seq<KdfParams>)
    requires IsSeal(seal) && pedido.Representable() &&
      p.De(seal, norm, pedido, g, desde, Crear(seal, norm, pedido, g, desde))
    requires LogAfter(seal, previo, p, log)
    ensures var r := AbrirConPerfiles(log, norm, p.Escrito(pedido), pedido.claveSenuelo, perfiles);
      r == Some(Apertura(Senuelo, pedido.senuelo)) <==> pedido.params in perfiles && Segregada(norm, pedido, p)
    ensures var r := Abrir(log, norm, p.Escrito(pedido), pedido.claveSenuelo, None);
      r == Ok(Apertura(Senuelo, pedido.senuelo)) <==>
        pedido.params == KdfParams(262144, 4, 1) && Segregada(norm, pedido, p)
  {
    var clave := pedido.claveSenuelo;
    OwnProfileAnswers(seal, norm, pedido, p, g, desde, previo, log, clave, perfiles);
    DecoyOpensExactly(seal, norm, pedido, p, g, desde, previo, log);
    WithoutHint(seal, norm, pedido, p, g, desde, previo, log, clave);
    LongEnough(seal, norm, pedido, p, g, desde);
    AbrirSome(log, norm, p.Escrito(pedido), clave, pedido.params);
    hide Crear, LogAfter, Intentar, AbrirConPerfiles, Partes.Escrito, Abrir, EsSello;
  }

  lemma AbrirSome(log: Log, norm: Norm, contenedor: seq<byte>, frase: string, params: KdfParams)
    requires |contenedor| >= TAMANO_MINIMO
    ensures match Intentar(log, norm, contenedor, frase, params)
      case Some(a) => Abrir(log, norm, contenedor, frase, Some(params)) == Ok(a)
      case None => Abrir(log, norm, contenedor, frase, Some(params)) == Err(NoAbre)
  {
    hide Intentar;
  }

  /** And the hidden volume's passphrase the hidden data. */
  lemma HiddenOpensItself(seal: Seal, norm: Norm, pedido: Pedido, p: Partes, g: Tape, desde: nat, previo: Log,
                          log: Log, perfiles: seq<KdfParams>)
    requires IsSeal(seal) && pedido.Representable() &&
      p.De(seal, norm, pedido, g, desde, Crear(seal, norm, pedido, g, desde))
    requires LogAfter(seal, previo, p, log) && pedido.oculto.Some?
    ensures var r := AbrirConPerfiles(log, norm, p.Escrito(pedido), pedido.oculto.value.1, perfiles);
      r == Some(Apertura(Oculto, pedido.oculto.value.0)) <==> pedido.params in perfiles
    ensures var r := Abrir(log, norm, p.Escrito(pedido), pedido.oculto.value.1, None);
      r == Ok(Apertura(Oculto, pedido.oculto.value.0)) <==> pedido.params == KdfParams(262144, 4, 1)
  {
    var clave := pedido.oculto.value.1;
    OwnProfileAnswers(seal, norm, pedido, p, g, desde, previo, log, clave, perfiles);
    HiddenOpensExactly(seal, norm, pedido, p, g, desde, previo, log);
    WithoutHint(seal, norm, pedido, p, g, desde, previo, log, clave);
    LongEnough(seal, norm, pedido, p, g, desde);
    AbrirSome(log, norm, p.Escrito(pedido), clave, pedido.params);
    hide Crear, LogAfter, Intentar, AbrirConPerfiles, Partes.Escrito, Abrir, EsSello;
  }

  lemma LongEnough(seal: Seal, norm: Norm, pedido: Pedido, p: Partes, g: Tape, desde: nat)
    requires IsSeal(seal) && pedido.Representable() &&
      p.De(seal, norm, pedido, g, desde, Crear(seal, norm, pedido, g, desde))
    ensures |p.Escrito(pedido)| == pedido.total >= TAMANO_MINIMO
  {
    hide Crear;
  }

  /** Every answer of `abrir`, on any bytes. */
  lemma AbrirAnswers(log: Log, norm: Norm, contenedor: seq<byte>, frase: string, params: KdfParams)
    ensures |contenedor| < 1024 ==>
      && Abrir(log, norm, contenedor, frase, Some(params)) == Err(ContenedorCorto)
      && Abrir(log, norm, contenedor, frase, None) == Err(ContenedorCorto)
    ensures |contenedor| >= 1024 ==>
      && (Abrir(log, norm, contenedor, frase, Some(params))
            == match Intentar(log, norm, contenedor, frase, params)
               case Some(a) => Ok(a)
               case None => Err(NoAbre))
      && Abrir(log, norm, contenedor, frase, None)
           == Abrir(log, norm, contenedor, frase, Some(KdfParams(262144, 4, 1)))
  {
    hide Intentar;
    if |contenedor| >= 1024 {
      var v1 := KdfParams(262144, 4, 1);
      assert CONOCIDOS == [v1] && CONOCIDOS[1..] == [];
      assert AbrirConPerfiles(log, norm, contenedor, frase, CONOCIDOS) == Intentar(log, norm, contenedor, frase, v1);
    }
  }

  // ---------------------------------------------------------------------- the keys

  /** The key of a region is the passphrase as the KDF sees it, the salt, the profile and which region it is. */
  lemma KeysInjective(norm: Norm, f: string, sal: Salt, params: KdfParams, v: Volumen, f': string, sal': Salt,
                      params': KdfParams, v': Volumen)
    ensures Clave(Maestra(norm, f, sal, params), v) == Clave(Maestra(norm, f', sal', params'), v')
      <==> norm(f) == norm(f') && sal == sal' && params == params' && v == v'
    ensures NonceDe(Maestra(norm, f, sal, params), v) == NonceDe(Maestra(norm, f', sal', params'), v')
      <==> norm(f) == norm(f') && sal == sal' && params == params' && v == v'
  {
    assert |Info(v)| == if v == Senuelo then 25 else 24;
    assert |Info(v')| == if v' == Senuelo then 25 else 24;
    assert |Info(v) + INFO_NONCE| == |Info(v)| + |INFO_NONCE| && |Info(v') + INFO_NONCE| == |Info(v')| + |INFO_NONCE|;
  }

  /** No two seals share a key or a nonce: not the two of a creation, nor any of two creations with different salts. */
  lemma NoKeyTwice(seal: Seal, norm: Norm, uno: Pedido, p: Partes, g: Tape, desde: nat, otro: Pedido, q: Partes,
                   g': Tape, desde': nat)
    requires IsSeal(seal) && uno.Representable() && otro.Representable()
    requires p.De(seal, norm, uno, g, desde, Crear(seal, norm, uno, g, desde))
    requires q.De(seal, norm, otro, g', desde', Crear(seal, norm, otro, g', desde'))
    ensures p.s.key != p.o.key && p.s.nonce != p.o.nonce
    ensures Sal(p.azar) != Sal(q.azar) ==>
      forall a, b | a in {p.s, p.o} && b in {q.s, q.o} :: a.key != b.key && a.nonce != b.nonce
  {
    hide Crear, Llenar, Padme.Fits, Padme.Frame, ToBe, IsSeal, MismaFrase;
    var f, f' := Segundo(uno, p.descarte).1, Segundo(otro, q.descarte).1;
    var sal, sal' := Sal(p.azar), Sal(q.azar);
    KeysInjective(norm, uno.claveSenuelo, sal, uno.params, Senuelo, f, sal, uno.params, Oculto);
    KeysInjective(norm, uno.claveSenuelo, sal, uno.params, Senuelo, otro.claveSenuelo, sal', otro.params, Senuelo);
    KeysInjective(norm, uno.claveSenuelo, sal, uno.params, Senuelo, f', sal', otro.params, Oculto);
    KeysInjective(norm, f, sal, uno.params, Oculto, otro.claveSenuelo, sal', otro.params, Senuelo);
    KeysInjective(norm, f, sal, uno.params, Oculto, f', sal', otro.params, Oculto);
    hide Clave, NonceDe, Maestra;
  }
}
