/** `src/aleatorio.rs`: the health test on what the system's random source delivered, and the
 *  bounded retry around that source.
 */
module Aleatorio {
  import opened Results

  const INTENTOS: nat := 3
  const REPETICION_QUE_DELATA: nat := 8

  datatype FalloDeSalud = TodoCeros | Atascada(repetido: byte, veces: nat)

  datatype SinEntropia = SinEntropia(bytes: nat, intentos: nat, codigoOs: Option<int>, salud: Option<FalloDeSalud>)

  /** Eight equal elements start at `p`. */
  predicate RunAt<T(==)>(s: seq<T>, p: nat)
  {
    p + REPETICION_QUE_DELATA <= |s| && forall j :: p <= j < p + REPETICION_QUE_DELATA ==> s[j] == s[p]
  }

  /** No eight consecutive elements are equal. */
  predicate Healthy<T(==)>(s: seq<T>)
  {
    forall p: nat :: p < |s| ==> !RunAt(s, p)
  }

  /** The first run at or after `p`. */
  function FirstRun(s: seq<byte>, p: nat): (r: Option<nat>)
    ensures r.Some? ==> r.value >= p && RunAt(s, r.value) && forall q: nat :: p <= q < r.value ==> !RunAt(s, q)
    ensures r.None? ==> forall q: nat :: p <= q ==> !RunAt(s, q)
    decreases |s| - p
  {
    if p >= |s| then None else if RunAt(s, p) then Some(p) else FirstRun(s, p + 1)
  }

  /** What the health test answers. */
  function Diagnosis(s: seq<byte>): Option<FalloDeSalud>
  {
    if |s| >= REPETICION_QUE_DELATA && (forall i :: 0 <= i < |s| ==> s[i] == 0) then Some(TodoCeros)
    else match FirstRun(s, 0)
      case None => None
      case Some(p) => Some(Atascada(s[p], REPETICION_QUE_DELATA))
  }

  /** The diagnosis said without following the loop: when it is None, all zeros, or which byte. */
  lemma DiagnosisMeaning(s: seq<byte>)
    ensures Diagnosis(s) == None <==> Healthy(s)
    ensures Diagnosis(s) == Some(TodoCeros) <==> !Healthy(s) && forall i :: 0 <= i < |s| ==> s[i] == 0
    ensures forall b, n :: Diagnosis(s) == Some(Atascada(b, n)) <==>
      && n == REPETICION_QUE_DELATA
      && (exists i :: 0 <= i < |s| && s[i] != 0)
      && exists p: nat :: RunAt(s, p) && s[p] == b && forall q: nat :: q < p ==> !RunAt(s, q)
  {
    if |s| >= REPETICION_QUE_DELATA && forall i :: 0 <= i < |s| ==> s[i] == 0 {
      assert RunAt(s, 0);
    }
    match FirstRun(s, 0)
    case None =>
    case Some(p) =>
      assert RunAt(s, p);
  }

  method SaludDe(muestra: seq<byte>) returns (r: Option<FalloDeSalud>)
    ensures r == Diagnosis(muestra)
  {
    if |muestra| >= REPETICION_QUE_DELATA && forall i :: 0 <= i < |muestra| ==> muestra[i] == 0 {
      return Some(TodoCeros);
    }
    var seguidos := 1;
    var i := 0;
    while i + 1 < |muestra|
      invariant |muestra| == 0 || i < |muestra|
      invariant 1 <= seguidos <= i + 1
      invariant seguidos < REPETICION_QUE_DELATA
      invariant i < |muestra| ==> forall j :: i + 1 - seguidos <= j <= i ==> muestra[j] == muestra[i]
      invariant i < |muestra| && seguidos <= i ==> muestra[i - seguidos] != muestra[i]
      invariant forall q: nat :: q + REPETICION_QUE_DELATA <= i + 1 ==> !RunAt(muestra, q)
    {
      if muestra[i] == muestra[i + 1] {
        seguidos := seguidos + 1;
        if seguidos >= REPETICION_QUE_DELATA {
          ghost var p := i + 2 - REPETICION_QUE_DELATA;
          assert RunAt(muestra, p);
          return Some(Atascada(muestra[i], seguidos));
        }
      } else {
        seguidos := 1;
      }
      i := i + 1;
      forall q: nat | q + REPETICION_QUE_DELATA == i + 1
        ensures !RunAt(muestra, q)
      {
        assert q < i + 1 - seguidos;
        assert muestra[i - seguidos] != muestra[i];
        assert q <= i - seguidos < q + REPETICION_QUE_DELATA;
      }
    }
    assert FirstRun(muestra, 0).None?;
    r := None;
  }

  // ------------------------------------------------------------ the source

  /** One answer of the system: the bytes delivered, or an error and whatever it left in the buffer. */
  datatype Respuesta = Entrega(datos: nat -> byte) | Error(codigo: Option<int>, basura: nat -> byte)

  function Bytes(f: nat -> byte, n: nat): (s: seq<byte>)
    ensures |s| == n
  {
    seq(n, i requires 0 <= i < n => f(i))
  }

  predicate Transitorio(codigo: Option<int>) { codigo == Some(23) || codigo == Some(24) }

  /** The system's source: the answers it will give, and how many requests were made so far. */
  class Fuente {
    const guion: nat -> Respuesta
    var pedidas: nat

    constructor (g: nat -> Respuesta)
      ensures guion == g && pedidas == 0
    {
      guion := g;
      pedidas := 0;
    }

    method Fill(destino: array<byte>) returns (r: Result<(), Option<int>>)
      modifies this`pedidas, destino
      ensures pedidas == old(pedidas) + 1
      ensures guion(old(pedidas)).Entrega? ==>
        r == Ok(()) && destino[..] == Bytes(guion(old(pedidas)).datos, destino.Length)
      ensures guion(old(pedidas)).Error? ==>
        r == Err(guion(old(pedidas)).codigo) && destino[..] == Bytes(guion(old(pedidas)).basura, destino.Length)
    {
      var f;
      match guion(pedidas) {
        case Entrega(datos) => r := Ok(()); f := datos;
        case Error(codigo, basura) => r := Err(codigo); f := basura;
      }
      for i := 0 to destino.Length
        modifies destino
        invariant forall j :: 0 <= j < i ==> destino[j] == f(j)
      {
        destino[i] := f(i);
      }
      assert destino[..] == Bytes(f, destino.Length);
      pedidas := pedidas + 1;
    }
  }

  /** How a call to `llenar` ends: its result, the buffer it leaves, the requests it made. */
  datatype Llenado = Llenado(resultado: Result<(), SinEntropia>, buffer: seq<byte>, pedidas: nat)

  /** `llenar` from the attempt numbered `intento`, when the source has answered `desde` requests. */
  function Intentos(g: nat -> Respuesta, desde: nat, n: nat, intento: nat, ultimo: Option<int>,
                    buffer: seq<byte>): Llenado
    requires 1 <= intento <= INTENTOS + 1
    decreases INTENTOS + 1 - intento
  {
    if intento > INTENTOS then
      Llenado(Err(SinEntropia(n, INTENTOS, ultimo, None)), buffer, 0)
    else match g(desde)
      case Entrega(f) =>
        var s := Bytes(f, n);
        (match Diagnosis(s)
         case None => Llenado(Ok(()), s, 1)
         case Some(fallo) => Llenado(Err(SinEntropia(n, intento, None, Some(fallo))), seq(n, _ => 0), 1))
      case Error(codigo, f) =>
        if !Transitorio(codigo) then Llenado(Err(SinEntropia(n, intento, codigo, None)), Bytes(f, n), 1)
        else
          var resto := Intentos(g, desde + 1, n, intento + 1, codigo, Bytes(f, n));
          resto.(pedidas := resto.pedidas + 1)
  }

  function LlenarSpec(g: nat -> Respuesta, desde: nat, n: nat): Llenado
  {
    Intentos(g, desde, n, 1, None, [])
  }

  method Llenar(fuente: Fuente, destino: array<byte>) returns (r: Result<(), SinEntropia>)
    modifies fuente`pedidas, destino
    ensures r == LlenarSpec(fuente.guion, old(fuente.pedidas), destino.Length).resultado
    ensures destino[..] == LlenarSpec(fuente.guion, old(fuente.pedidas), destino.Length).buffer
    ensures fuente.pedidas == old(fuente.pedidas) +
      LlenarSpec(fuente.guion, old(fuente.pedidas), destino.Length).pedidas
  {
    var ultimo: Option<int> := None;
    ghost var total := LlenarSpec(fuente.guion, fuente.pedidas, destino.Length);
    ghost var buffer: seq<byte> := [];
    for intento := 1 to INTENTOS + 1
      invariant total.resultado == Intentos(fuente.guion, fuente.pedidas, destino.Length, intento, ultimo,
                                            buffer).resultado
      invariant total.buffer == Intentos(fuente.guion, fuente.pedidas, destino.Length, intento, ultimo, buffer).buffer
      invariant old(fuente.pedidas) + total.pedidas
        == fuente.pedidas + Intentos(fuente.guion, fuente.pedidas, destino.Length, intento, ultimo, buffer).pedidas
      invariant intento > 1 ==> buffer == destino[..]
    {
      var e := fuente.Fill(destino);
      match e {
        case Ok(_) =>
          var salud := SaludDe(destino[..]);
          match salud {
            case None =>
              return Ok(());
            case Some(fallo) =>
              Cero(destino);
              return Err(SinEntropia(destino.Length, intento, None, Some(fallo)));
          }
        case Err(codigo) =>
          ultimo := codigo;
          if !Transitorio(ultimo) {
            return Err(SinEntropia(destino.Length, intento, ultimo, None));
          }
      }
      buffer := destino[..];
    }
    r := Err(SinEntropia(destino.Length, INTENTOS, ultimo, None));
  }

  method Cero(destino: array<byte>)
    modifies destino
    ensures destino[..] == seq(destino.Length, _ => 0)
  {
    for i := 0 to destino.Length
      invariant forall j :: 0 <= j < i ==> destino[j] == 0
    {
      destino[i] := 0;
    }
  }

  /** What a call that starts after `hechos` failed attempts keeps, whatever the source does: the
   *  requests are at most three in all, and only the last one is not answered by a transient error;
   *  success needs a healthy delivery, which is exactly what the buffer then holds; a failure that
   *  names a health problem leaves a buffer of zeros; any other stops at a permanent error or at the third.
   */
  ghost predicate Guarantees(g: nat -> Respuesta, desde: nat, n: nat, hechos: nat, l: Llenado)
  {
    && 1 <= l.pedidas <= INTENTOS - hechos
    && |l.buffer| == n
    && (forall i :: desde <= i < desde + l.pedidas - 1 ==> g(i).Error? && Transitorio(g(i).codigo))
    && match l.resultado
       case Ok(_) =>
         var ultima := g(desde + l.pedidas - 1);
         ultima.Entrega? && l.buffer == Bytes(ultima.datos, n) && Healthy(l.buffer)
       case Err(e) =>
         var ultima := g(desde + l.pedidas - 1);
         && e.bytes == n && e.intentos == hechos + l.pedidas
         && (e.salud.Some? ==>
              && e.codigoOs == None && ultima.Entrega?
              && !Healthy(Bytes(ultima.datos, n)) && e.salud == Diagnosis(Bytes(ultima.datos, n))
              && forall i :: 0 <= i < n ==> l.buffer[i] == 0)
         && (e.salud.None? ==>
              ultima.Error? && e.codigoOs == ultima.codigo && (Transitorio(ultima.codigo) ==> e.intentos == INTENTOS))
  }

  lemma LlenarGuarantees(g: nat -> Respuesta, desde: nat, n: nat)
    ensures Guarantees(g, desde, n, 0, LlenarSpec(g, desde, n))
  {
    IntentosGuarantees(g, desde, n, 1, None, []);
  }

  lemma DeliveryGuarantees(g: nat -> Respuesta, desde: nat, n: nat, hechos: nat, f: nat -> byte)
    requires hechos < INTENTOS && g(desde) == Entrega(f)
    ensures Diagnosis(Bytes(f, n)).None? ==> Guarantees(g, desde, n, hechos, Llenado(Ok(()), Bytes(f, n), 1))
    ensures Diagnosis(Bytes(f, n)).Some? ==>
      Guarantees(g, desde, n, hechos,
        Llenado(Err(SinEntropia(n, hechos + 1, None, Diagnosis(Bytes(f, n)))), seq(n, _ => 0), 1))
  {
    DiagnosisMeaning(Bytes(f, n));
    hide Diagnosis, Healthy;
  }

  lemma ErrorGuarantees(g: nat -> Respuesta, desde: nat, n: nat, hechos: nat, codigo: Option<int>, f: nat -> byte)
    requires hechos < INTENTOS && g(desde) == Error(codigo, f)
    requires Transitorio(codigo) ==> hechos + 1 == INTENTOS
    ensures Guarantees(g, desde, n, hechos, Llenado(Err(SinEntropia(n, hechos + 1, codigo, None)), Bytes(f, n), 1))
  {
    hide Diagnosis, Healthy, Transitorio;
  }

  /** A transient error in front of a call that keeps its guarantees. */
  lemma RetryGuarantees(g: nat -> Respuesta, desde: nat, n: nat, hechos: nat, codigo: Option<int>, f: nat -> byte,
                        l: Llenado)
    requires hechos < INTENTOS && g(desde) == Error(codigo, f) && Transitorio(codigo)
    requires Guarantees(g, desde + 1, n, hechos + 1, l)
    ensures Guarantees(g, desde, n, hechos, l.(pedidas := l.pedidas + 1))
  {
    hide Diagnosis, Healthy, Transitorio, Bytes;
  }

  lemma {:induction false} IntentosGuarantees(g: nat -> Respuesta, desde: nat, n: nat, intento: nat,
                                              ultimo: Option<int>, buffer: seq<byte>)
    requires 1 <= intento <= INTENTOS
    ensures Guarantees(g, desde, n, intento - 1, Intentos(g, desde, n, intento, ultimo, buffer))
    decreases INTENTOS - intento
  {
    hide Diagnosis, Healthy, Bytes, Guarantees, Transitorio;
    match g(desde)
    case Entrega(f) =>
      DeliveryGuarantees(g, desde, n, intento - 1, f);
    case Error(codigo, f) =>
      if Transitorio(codigo) && intento < INTENTOS {
        IntentosGuarantees(g, desde + 1, n, intento + 1, codigo, Bytes(f, n));
        RetryGuarantees(g, desde, n, intento - 1, codigo, f,
                        Intentos(g, desde + 1, n, intento + 1, codigo, Bytes(f, n)));
      } else {
        ErrorGuarantees(g, desde, n, intento - 1, codigo, f);
      }
  }

  /** `llenar` succeeds exactly if one of the first three answers delivers bytes of which no eight in a row are equal,
   *  and the system only asked to try again before, with the codes 23 or 24.
   */
  lemma SucceedsExactly(g: nat -> Respuesta, desde: nat, n: nat)
    ensures LlenarSpec(g, desde, n).resultado.Ok? <==> exists k: nat :: DeliversAt(g, desde, n, k)
    ensures forall k: nat :: DeliversAt(g, desde, n, k) ==>
      LlenarSpec(g, desde, n).buffer == Bytes(g(desde + k).datos, n) && LlenarSpec(g, desde, n).pedidas == k + 1
  {
    LlenarGuarantees(g, desde, n);
    var l := LlenarSpec(g, desde, n);
    if l.resultado.Ok? {
      HealthyIs(l.buffer);
      assert DeliversAt(g, desde, n, l.pedidas - 1);
    }
    hide LlenarSpec, Healthy, Diagnosis;
    forall k: nat | DeliversAt(g, desde, n, k)
      ensures l.resultado.Ok? && l.buffer == Bytes(g(desde + k).datos, n) && l.pedidas == k + 1
    {
      HealthyIs(Bytes(g(desde + k).datos, n));
      LastRequest(g, desde, n, k, l);
    }
  }

  /** The answer number `k` is the first that is not one of the two codes, and delivers healthy bytes. */
  ghost predicate DeliversAt(g: nat -> Respuesta, desde: nat, n: nat, k: nat)
  {
    && k < 3
    && (forall j :: desde <= j < desde + k ==> g(j).Error? && (g(j).codigo == Some(23) || g(j).codigo == Some(24)))
    && g(desde + k).Entrega?
    && NoEightEqual(Bytes(g(desde + k).datos, n))
  }

  /** One of the seven bytes after the one at `p` differs from it. */
  predicate Differs(s: seq<byte>, p: nat)
    requires p + 8 <= |s|
  {
    exists j :: p < j < p + 8 && s[j] != s[p]
  }

  predicate NoEightEqual(s: seq<byte>) { forall p: nat :: p + 8 <= |s| ==> Differs(s, p) }

  lemma DiffersIs(s: seq<byte>, p: nat)
    ensures RunAt(s, p) <==> p + 8 <= |s| && !Differs(s, p)
  {
    if p + 8 <= |s| && !Differs(s, p) {
      assert forall j :: p < j < p + 8 ==> s[j] == s[p];
    }
  }

  lemma HealthyIs(s: seq<byte>)
    ensures Healthy(s) <==> NoEightEqual(s)
  {
    hide RunAt, Differs;
    forall p: nat
      ensures RunAt(s, p) <==> p + 8 <= |s| && !Differs(s, p)
    {
      DiffersIs(s, p);
    }
  }

  lemma LastRequest(g: nat -> Respuesta, desde: nat, n: nat, k: nat, l: Llenado)
    requires DeliversAt(g, desde, n, k) && Healthy(Bytes(g(desde + k).datos, n))
    requires Guarantees(g, desde, n, 0, l)
    ensures l.resultado.Ok? && l.buffer == Bytes(g(desde + k).datos, n) && l.pedidas == k + 1
  {
    hide Healthy, Diagnosis, Bytes, NoEightEqual;
  }
}
