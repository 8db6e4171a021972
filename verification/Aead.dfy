/** Keys and the authenticated cipher, idealised.
 *
 *  Argon2id and HKDF are free constructors: two keys are equal only if everything they were
 *  derived from is equal. The cipher is a box that remembers what it sealed and opens that only.
 */
module Aead {
  import opened Results

  const TAG_LEN: nat := 16
  const SALT_LEN: nat := 16

  type Salt = s: seq<byte> | |s| == SALT_LEN witness seq(SALT_LEN, _ => 0)

  datatype KdfParams = KdfParams(memKib: u32, iterations: u32, parallelism: u32)
  {
    predicate IsSane()
    {
      1 <= parallelism <= 16 && 1 <= iterations <= 16 && 8 * parallelism <= memKib <= 262144
    }
  }

  /** Argon2id over the normalised passphrase followed by the pepper, and HKDF with a label. */
  datatype Key = Master(secret: seq<byte>, salt: Salt, params: KdfParams) | Sub(mother: Key, info: seq<byte>)

  datatype Nonce = Given(bytes: seq<byte>) | Stretched(mother: Key, info: seq<byte>)

  datatype Sealed = Sealed(key: Key, nonce: Nonce, plain: seq<byte>, aad: seq<byte>, cipher: seq<byte>)

  type Log = set<Sealed>

  type Seal = (Key, Nonce, seq<byte>, seq<byte>) -> seq<byte>

  /** Sixteen bytes longer than the plaintext, and the plaintext can be read back from it. */
  ghost predicate IsSeal(seal: Seal)
  {
    && (forall k, n, p, a :: |seal(k, n, p, a)| == |p| + TAG_LEN)
    && (forall k, n, p, q, a :: seal(k, n, p, a) == seal(k, n, q, a) ==> p == q)
  }

  function SealedAs(seal: Seal, k: Key, n: Nonce, p: seq<byte>, a: seq<byte>): Sealed
  {
    Sealed(k, n, p, a, seal(k, n, p, a))
  }

  /** Every entry of the log was sealed by `seal`. */
  ghost predicate Genuine(seal: Seal, log: Log)
  {
    IsSeal(seal) && forall s <- log :: s.cipher == seal(s.key, s.nonce, s.plain, s.aad)
  }

  predicate Matches(s: Sealed, k: Key, n: Nonce, c: seq<byte>, a: seq<byte>)
  {
    s.key == k && s.nonce == n && s.cipher == c && s.aad == a
  }

  /** Opening succeeds exactly on what the log holds. */
  ghost function Open(log: Log, k: Key, n: Nonce, c: seq<byte>, a: seq<byte>): (r: Option<seq<byte>>)
    ensures r.Some? <==> exists s :: s in log && Matches(s, k, n, c, a)
    ensures r.Some? ==> exists s :: s in log && Matches(s, k, n, c, a) && s.plain == r.value
  {
    if s :| s in log && Matches(s, k, n, c, a) then Some(s.plain) else None
  }

  lemma OpenSealed(seal: Seal, log: Log, s: Sealed)
    requires Genuine(seal, log) && s in log
    ensures Open(log, s.key, s.nonce, s.cipher, s.aad) == Some(s.plain)
  {
    assert Matches(s, s.key, s.nonce, s.cipher, s.aad);
  }

  class Box {
    const seal: Seal
    var log: Log

    constructor (s: Seal)
      requires IsSeal(s)
      ensures seal == s && log == {} && Valid()
    {
      seal := s;
      log := {};
    }

    ghost predicate Valid()
      reads this
    {
      Genuine(seal, log)
    }

    method Encrypt(k: Key, n: Nonce, p: seq<byte>, a: seq<byte>) returns (c: seq<byte>)
      requires Valid()
      modifies this
      ensures Valid()
      ensures c == seal(k, n, p, a)
      ensures log == old(log) + {SealedAs(seal, k, n, p, a)}
    {
      c := seal(k, n, p, a);
      log := log + {Sealed(k, n, p, a, c)};
    }

    method Decrypt(k: Key, n: Nonce, c: seq<byte>, a: seq<byte>) returns (r: Option<seq<byte>>)
      requires Valid()
      ensures r == Open(log, k, n, c, a)
    {
      if exists s :: s in log && Matches(s, k, n, c, a) {
        var s :| s in log && Matches(s, k, n, c, a);
        OpenSealed(seal, log, s);
        r := Some(s.plain);
      } else {
        r := None;
      }
    }
  }

  /** The idealisation is not empty: such a `seal` exists. */
  lemma SealExists() returns (seal: Seal)
    ensures IsSeal(seal)
  {
    seal := (k, n, p, a) => p + seq(TAG_LEN, _ => 0);
    forall k, n, p: seq<byte>, q: seq<byte>, a | seal(k, n, p, a) == seal(k, n, q, a)
      ensures p == q
    {
      assert seal(k, n, p, a)[..|p|] == p;
      assert |p| == |q|;
      assert seal(k, n, q, a)[..|q|] == q;
    }
  }
}
