/** `src/honey.rs`: encryption without a tag, where every passphrase opens to some secret.
 *
 *  The passphrase is given normalised. The stream that HKDF expands from a master key is any function of
 *  that key, as long as asked, up to the 255 blocks of 32 bytes of section 2.3 of RFC 5869. The salt is
 *  what the random source delivered.
 */
module Honey {
  import opened Arithmetic
  import opened Results
  import opened Bytes
  import opened Aead
  import opened Residues

  const STREAM_BYTES_PER_TOKEN: nat := 8
  const VERSION: byte := 1
  const HEADER_LEN: nat := 39
  const MAX_TOKENS: nat := 1000
  const HKDF_LIMIT: nat := 255 * 32

  /** "QHNY". */
  const MAGIC: seq<byte> := [0x51, 0x48, 0x4e, 0x59]

  datatype HoneyError =
    | TokenOutOfRange
    | BadAlphabet
    | BadLength
    | Truncated
    | BadMagic
    | UnsupportedVersion(v: byte)
    | InsaneKdf

  /** The number of symbols; an alphabet of one symbol cannot be made. */
  type Alphabet = a: u16 | a >= 2 witness 10

  const DIGITS: Alphabet := 10

  function NewAlphabet(size: u16): Result<Alphabet, HoneyError>
  {
    if size < 2 then Err(BadAlphabet) else Ok(size)
  }

  /** The expansion of a master key, of the length asked for. */
  type Stream = (Key, nat) -> seq<byte>

  ghost predicate IsStream(f: Stream)
  {
    forall k, n: nat :: n <= HKDF_LIMIT ==> |f(k, n)| == n
  }

  datatype HoneyOptions = HoneyOptions(pepper: seq<byte>, params: KdfParams)

  function MasterKey(phrase: seq<byte>, pepper: seq<byte>, salt: Salt, params: KdfParams): Key
  {
    Master(phrase + pepper, salt, params)
  }

  // --------------------------------------------------------------- tokens

  /** The digits of a stream: each eight bytes, big-endian, modulo the size of the alphabet. */
  function Digit(stream: seq<byte>, a: Alphabet, i: nat): (k: u16)
    requires 8 * (i + 1) <= |stream|
    ensures k < a
  {
    FromBe(stream[8 * i..8 * (i + 1)]) % a
  }

  function Digits(stream: seq<byte>, a: Alphabet, len: nat): (ks: seq<u16>)
    requires 8 * len <= |stream|
    ensures |ks| == len && forall i :: 0 <= i < len ==> ks[i] < a
  {
    seq(len, i requires 0 <= i < len => Digit(stream, a, i))
  }

  function Hide(t: u16, k: u16, a: Alphabet): (c: u16)
    ensures c < a
  {
    (t + k) % a
  }

  /** `(c + a - k) % a`, which in 32 bits neither overflows nor goes below zero. */
  function Unhide(c: u16, k: u16, a: Alphabet): (t: u16)
    requires k < a
    ensures t < a
  {
    (c + a - k) % a
  }

  predicate Within(tokens: seq<u16>, a: Alphabet) { forall i :: 0 <= i < |tokens| ==> tokens[i] < a }

  function HideAll(ts: seq<u16>, ks: seq<u16>, a: Alphabet): (cs: seq<u16>)
    requires |ks| == |ts|
    ensures |cs| == |ts|
  {
    seq(|ts|, i requires 0 <= i < |ts| => Hide(ts[i], ks[i], a))
  }

  function UnhideAll(cs: seq<u16>, ks: seq<u16>, a: Alphabet): (ts: seq<u16>)
    requires |ks| == |cs| && Within(ks, a)
    ensures |ts| == |cs| && Within(ts, a)
  {
    seq(|cs|, i requires 0 <= i < |cs| => Unhide(cs[i], ks[i], a))
  }

  // -------------------------------------------------------------- the container

  datatype Blob = Blob(salt: Salt, params: KdfParams, size: Alphabet, cs: seq<u16>)

  function Payload(cs: seq<u16>): (b: seq<byte>)
    ensures |b| == 2 * |cs|
  {
    if cs == [] then [] else Payload(cs[..|cs| - 1]) + ToBe(cs[|cs| - 1], 2)
  }

  function Header(salt: Salt, p: KdfParams, size: u16, len: nat): (b: seq<byte>)
    ensures |b| == HEADER_LEN
  {
    MAGIC + [VERSION] + salt + ToBe(p.memKib, 4) + ToBe(p.iterations, 4) + ToBe(p.parallelism, 4)
    + ToBe(size, 2) + ToBe(len, 4)
  }

  function SaltOf(b: seq<byte>): Salt
    requires |b| >= HEADER_LEN
  {
    b[5..21]
  }

  function ParamsOf(b: seq<byte>): KdfParams
    requires |b| >= HEADER_LEN
  {
    KdfParams(Be32(b, 21), Be32(b, 25), Be32(b, 29))
  }

  /** The structural checks of `decrypt`, in its order; a longer blob than declared is accepted. */
  function Parse(b: seq<byte>): (r: Result<Blob, HoneyError>)
    ensures r.Ok? ==> 1 <= |r.value.cs| <= MAX_TOKENS && r.value.params.IsSane()
  {
    if |b| < HEADER_LEN then Err(Truncated)
    else if b[0..4] != MAGIC then Err(BadMagic)
    else if b[4] != VERSION then Err(UnsupportedVersion(b[4]))
    else
      var size, len := Be16(b, 33), Be32(b, 35);
      if size < 2 then Err(BadAlphabet)
      else if len == 0 || len > MAX_TOKENS then Err(BadLength)
      else if !ParamsOf(b).IsSane() then Err(InsaneKdf)
      else if |b| < HEADER_LEN + 2 * len then Err(Truncated)
      else Ok(Blob(SaltOf(b), ParamsOf(b), size,
                   seq(len, i requires 0 <= i < len => Be16(b, HEADER_LEN + 2 * i))))
  }

  /** The keystream a passphrase has for a container. */
  ghost function Keystream(f: Stream, phrase: seq<byte>, pepper: seq<byte>, salt: Salt, p: KdfParams, a: Alphabet,
                           len: nat)
    : (ks: seq<u16>)
    requires IsStream(f) && len <= MAX_TOKENS
    ensures |ks| == len && Within(ks, a)
  {
    Digits(f(MasterKey(phrase, pepper, salt, p), 8 * len), a, len)
  }

  ghost function Encrypted(f: Stream, tokens: seq<u16>, a: Alphabet, phrase: seq<byte>, o: HoneyOptions, salt: Salt)
    : Result<seq<byte>, HoneyError>
    requires IsStream(f)
  {
    if tokens == [] || |tokens| > MAX_TOKENS then Err(BadLength)
    else if !Within(tokens, a) then Err(TokenOutOfRange)
    else
      var ks := Keystream(f, phrase, o.pepper, salt, o.params, a, |tokens|);
      Ok(Header(salt, o.params, a, |tokens|) + Payload(HideAll(tokens, ks, a)))
  }

  ghost function Decrypted(f: Stream, b: seq<byte>, phrase: seq<byte>, pepper: seq<byte>): Result<seq<u16>, HoneyError>
    requires IsStream(f)
  {
    match Parse(b)
    case Err(e) => Err(e)
    case Ok(p) =>
      Ok(UnhideAll(p.cs, Keystream(f, phrase, pepper, p.salt, p.params, p.size, |p.cs|), p.size))
  }

  // ------------------------------------------------------------------ the code

  method KeystreamDigits(f: Stream, phrase: seq<byte>, salt: Salt, pepper: seq<byte>, params: KdfParams, size: Alphabet,
                         len: nat)
    returns (out: seq<u16>)
    requires IsStream(f) && len <= MAX_TOKENS
    ensures out == Keystream(f, phrase, pepper, salt, params, size, len)
    ensures var stream := f(Master(phrase + pepper, salt, params), 8 * len);
      && |out| == len && |stream| == 8 * len
      && forall i :: 0 <= i < len ==> out[i] == FromBe(stream[8 * i..8 * i + 8]) % size
  {
    var master := Master(phrase + pepper, salt, params);
    assert len * STREAM_BYTES_PER_TOKEN <= HKDF_LIMIT;
    var buf := f(master, len * STREAM_BYTES_PER_TOKEN);
    out := [];
    var i := 0;
    while i + STREAM_BYTES_PER_TOKEN <= |buf|
      invariant i == 8 * |out| <= 8 * len == |buf|
      invariant forall j :: 0 <= j < |out| ==> out[j] == FromBe(buf[8 * j..8 * j + 8]) % size
      invariant out == Digits(buf, size, len)[..|out|]
    {
      var v := FromBe(buf[i..i + STREAM_BYTES_PER_TOKEN]);
      assert v % size == Digits(buf, size, len)[|out|];
      out := out + [v % size];
      i := i + STREAM_BYTES_PER_TOKEN;
    }
  }

  method Encrypt(f: Stream, tokens: seq<u16>, alphabet: Alphabet, phrase: seq<byte>, opts: HoneyOptions, salt: Salt)
    returns (r: Result<seq<byte>, HoneyError>)
    requires IsStream(f)
    ensures r == Encrypted(f, tokens, alphabet, phrase, opts, salt)
  {
    hide IsStream, Digits, ToBe, FromBe, Pow256;
    if |tokens| == 0 || |tokens| > MAX_TOKENS {
      return Err(BadLength);
    }
    if exists i :: 0 <= i < |tokens| && tokens[i] >= alphabet {
      return Err(TokenOutOfRange);
    }
    var ks := KeystreamDigits(f, phrase, salt, opts.pepper, opts.params, alphabet, |tokens|);
    var a := alphabet;
    var out := MAGIC;
    out := out + [VERSION];
    out := out + salt;
    out := out + ToBe(opts.params.memKib, 4);
    out := out + ToBe(opts.params.iterations, 4);
    out := out + ToBe(opts.params.parallelism, 4);
    out := out + ToBe(a, 2);
    out := out + ToBe(|tokens|, 4);
    ghost var header := out;
    assert header == Header(salt, opts.params, a, |tokens|);
    ghost var cs := HideAll(tokens, ks, a);
    for i := 0 to |tokens|
      invariant out == header + Payload(cs[..i])
    {
      var c := Hide(tokens[i], ks[i], a);
      assert c == cs[i] && cs[..i + 1][..i] == cs[..i];
      out := out + ToBe(c, 2);
    }
    assert cs[..|tokens|] == cs;
    r := Ok(out);
  }

  method Decrypt(f: Stream, blob: seq<byte>, phrase: seq<byte>, pepper: seq<byte>)
    returns (r: Result<seq<u16>, HoneyError>)
    requires IsStream(f)
    ensures r == Decrypted(f, blob, phrase, pepper)
  {
    hide IsStream, Keystream, ToBe, FromBe, Pow256, Be16, Be32;
    if |blob| < HEADER_LEN {
      return Err(Truncated);
    }
    if blob[0..4] != MAGIC {
      return Err(BadMagic);
    }
    var version := blob[4];
    if version != VERSION {
      return Err(UnsupportedVersion(version));
    }
    var salt: Salt := blob[5..5 + SALT_LEN];
    var p := 5 + SALT_LEN;
    var memKib := Be32(blob, p);
    p := p + 4;
    var iterations := Be32(blob, p);
    p := p + 4;
    var parallelism := Be32(blob, p);
    p := p + 4;
    var size := Be16(blob, p);
    p := p + 2;
    var len := Be32(blob, p);
    p := p + 4;
    if size < 2 {
      return Err(BadAlphabet);
    }
    if len == 0 || len > MAX_TOKENS {
      return Err(BadLength);
    }
    var params := KdfParams(memKib, iterations, parallelism);
    if !params.IsSane() {
      return Err(InsaneKdf);
    }
    if |blob| < HEADER_LEN + len * 2 {
      return Err(Truncated);
    }
    ghost var parsed := Parse(blob).value;
    var ks := KeystreamDigits(f, phrase, salt, pepper, params, size, len);
    var out: seq<u16> := [];
    for i := 0 to len
      invariant |out| == i
      invariant forall j :: 0 <= j < i ==> out[j] == Unhide(parsed.cs[j], ks[j], size)
    {
      var c := Be16(blob, p + i * 2);
      out := out + [Unhide(c, ks[i], size)];
    }
    assert out == UnhideAll(parsed.cs, ks, size);
    r := Ok(out);
  }

  // ------------------------------------------------------------------ theorems

  /** Success or the exact error depends on the blob alone; every success yields exactly the declared number
   *  of tokens, all of the alphabet.
   */
  lemma NoOracle(f: Stream, b: seq<byte>, phrase: seq<byte>, pepper: seq<byte>, other: seq<byte>, pepper': seq<byte>)
    requires IsStream(f)
    ensures match (Decrypted(f, b, phrase, pepper), Decrypted(f, b, other, pepper'))
      case (Ok(x), Ok(y)) =>
        |b| >= HEADER_LEN && |x| == |y| == Be32(b, 35) && Be16(b, 33) >= 2
        && Within(x, Be16(b, 33)) && Within(y, Be16(b, 33))
      case (Err(d), Err(e)) => d == e
      case _ => false
  {
    hide Keystream, Be16, Be32, FromBe;
  }

  lemma HideUnhide(t: u16, k: u16, a: Alphabet)
    requires t < a && k < a
    ensures Unhide(Hide(t, k, a), k, a) == t
  {
    ModTwice(t + k, a);
    ModTwice(Hide(t, k, a) + a - k, a);
  }

  /** The digit under which a ciphertext token `c` is `t`. */
  function Linked(c: u16, t: u16, a: Alphabet): (k: u16)
    requires t < a
    ensures k < a
  {
    DivMod(c % a + a - t, a);
    (c % a + a - t) % a
  }

  /** For any ciphertext and any candidate token there is one digit that links them. */
  lemma OneDigit(c: u16, t: u16, k: u16, a: Alphabet)
    requires t < a && k < a
    ensures Unhide(c, k, a) == t <==> k == Linked(c, t, a)
  {
    var x := c % a;
    DivMod(c, a);
    ModShift(x + a - k, c / a, a);
    ModTwice(x + a - k, a);
    ModTwice(x + a - t, a);
  }

  /** The keystream under which `cs` is `ts`. */
  function Linking(cs: seq<u16>, ts: seq<u16>, a: Alphabet): (ks: seq<u16>)
    requires |cs| == |ts| && Within(ts, a)
    ensures |ks| == |cs| && Within(ks, a)
  {
    seq(|cs|, i requires 0 <= i < |cs| => Linked(cs[i], ts[i], a))
  }

  /** Every secret of the declared length is what some keystream gives, and exactly one does. */
  lemma EverySecretIsPlausible(cs: seq<u16>, ts: seq<u16>, ks: seq<u16>, a: Alphabet)
    requires |cs| == |ts| == |ks| && Within(ts, a) && Within(ks, a)
    ensures UnhideAll(cs, ks, a) == ts <==> ks == Linking(cs, ts, a)
  {
    forall i | 0 <= i < |cs|
      ensures Unhide(cs[i], ks[i], a) == ts[i] <==> ks[i] == Linked(cs[i], ts[i], a)
    {
      OneDigit(cs[i], ts[i], ks[i], a);
    }
    hide Unhide, Linked;
    if UnhideAll(cs, ks, a) == ts {
      assert forall i :: 0 <= i < |cs| ==> ts[i] == Unhide(cs[i], ks[i], a);
      assert ks == Linking(cs, ts, a);
    }
    if ks == Linking(cs, ts, a) {
      assert UnhideAll(cs, ks, a) == ts;
    }
  }

  // ------------------------------------------------------------------ round trip

  lemma {:induction false} PayloadAt(cs: seq<u16>, i: nat)
    requires i < |cs|
    ensures Payload(cs)[2 * i..2 * i + 2] == ToBe(cs[i], 2)
  {
    hide ToBe;
    if i < |cs| - 1 {
      PayloadAt(cs[..|cs| - 1], i);
    }
  }

  lemma HeaderSlices(salt: Salt, p: KdfParams, size: u16, len: nat)
    ensures var h := Header(salt, p, size, len);
      && h[0..4] == MAGIC && h[4] == VERSION && h[5..21] == salt
      && h[21..25] == ToBe(p.memKib, 4) && h[25..29] == ToBe(p.iterations, 4) && h[29..33] == ToBe(p.parallelism, 4)
      && h[33..35] == ToBe(size, 2) && h[35..39] == ToBe(len, 4)
  {
    hide ToBe;
  }

  lemma HeaderParses(b: seq<byte>, salt: Salt, p: KdfParams, size: u16, len: nat)
    requires |b| >= HEADER_LEN && b[..HEADER_LEN] == Header(salt, p, size, len) && len <= MAX_TOKENS
    ensures b[0..4] == MAGIC && b[4] == VERSION
    ensures SaltOf(b) == salt && ParamsOf(b) == p && Be16(b, 33) == size && Be32(b, 35) == len
  {
    hide ToBe, FromBe, Pow256;
    Powers();
    var h := Header(salt, p, size, len);
    HeaderSlices(salt, p, size, len);
    hide Header;
    assert b[4] == h[4];
    assert b[0..4] == h[0..4] && b[5..21] == h[5..21];
    assert b[21..25] == h[21..25] && b[25..29] == h[25..29] && b[29..33] == h[29..33];
    assert b[33..35] == h[33..35] && b[35..39] == h[35..39];
    FromToBe(p.memKib, 4);
    FromToBe(p.iterations, 4);
    FromToBe(p.parallelism, 4);
    FromToBe(size, 2);
    FromToBe(len, 4);
  }

  lemma Token16(b: seq<byte>, o: nat, c: u16)
    requires o + 2 <= |b| && b[o..o + 2] == ToBe(c, 2)
    ensures Be16(b, o) == c
  {
    Powers();
    FromToBe(c, 2);
  }

  lemma SliceAfter(h: seq<byte>, w: seq<byte>, o: nat)
    requires o + 2 <= |w|
    ensures (h + w)[|h| + o..|h| + o + 2] == w[o..o + 2]
  {
  }

  lemma ParseFields(b: seq<byte>, salt: Salt, p: KdfParams, size: Alphabet, cs: seq<u16>)
    requires 1 <= |cs| <= MAX_TOKENS && |b| == HEADER_LEN + 2 * |cs|
    requires b[0..4] == MAGIC && b[4] == VERSION
    requires SaltOf(b) == salt && ParamsOf(b) == p && Be16(b, 33) == size && Be32(b, 35) == |cs|
    requires forall i :: 0 <= i < |cs| ==> Be16(b, HEADER_LEN + 2 * i) == cs[i]
    ensures Parse(b) == if p.IsSane() then Ok(Blob(salt, p, size, cs)) else Err(InsaneKdf)
  {
    hide Be16, Be32, SaltOf, ParamsOf, KdfParams.IsSane;
    if p.IsSane() {
      assert Parse(b).value.cs == cs;
    }
  }

  /** What was written parses back, provided `decrypt` accepts the parameters that `encrypt` did not check. */
  lemma ParseWritten(salt: Salt, p: KdfParams, size: Alphabet, cs: seq<u16>)
    requires 1 <= |cs| <= MAX_TOKENS
    ensures Parse(Header(salt, p, size, |cs|) + Payload(cs))
      == if p.IsSane() then Ok(Blob(salt, p, size, cs)) else Err(InsaneKdf)
  {
    hide *;
    var h := Header(salt, p, size, |cs|);
    var b := h + Payload(cs);
    assert b[..HEADER_LEN] == h;
    HeaderParses(b, salt, p, size, |cs|);
    WrittenTokens(h, cs);
    ParseFields(b, salt, p, size, cs);
  }

  lemma WrittenTokens(h: seq<byte>, cs: seq<u16>)
    requires |h| == HEADER_LEN
    ensures forall i :: 0 <= i < |cs| ==> Be16(h + Payload(cs), HEADER_LEN + 2 * i) == cs[i]
  {
    hide *;
    forall i | 0 <= i < |cs|
      ensures Be16(h + Payload(cs), HEADER_LEN + 2 * i) == cs[i]
    {
      PayloadAt(cs, i);
      SliceAfter(h, Payload(cs), 2 * i);
      Token16(h + Payload(cs), HEADER_LEN + 2 * i, cs[i]);
    }
  }

  /** The right passphrase gives the secret back if and only if the parameters are within what `decrypt`
   *  accepts; otherwise what was encrypted opens for no passphrase at all.
   */
  lemma DecryptInverts(f: Stream, tokens: seq<u16>, a: Alphabet, phrase: seq<byte>, o: HoneyOptions, salt: Salt)
    requires IsStream(f) && 1 <= |tokens| <= MAX_TOKENS && Within(tokens, a)
    ensures Encrypted(f, tokens, a, phrase, o, salt).Ok?
    ensures var b := Encrypted(f, tokens, a, phrase, o, salt).value;
      && (Decrypted(f, b, phrase, o.pepper) == Ok(tokens) <==> o.params.IsSane())
      && (!o.params.IsSane() ==> forall other, pepper :: Decrypted(f, b, other, pepper) == Err(InsaneKdf))
  {
    hide Header, Payload, Hide, Unhide, Parse, IsStream, Keystream;
    var ks := Keystream(f, phrase, o.pepper, salt, o.params, a, |tokens|);
    var cs := HideAll(tokens, ks, a);
    ParseWritten(salt, o.params, a, cs);
    assert UnhideAll(cs, ks, a) == tokens by {
      forall i | 0 <= i < |tokens|
        ensures Unhide(Hide(tokens[i], ks[i], a), ks[i], a) == tokens[i]
      {
        HideUnhide(tokens[i], ks[i], a);
      }
    }
  }

  /** `tokens` is what some container of this alphabet opens to under this passphrase. */
  ghost predicate Openable(f: Stream, tokens: seq<u16>, a: Alphabet, phrase: seq<byte>, pepper: seq<byte>)
    requires IsStream(f)
  {
    exists b: seq<byte> :: Parse(b).Ok? && Parse(b).value.size == a && Decrypted(f, b, phrase, pepper) == Ok(tokens)
  }

  /** `encrypt` accepts exactly the secrets that decryption can give: nothing it takes is out of reach of a decoy, and
   *  no decoy is a secret that it would refuse.
   */
  lemma EncryptSucceedsExactly(f: Stream, tokens: seq<u16>, a: Alphabet, phrase: seq<byte>, o: HoneyOptions, salt: Salt)
    requires IsStream(f)
    ensures Encrypted(f, tokens, a, phrase, o, salt).Ok? <==> Openable(f, tokens, a, phrase, o.pepper)
  {
    if 1 <= |tokens| <= MAX_TOKENS && Within(tokens, a) {
      var sane := HoneyOptions(o.pepper, KdfParams(64, 1, 1));
      SaneWritten(f, tokens, a, phrase, sane, salt);
    }
    OpenableIsEncryptable(f, tokens, a, phrase, o.pepper);
    hide Openable, Keystream, Header, Payload, HideAll;
  }

  lemma SaneWritten(f: Stream, tokens: seq<u16>, a: Alphabet, phrase: seq<byte>, o: HoneyOptions, salt: Salt)
    requires IsStream(f) && 1 <= |tokens| <= MAX_TOKENS && Within(tokens, a) && o.params.IsSane()
    ensures Openable(f, tokens, a, phrase, o.pepper)
  {
    DecryptInverts(f, tokens, a, phrase, o, salt);
    ParseWritten(salt, o.params, a, HideAll(tokens, Keystream(f, phrase, o.pepper, salt, o.params, a, |tokens|), a));
    hide Keystream, Header, Payload, HideAll, Parse, Decrypted, KdfParams.IsSane;
    var b := Encrypted(f, tokens, a, phrase, o, salt).value;
    assert Parse(b).Ok? && Parse(b).value.size == a;
  }

  lemma OpenableIsEncryptable(f: Stream, tokens: seq<u16>, a: Alphabet, phrase: seq<byte>, pepper: seq<byte>)
    requires IsStream(f)
    ensures Openable(f, tokens, a, phrase, pepper) ==> 1 <= |tokens| <= MAX_TOKENS && Within(tokens, a)
  {
    hide Keystream, Parse, Unhide;
  }

  // ------------------------------------------------- how evenly the decoys fall

  const STREAM_WORDS: nat := 0x1_0000_0000_0000_0000

  /** Of the 2^64 words of eight bytes, each digit has the floor of 2^64 / a or one more: the first
   *  2^64 mod a digits have one more.
   */
  lemma DigitsAreEven(a: Alphabet, d: u16)
    requires d < a
    ensures |With(STREAM_WORDS, a, d)| == STREAM_WORDS / a + if d < STREAM_WORDS % a then 1 else 0
  {
    hide With;
    WithSize(STREAM_WORDS, a, d);
  }

  /** floor(2^64 / a). */
  function Floor(a: Alphabet): nat
  {
    DivMod(STREAM_WORDS, a);
    STREAM_WORDS / a
  }

  lemma FloorOrOneMore(a: Alphabet, d: u16)
    requires d < a
    ensures Floor(a) <= WordsFor(a, d) <= Floor(a) + 1
  {
    hide With;
    DigitsAreEven(a, d);
  }

  /** The words of a stream, and the digits of words. */
  function Words(stream: seq<byte>, len: nat): (ws: seq<nat>)
    requires 8 * len <= |stream|
    ensures |ws| == len
  {
    seq(len, i requires 0 <= i < len => FromBe(stream[8 * i..8 * (i + 1)]))
  }

  function Reduced(ws: seq<nat>, a: Alphabet): (ks: seq<u16>)
    ensures |ks| == |ws| && Within(ks, a)
  {
    seq(|ws|, i requires 0 <= i < |ws| => ws[i] % a)
  }

  /** A stream counts by its words only, and different streams have different words. */
  lemma DigitsFromWords(stream: seq<byte>, other: seq<byte>, a: Alphabet, len: nat)
    requires |stream| == |other| == 8 * len
    ensures Digits(stream, a, len) == Reduced(Words(stream, len), a)
    ensures forall i :: 0 <= i < len ==> Words(stream, len)[i] < STREAM_WORDS
    ensures Words(stream, len) == Words(other, len) ==> stream == other
  {
    hide FromBe, ToBe, Pow256;
    Powers();
    forall i | 0 <= i < len
      ensures Words(stream, len)[i] < STREAM_WORDS
      ensures Words(stream, len) == Words(other, len) ==> stream[8 * i..8 * (i + 1)] == other[8 * i..8 * (i + 1)]
    {
      ToFromBe(stream[8 * i..8 * (i + 1)]);
      ToFromBe(other[8 * i..8 * (i + 1)]);
      assert Words(stream, len)[i] == FromBe(stream[8 * i..8 * (i + 1)]);
      assert Words(other, len)[i] == FromBe(other[8 * i..8 * (i + 1)]);
    }
    if Words(stream, len) == Words(other, len) {
      EqualByEights(stream, other, len);
    }
  }

  lemma EqualByEights(s: seq<byte>, t: seq<byte>, len: nat)
    requires |s| == |t| == 8 * len && forall i :: 0 <= i < len ==> s[8 * i..8 * (i + 1)] == t[8 * i..8 * (i + 1)]
    ensures s == t
  {
    forall j | 0 <= j < |s|
      ensures s[j] == t[j]
    {
      var i := j / 8;
      assert s[j] == s[8 * i..8 * (i + 1)][j - 8 * i];
      assert t[j] == t[8 * i..8 * (i + 1)][j - 8 * i];
    }
  }

  /** The sequences of stream words under which `cs` opens to the secret `ts`. */
  ghost function Leading(cs: seq<u16>, ts: seq<u16>, a: Alphabet): set<seq<nat>>
  {
    set ws | ws in Sequences(STREAM_WORDS, |cs|) && |ws| == |cs| && UnhideAll(cs, Reduced(ws, a), a) == ts
  }

  function PowerOf(x: nat, n: nat): nat { if n == 0 then 1 else PowerOf(x, n - 1) * x }

  lemma MulMonotone(a: nat, b: nat, c: nat, d: nat)
    requires a <= c && b <= d
    ensures a * b <= c * d
  {
    assert c * d == a * b + a * (d - b) + (c - a) * d;
  }

  lemma UnhideLast(cs: seq<u16>, ts: seq<u16>, a: Alphabet, ws: seq<nat>)
    requires |cs| == |ts| == |ws| > 0 && Within(ts, a)
    ensures var n := |cs| - 1;
      UnhideAll(cs, Reduced(ws, a), a) == ts <==>
        && UnhideAll(cs[..n], Reduced(ws[..n], a), a) == ts[..n]
        && ws[n] % a == Linked(cs[n], ts[n], a)
  {
    var n := |cs| - 1;
    var ks, all := Reduced(ws, a), UnhideAll(cs, Reduced(ws, a), a);
    OneDigit(cs[n], ts[n], ks[n], a);
    hide Unhide, Linked;
    assert UnhideAll(cs[..n], Reduced(ws[..n], a), a) == all[..n];
    assert all == all[..n] + [all[n]] && ts == ts[..n] + [ts[n]];
  }

  /** Position by position: a sequence leads to a secret if its beginning leads to the secret's, and its last word
   *  leaves the linking digit.
   */
  lemma LeadingLast(cs: seq<u16>, ts: seq<u16>, a: Alphabet)
    requires |cs| == |ts| > 0 && Within(ts, a)
    ensures var n := |cs| - 1;
      Leading(cs, ts, a) == Extended(Leading(cs[..n], ts[..n], a), With(STREAM_WORDS, a, Linked(cs[n], ts[n], a)))
  {
    var n := |cs| - 1;
    var d := Linked(cs[n], ts[n], a);
    forall ws
      ensures ws in Leading(cs, ts, a) <==> ws in Extended(Leading(cs[..n], ts[..n], a), With(STREAM_WORDS, a, d))
    {
      LeadingStep(cs, ts, a, ws);
    }
    hide Leading, Extended, With;
  }

  lemma LeadingStep(cs: seq<u16>, ts: seq<u16>, a: Alphabet, ws: seq<nat>)
    requires |cs| == |ts| > 0 && Within(ts, a)
    ensures var n := |cs| - 1;
      var d := Linked(cs[n], ts[n], a);
      ws in Leading(cs, ts, a) <==> ws in Extended(Leading(cs[..n], ts[..n], a), With(STREAM_WORDS, a, d))
  {
    var n := |cs| - 1;
    var d := Linked(cs[n], ts[n], a);
    ExtendedHas(Leading(cs[..n], ts[..n], a), With(STREAM_WORDS, a, d), ws);
    SequencesAre(STREAM_WORDS, |cs|, ws);
    hide Sequences, Extended, UnhideAll, Reduced;
    if |ws| == |cs| {
      SequencesAre(STREAM_WORDS, n, ws[..n]);
      UnhideLast(cs, ts, a, ws);
    }
  }

  ghost function LeadingCount(cs: seq<u16>, ts: seq<u16>, a: Alphabet): nat { |Leading(cs, ts, a)| }

  ghost function WordsFor(a: Alphabet, d: u16): nat { |With(STREAM_WORDS, a, d)| }

  function Times(x: nat, y: nat): nat { x * y }

  lemma LeadingSize(cs: seq<u16>, ts: seq<u16>, a: Alphabet, n: nat)
    requires |cs| == |ts| == n + 1 && Within(ts, a)
    ensures LeadingCount(cs, ts, a) == Times(LeadingCount(cs[..n], ts[..n], a), WordsFor(a, Linked(cs[n], ts[n], a)))
  {
    assert ts[n] < a;
    hide Leading, With, Extended, Linked, Within;
    LeadingLast(cs, ts, a);
    ExtendedSize(Leading(cs[..n], ts[..n], a), With(STREAM_WORDS, a, Linked(cs[n], ts[n], a)));
  }

  /** Between `q` and `q + 1` words for each of `n` positions. */
  ghost predicate Even(q: nat, n: nat, size: nat) { PowerOf(q, n) <= size <= PowerOf(q + 1, n) }

  lemma EvenStep(q: nat, n: nat, x: nat, y: nat)
    requires Even(q, n, x) && q <= y <= q + 1
    ensures Even(q, n + 1, Times(x, y))
  {
    MulMonotone(PowerOf(q, n), q, x, y);
    MulMonotone(x, y, PowerOf(q + 1, n), q + 1);
  }

  /** A decoy is as likely as any other: no secret of the declared length, the true one included, has fewer
   *  sequences of words behind it than floor(2^64 / a)^len, nor more than (floor(2^64 / a) + 1)^len.
   */
  lemma {:induction false} DecoysAreEven(cs: seq<u16>, ts: seq<u16>, a: Alphabet, n: nat)
    requires |cs| == |ts| == n && Within(ts, a)
    ensures Even(Floor(a), n, LeadingCount(cs, ts, a))
    decreases n
  {
    hide *;
    if n == 0 {
      OnlyOneLeads(cs, ts, a);
    } else {
      WithinPrefix(ts, a, n - 1);
      DecoysAreEven(cs[..n - 1], ts[..n - 1], a, n - 1);
      var d := Linked(cs[n - 1], ts[n - 1], a);
      FloorOrOneMore(a, d);
      LeadingSize(cs, ts, a, n - 1);
      EvenStep(Floor(a), n - 1, LeadingCount(cs[..n - 1], ts[..n - 1], a), WordsFor(a, d));
    }
  }

  lemma WithinPrefix(ts: seq<u16>, a: Alphabet, n: nat)
    requires Within(ts, a) && n < |ts|
    ensures Within(ts[..n], a) && ts[n] < a
  {
  }

  lemma OnlyOneLeads(cs: seq<u16>, ts: seq<u16>, a: Alphabet)
    requires |cs| == |ts| == 0
    ensures Even(Floor(a), 0, LeadingCount(cs, ts, a))
  {
    hide Floor;
    assert Leading(cs, ts, a) == {[]};
  }

  // ---------------------------------------------------------------------- PINs

  /** The bytes a character takes in UTF-8, which is what `str::len` counts. */
  function Utf8Len(c: char): nat
  {
    if c as int < 0x80 then 1 else if c as int < 0x800 then 2 else if c as int < 0x1_0000 then 3 else 4
  }

  function ByteLen(s: string): nat { if s == "" then 0 else ByteLen(s[..|s| - 1]) + Utf8Len(s[|s| - 1]) }

  predicate IsDigit(c: char) { '0' <= c <= '9' }

  predicate AllDigits(s: string) { forall i :: 0 <= i < |s| ==> IsDigit(s[i]) }

  function PinToTokens(pin: string): (r: Result<seq<u16>, HoneyError>)
    ensures r.Ok? ==> |r.value| == |pin| && Within(r.value, DIGITS)
  {
    if pin == "" || ByteLen(pin) > MAX_TOKENS then Err(BadLength)
    else if !AllDigits(pin) then Err(TokenOutOfRange)
    else Ok(seq(|pin|, i requires 0 <= i < |pin| => ToDigit(pin[i])))
  }

  function ToDigit(c: char): (d: u16)
    requires IsDigit(c)
    ensures d < DIGITS
  {
    c as int - '0' as int
  }

  function FromDigit(d: u16): (c: char)
    requires d < DIGITS
    ensures IsDigit(c)
    ensures ToDigit(c) == d
  {
    ('0' as int + d) as char
  }

  lemma FromToDigit(c: char)
    requires IsDigit(c)
    ensures FromDigit(ToDigit(c)) == c
  {
  }

  /** `(b'0' + t as u8) as char`: the token truncated to eight bits, and the sum wrapped to eight bits. */
  function ToChar(t: u16): char { (('0' as int + t % 0x100) % 0x100) as char }

  lemma ToCharIs(t: u16)
    ensures t < DIGITS ==> ToChar(t) == FromDigit(t)
    ensures t == DIGITS ==> !IsDigit(ToChar(t))
  {
  }

  function TokensToPin(tokens: seq<u16>): (s: string)
    ensures |s| == |tokens|
  {
    seq(|tokens|, i requires 0 <= i < |tokens| => ToChar(tokens[i]))
  }

  lemma DigitTokens(tokens: seq<u16>)
    requires Within(tokens, DIGITS)
    ensures AllDigits(TokensToPin(tokens))
  {
    hide IsDigit, ToChar, FromDigit;
    forall i | 0 <= i < |tokens|
      ensures IsDigit(TokensToPin(tokens)[i])
    {
      ToCharIs(tokens[i]);
    }
  }

  lemma {:induction false} DigitsAreBytes(s: string)
    requires AllDigits(s)
    ensures ByteLen(s) == |s|
  {
    if s != "" {
      DigitsAreBytes(s[..|s| - 1]);
    }
  }

  method EncryptPin(f: Stream, pin: string, phrase: seq<byte>, opts: HoneyOptions, salt: Salt)
    returns (r: Result<seq<byte>, HoneyError>)
    requires IsStream(f)
    ensures match PinToTokens(pin)
      case Err(e) => r == Err(e)
      case Ok(tokens) => r == Encrypted(f, tokens, DIGITS, phrase, opts, salt)
  {
    match PinToTokens(pin) {
      case Err(e) => r := Err(e);
      case Ok(tokens) => r := Encrypt(f, tokens, DIGITS, phrase, opts, salt);
    }
  }

  /** On any container, of whatever alphabet. */
  method DecryptPin(f: Stream, blob: seq<byte>, phrase: seq<byte>, pepper: seq<byte>)
    returns (r: Result<string, HoneyError>)
    requires IsStream(f)
    ensures match Decrypted(f, blob, phrase, pepper)
      case Err(e) => r == Err(e)
      case Ok(tokens) => r == Ok(TokensToPin(tokens))
  {
    hide Parse, Keystream;
    var d := Decrypt(f, blob, phrase, pepper);
    match d {
      case Err(e) => r := Err(e);
      case Ok(tokens) => r := Ok(TokensToPin(tokens));
    }
  }

  /** A container decrypts to decimal digits whatever the keystream if and only if its
   *  alphabet has at most ten symbols. */
  lemma PinIsDigitsExactly(cs: seq<u16>, a: Alphabet)
    requires cs != []
    ensures (forall ks: seq<u16> :: |ks| == |cs| && Within(ks, a) ==> AllDigits(TokensToPin(UnhideAll(cs, ks, a)))) <==>
      a <= DIGITS
  {
    hide Unhide, Linked, IsDigit, ToChar;
    if a <= DIGITS {
      forall ks: seq<u16> | |ks| == |cs| && Within(ks, a)
        ensures AllDigits(TokensToPin(UnhideAll(cs, ks, a)))
      {
        DigitTokens(UnhideAll(cs, ks, a));
      }
    } else {
      var ts: seq<u16> := seq(|cs|, _ => DIGITS);
      EverySecretIsPlausible(cs, ts, Linking(cs, ts, a), a);
      ToCharIs(DIGITS);
      assert !IsDigit(TokensToPin(ts)[0]);
    }
  }

  /** A PIN is one to a thousand decimal digits, and encrypting it loses nothing. */
  lemma PinRoundTrip(pin: string)
    ensures PinToTokens(pin).Ok? <==> 1 <= |pin| <= MAX_TOKENS && AllDigits(pin)
    ensures PinToTokens(pin).Ok? ==> TokensToPin(PinToTokens(pin).value) == pin
    ensures PinToTokens(pin) == Err(BadLength) <==> ByteLen(pin) == 0 || ByteLen(pin) > MAX_TOKENS
  {
    hide IsDigit, ToDigit, FromDigit, ToChar;
    if AllDigits(pin) {
      DigitsAreBytes(pin);
    }
    if PinToTokens(pin).Ok? {
      forall i | 0 <= i < |pin|
        ensures ToChar(ToDigit(pin[i])) == pin[i]
      {
        FromToDigit(pin[i]);
        ToCharIs(ToDigit(pin[i]));
      }
    }
  }

  /** What a passphrase makes of an encrypted PIN: the PIN if it is the right one, and always as many digits. */
  lemma PinDecoys(f: Stream, pin: string, phrase: seq<byte>, o: HoneyOptions, salt: Salt, other: seq<byte>,
                  pepper: seq<byte>)
    requires IsStream(f) && o.params.IsSane() && 1 <= |pin| <= MAX_TOKENS && AllDigits(pin)
    ensures PinToTokens(pin).Ok? && Encrypted(f, PinToTokens(pin).value, DIGITS, phrase, o, salt).Ok?
    ensures var b := Encrypted(f, PinToTokens(pin).value, DIGITS, phrase, o, salt).value;
      && Parse(b).Ok? && Parse(b).value.size == DIGITS
      && (var d := Decrypted(f, b, other, pepper);
          && d.Ok? && Within(d.value, DIGITS) && |TokensToPin(d.value)| == |pin| && AllDigits(TokensToPin(d.value))
          && (other == phrase && pepper == o.pepper ==> TokensToPin(d.value) == pin))
  {
    PinRoundTrip(pin);
    var tokens := PinToTokens(pin).value;
    var ks := Keystream(f, phrase, o.pepper, salt, o.params, DIGITS, |tokens|);
    ParseWritten(salt, o.params, DIGITS, HideAll(tokens, ks, DIGITS));
    DecryptInverts(f, tokens, DIGITS, phrase, o, salt);
    hide Header, Payload, Hide, Unhide, Parse, Keystream, AllDigits, TokensToPin;
    DigitTokens(Decrypted(f, Encrypted(f, tokens, DIGITS, phrase, o, salt).value, other, pepper).value);
  }
}
