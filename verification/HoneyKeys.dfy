/** What ties a honey container to its passphrase, told from its bytes and from the stream of its master key. */
module HoneyKeys {
  import opened Arithmetic
  import opened Results
  import opened Bytes
  import opened Aead
  import opened Residues
  import opened Honey

  /** The word number `i` of a stream: eight bytes, most significant first. */
  function WordAt(stream: seq<byte>, i: nat): nat
    requires 8 * (i + 1) <= |stream|
  {
    At64(stream, 8 * i)
  }

  lemma WordIs(stream: seq<byte>, i: nat)
    requires 8 * (i + 1) <= |stream|
    ensures FromBe(stream[8 * i..8 * (i + 1)]) == WordAt(stream, i)
  {
    Field64(stream, 8 * i);
    hide FromBe;
  }

  /** The stream that a passphrase and a pepper give, for a salt, parameters and a number of tokens. */
  function StreamFor(f: Stream, phrase: seq<byte>, pepper: seq<byte>, salt: Salt, p: KdfParams, len: nat): seq<byte>
  {
    f(Master(phrase + pepper, salt, p), 8 * len)
  }

  // ------------------------------------------------------------------ the tokens

  lemma UnhideSolves(c: u16, k: u16, a: Alphabet)
    requires k < a
    ensures (Unhide(c, k, a) + k) % a == c % a
  {
    var t := Unhide(c, k, a);
    DivMod(c + a - k, a);
    var q := (c + a - k) / a;
    ModShift(t + k, q, a);
    ModShift(c, 1, a);
    assert t + k + q * a == c + a;
  }

  lemma SumOfDigit(t: nat, w: nat, a: Alphabet)
    ensures (t + w % a) % a == (t + w) % a
  {
    DivMod(w, a);
    ModShift(t + w % a, w / a, a);
  }

  /** Decryption solves, at every place: token plus word, modulo the alphabet, is the number in the container. */
  lemma DecryptedSolves(f: Stream, b: seq<byte>, phrase: seq<byte>, pepper: seq<byte>, i: nat)
    requires IsStream(f) && Parse(b).Ok? && i < |Parse(b).value.cs|
    ensures var p := Parse(b).value;
      var s := StreamFor(f, phrase, pepper, p.salt, p.params, |p.cs|);
      && |s| == 8 * |p.cs|
      && Decrypted(f, b, phrase, pepper).Ok? && |Decrypted(f, b, phrase, pepper).value| == |p.cs|
      && Decrypted(f, b, phrase, pepper).value[i] < p.size
      && (Decrypted(f, b, phrase, pepper).value[i] + WordAt(s, i)) % p.size == p.cs[i] % p.size
  {
    hide Parse, FromBe;
    var p := Parse(b).value;
    var s := StreamFor(f, phrase, pepper, p.salt, p.params, |p.cs|);
    WordIs(s, i);
    var k := Digit(s, p.size, i);
    UnhideSolves(p.cs[i], k, p.size);
    SumOfDigit(Unhide(p.cs[i], k, p.size), WordAt(s, i), p.size);
    hide WordAt, Unhide;
  }

  function Rest(w: nat, a: Alphabet): u16 { w % a }

  lemma HideWord(t: u16, w: nat, a: Alphabet)
    ensures Hide(t, Rest(w, a), a) == (t + w) % a
  {
    SumOfDigit(t, w, a);
  }

  lemma KeystreamAt(f: Stream, phrase: seq<byte>, pepper: seq<byte>, salt: Salt, p: KdfParams, a: Alphabet, len: nat,
                    i: nat)
    requires IsStream(f) && i < len <= MAX_TOKENS
    ensures var s := StreamFor(f, phrase, pepper, salt, p, len);
      |s| == 8 * len && Keystream(f, phrase, pepper, salt, p, a, len)[i] == Rest(WordAt(s, i), a)
  {
    WordIs(StreamFor(f, phrase, pepper, salt, p, len), i);
    hide WordAt, FromBe;
  }

  lemma EncryptedIs(f: Stream, tokens: seq<u16>, a: Alphabet, phrase: seq<byte>, o: HoneyOptions, salt: Salt)
    requires IsStream(f) && Encrypted(f, tokens, a, phrase, o, salt).Ok?
    ensures 1 <= |tokens| <= MAX_TOKENS == 1000
    ensures var cs := HideAll(tokens, Keystream(f, phrase, o.pepper, salt, o.params, a, |tokens|), a);
      var h := Header(salt, o.params, a, |tokens|);
      && Encrypted(f, tokens, a, phrase, o, salt).value == h + Payload(cs)
      && |h| == 39 && |Payload(cs)| == 2 * |tokens|
      && forall i :: 0 <= i < |tokens| ==>
           cs[i] == Hide(tokens[i], Keystream(f, phrase, o.pepper, salt, o.params, a, |tokens|)[i], a)
  {
    hide Keystream, Header, Payload;
  }

  lemma TokenAt(h: seq<byte>, cs: seq<u16>, i: nat)
    requires |h| == 39 && i < |cs|
    ensures |h + Payload(cs)| == 39 + 2 * |cs| && At16(h + Payload(cs), 39 + 2 * i) == cs[i]
  {
    hide *;
    PayloadAt(cs, i);
    SliceAfter(h, Payload(cs), 2 * i);
    Token16(h + Payload(cs), 39 + 2 * i, cs[i]);
    Field16(h + Payload(cs), 39 + 2 * i);
  }

  /** Encryption adds, at every place: the number written is the sum of token and word, modulo the alphabet. */
  lemma EncryptedAdds(f: Stream, tokens: seq<u16>, a: Alphabet, phrase: seq<byte>, o: HoneyOptions, salt: Salt, i: nat)
    requires IsStream(f) && Encrypted(f, tokens, a, phrase, o, salt).Ok? && i < |tokens|
    ensures var b := Encrypted(f, tokens, a, phrase, o, salt).value;
      var s := StreamFor(f, phrase, o.pepper, salt, o.params, |tokens|);
      && |b| == 39 + 2 * |tokens| && |s| == 8 * |tokens|
      && At16(b, 39 + 2 * i) == (tokens[i] + WordAt(s, i)) % a
  {
    hide *;
    EncryptedIs(f, tokens, a, phrase, o, salt);
    KeystreamAt(f, phrase, o.pepper, salt, o.params, a, |tokens|, i);
    var cs := HideAll(tokens, Keystream(f, phrase, o.pepper, salt, o.params, a, |tokens|), a);
    TokenAt(Header(salt, o.params, a, |tokens|), cs, i);
    HideWord(tokens[i], WordAt(StreamFor(f, phrase, o.pepper, salt, o.params, |tokens|), i), a);
  }

  // ------------------------------------------------------------------ the header

  /** What is written in front, byte by byte. */
  lemma HeaderLayout(salt: Salt, p: KdfParams, size: u16, len: nat)
    requires len <= 1000
    ensures var h := Header(salt, p, size, len);
      && |h| == 39 && h[..5] == [0x51, 0x48, 0x4e, 0x59, 1] && h[5..21] == salt
      && At32(h, 21) == p.memKib && At32(h, 25) == p.iterations && At32(h, 29) == p.parallelism
      && At16(h, 33) == size && At32(h, 35) == len
  {
    var h := Header(salt, p, size, len);
    assert h[..HEADER_LEN] == h;
    HeaderParses(h, salt, p, size, len);
    HeaderSlices(salt, p, size, len);
    Field32(h, 21);
    Field32(h, 25);
    Field32(h, 29);
    Field16(h, 33);
    Field32(h, 35);
    hide Header, Be16, Be32, At16, At32;
    assert h[..5] == h[0..4] + [h[4]];
  }

  /** The parameters that a container declares. */
  predicate DeclaresSane(b: seq<byte>)
    requires |b| >= 39
  {
    var mem, iterations, lanes := At32(b, 21), At32(b, 25), At32(b, 29);
    1 <= lanes <= 16 && 1 <= iterations <= 16 && 8 * lanes <= mem <= 262144
  }

  /** Which bytes parse, and what to; which do not, and why: the first check that fails. */
  lemma ParsesExactly(b: seq<byte>)
    ensures |b| < 39 ==> Parse(b) == Err(Truncated)
    ensures |b| >= 39 && b[..4] != [0x51, 0x48, 0x4e, 0x59] ==> Parse(b) == Err(BadMagic)
    ensures |b| >= 39 && b[..4] == [0x51, 0x48, 0x4e, 0x59] && b[4] != 1 ==> Parse(b) == Err(UnsupportedVersion(b[4]))
    ensures |b| >= 39 && b[..5] == [0x51, 0x48, 0x4e, 0x59, 1] ==>
      var size, len := At16(b, 33), At32(b, 35);
      && (size < 2 ==> Parse(b) == Err(BadAlphabet))
      && (size >= 2 && (len == 0 || len > 1000) ==> Parse(b) == Err(BadLength))
      && (size >= 2 && 1 <= len <= 1000 && !DeclaresSane(b) ==> Parse(b) == Err(InsaneKdf))
      && (size >= 2 && 1 <= len <= 1000 && DeclaresSane(b) && |b| < 39 + 2 * len ==> Parse(b) == Err(Truncated))
      && (size >= 2 && 1 <= len <= 1000 && DeclaresSane(b) && |b| >= 39 + 2 * len ==>
            && Parse(b).Ok?
            && Parse(b).value.size == size && |Parse(b).value.cs| == len && Parse(b).value.salt == b[5..21]
            && Parse(b).value.params == KdfParams(At32(b, 21), At32(b, 25), At32(b, 29)))
  {
    hide FromBe, Be16, Be32, At16, At32;
    if |b| >= 39 {
      Field32(b, 21);
      Field32(b, 25);
      Field32(b, 29);
      Field16(b, 33);
      Field32(b, 35);
      assert b[0..4] == b[..4] && b[..5] == b[..4] + [b[4]];
    }
  }

  lemma ParsedToken(b: seq<byte>, i: nat)
    requires Parse(b).Ok? && i < |Parse(b).value.cs|
    ensures 39 + 2 * i + 2 <= |b| && Parse(b).value.cs[i] == At16(b, 39 + 2 * i)
  {
    Field16(b, 39 + 2 * i);
    hide FromBe, At16, Be32;
  }

  /** What `encrypt` refuses. */
  lemma EncryptRefuses(f: Stream, tokens: seq<u16>, a: Alphabet, phrase: seq<byte>, o: HoneyOptions, salt: Salt)
    requires IsStream(f)
    ensures var r := Encrypted(f, tokens, a, phrase, o, salt);
      && (|tokens| == 0 || |tokens| > 1000 <==> r == Err(BadLength))
      && (1 <= |tokens| <= 1000 && (exists i :: 0 <= i < |tokens| && tokens[i] >= a) <==> r == Err(TokenOutOfRange))
      && (r.Err? ==> r == Err(BadLength) || r == Err(TokenOutOfRange))
  {
    hide Keystream, Header, Payload;
  }

  // ------------------------------------------------------------ two passphrases

  /** The beginning of `s`, or `s` and zeros. */
  function Stretched(s: seq<byte>, n: nat): (r: seq<byte>)
    ensures |r| == n && (n == |s| ==> r == s)
  {
    if n < |s| then s[..n] else s + ZeroBytes(n - |s|)
  }

  /** A stream whose words are given digits. */
  function WithDigits(ks: seq<u16>): (s: seq<byte>)
    ensures |s| == 8 * |ks|
  {
    if ks == [] then [] else WithDigits(ks[..|ks| - 1]) + ToBe(ks[|ks| - 1], 8)
  }

  lemma {:induction false} WordsOfWith(ks: seq<u16>, i: nat)
    requires i < |ks|
    ensures WithDigits(ks)[8 * i..8 * (i + 1)] == ToBe(ks[i], 8)
  {
    hide ToBe;
    var n := |ks| - 1;
    if i < n {
      WordsOfWith(ks[..n], i);
      assert WithDigits(ks)[8 * i..8 * (i + 1)] == WithDigits(ks[..n])[8 * i..8 * (i + 1)];
    }
  }

  lemma DigitsOfWith(ks: seq<u16>, a: Alphabet, i: nat)
    requires Within(ks, a) && i < |ks|
    ensures Digit(WithDigits(ks), a, i) == ks[i]
  {
    WordsOfWith(ks, i);
    Powers();
    hide FromBe, ToBe, WithDigits, Pow256;
    FromToBe(ks[i], 8);
    SmallMod(ks[i], a);
  }

  lemma SmallMod(k: u16, a: Alphabet)
    requires k < a
    ensures k % a == k
  {
  }

  /** One master key has one stream, every other key another. */
  function TwoStreams(key: Key, s: seq<byte>, t: seq<byte>): Stream
  {
    (k: Key, n: nat) => Stretched(if k == key then s else t, n)
  }

  lemma TwoStreamsGive(key: Key, s: seq<byte>, t: seq<byte>)
    ensures IsStream(TwoStreams(key, s, t))
    ensures TwoStreams(key, s, t)(key, |s|) == s
    ensures forall k: Key :: k != key ==> TwoStreams(key, s, t)(k, |t|) == t
  {
    var f := TwoStreams(key, s, t);
    forall k: Key, n: nat
      ensures f(k, n) == Stretched(if k == key then s else t, n) && |f(k, n)| == n
    {
    }
    hide TwoStreams;
  }

  lemma DecryptedWith(f: Stream, b: seq<byte>, phrase: seq<byte>, pepper: seq<byte>, ts: seq<u16>)
    requires IsStream(f) && Parse(b).Ok? && |ts| == |Parse(b).value.cs| && Within(ts, Parse(b).value.size)
    requires var p := Parse(b).value;
      StreamFor(f, phrase, pepper, p.salt, p.params, |p.cs|) == WithDigits(Linking(p.cs, ts, p.size))
    ensures Decrypted(f, b, phrase, pepper) == Ok(ts)
  {
    var p := Parse(b).value;
    var ks := Linking(p.cs, ts, p.size);
    hide Parse, FromBe, WithDigits, Linking, Unhide;
    forall i | 0 <= i < |ks|
      ensures Digit(WithDigits(ks), p.size, i) == ks[i]
    {
      DigitsOfWith(ks, p.size, i);
    }
    assert Keystream(f, phrase, pepper, p.salt, p.params, p.size, |p.cs|) == ks;
    EverySecretIsPlausible(p.cs, ts, ks, p.size);
  }

  /** Passphrases that do not concatenate alike with their peppers have nothing to do with each other: on some stream
   *  the container opens to any one secret under the first and to any other under the second.
   */
  lemma PassphrasesAreIndependent(b: seq<byte>, phrase: seq<byte>, pepper: seq<byte>, ts: seq<u16>,
                                  phrase': seq<byte>, pepper': seq<byte>, ts': seq<u16>)
    returns (f: Stream)
    requires Parse(b).Ok? && phrase + pepper != phrase' + pepper'
    requires |ts| == |ts'| == |Parse(b).value.cs|
    requires Within(ts, Parse(b).value.size) && Within(ts', Parse(b).value.size)
    ensures IsStream(f)
    ensures Decrypted(f, b, phrase, pepper) == Ok(ts) && Decrypted(f, b, phrase', pepper') == Ok(ts')
  {
    var p := Parse(b).value;
    var key := Master(phrase + pepper, p.salt, p.params);
    var s, t := WithDigits(Linking(p.cs, ts, p.size)), WithDigits(Linking(p.cs, ts', p.size));
    f := TwoStreams(key, s, t);
    TwoStreamsGive(key, s, t);
    assert |s| == |t| == 8 * |p.cs|;
    assert Master(phrase' + pepper', p.salt, p.params) != key;
    assert StreamFor(f, phrase, pepper, p.salt, p.params, |p.cs|) == f(key, |s|);
    assert StreamFor(f, phrase', pepper', p.salt, p.params, |p.cs|)
      == f(Master(phrase' + pepper', p.salt, p.params), |t|);
    hide *;
    DecryptedWith(f, b, phrase, pepper, ts);
    DecryptedWith(f, b, phrase', pepper', ts');
  }

  /** And under one passphrase all depends on it: passphrases that concatenate alike with their peppers open alike. */
  lemma OnlyTheSumCounts(f: Stream, b: seq<byte>, phrase: seq<byte>, pepper: seq<byte>, phrase': seq<byte>,
                         pepper': seq<byte>)
    requires IsStream(f) && phrase + pepper == phrase' + pepper'
    ensures Decrypted(f, b, phrase, pepper) == Decrypted(f, b, phrase', pepper')
  {
    hide Parse, Digits, UnhideAll;
  }

  /** The tokens of a PIN are its digits, and what comes out is the character of each token's low byte plus '0'. */
  lemma PinValues(pin: string, tokens: seq<u16>, i: nat)
    ensures PinToTokens(pin).Ok? && i < |pin| ==> PinToTokens(pin).value[i] == pin[i] as int - 48
    ensures i < |tokens| ==> TokensToPin(tokens)[i] as int == (48 + tokens[i] % 256) % 256
  {
    hide ByteLen;
  }
}
