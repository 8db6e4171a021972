/** The QST1 file format of `src/stream.rs` as values: header, nonces, the container of some data
 *  and what decryption makes of an arbitrary byte string.
 */
module StreamFormat {
  import opened Arithmetic
  import opened Results
  import opened Bytes
  import opened Aead

  const HEADER_LEN: nat := 57
  const NONCE_PREFIX_LEN: nat := 19
  const VERSION: byte := 1
  const MIN_CHUNK_SIZE: nat := 4096
  const MAX_CHUNK_SIZE: nat := 16777216
  const MAX_COUNTER: nat := 0xffff_ffff

  /** "QST1" and "quipu/stream/v1". */
  const MAGIC: seq<byte> := [0x51, 0x53, 0x54, 0x31]
  const STREAM_INFO_PREFIX: seq<byte> :=
    [0x71, 0x75, 0x69, 0x70, 0x75, 0x2f, 0x73, 0x74, 0x72, 0x65, 0x61, 0x6d, 0x2f, 0x76, 0x31]

  type Prefix = s: seq<byte> | |s| == NONCE_PREFIX_LEN witness seq(NONCE_PREFIX_LEN, _ => 0)

  datatype StreamError =
    | Io
    | Header
    | UnsupportedVersion(v: byte)
    | BadChunkSize
    | InsaneKdf
    | Decrypt
    | Truncated

  datatype StreamHeader = StreamHeader(params: KdfParams, salt: Salt, prefix: Prefix, chunkSize: u32)
  {
    predicate Acceptable()
    {
      params.IsSane() && MIN_CHUNK_SIZE <= chunkSize <= MAX_CHUNK_SIZE
    }

    function ToBytes(): (b: seq<byte>)
      ensures |b| == HEADER_LEN
    {
      MAGIC + [VERSION, 0] + ToBe(params.memKib, 4) + ToBe(params.iterations, 4) + ToBe(params.parallelism, 4)
      + salt + prefix + ToBe(chunkSize, 4)
    }

    static function FromBytes(b: seq<byte>): Result<StreamHeader, StreamError>
    {
      if |b| < HEADER_LEN || b[0..4] != MAGIC then Err(Header)
      else if b[4] != VERSION then Err(UnsupportedVersion(b[4]))
      else
        Powers();
        var params := KdfParams(Be32(b, 6), Be32(b, 10), Be32(b, 14));
        if !params.IsSane() then Err(InsaneKdf)
        else
          var chunkSize := Be32(b, 53);
          if chunkSize < MIN_CHUNK_SIZE || chunkSize > MAX_CHUNK_SIZE then Err(BadChunkSize)
          else Ok(StreamHeader(params, b[18..34], b[34..53], chunkSize))
    }
  }

  function ChunkNonce(prefix: Prefix, counter: u32, final: bool): Nonce
  {
    Given(prefix + ToBe(counter, 4) + [if final then 1 else 0])
  }

  /** Argon2id over the passphrase and the pepper, then HKDF with the file's own prefix. */
  function StreamKey(phrase: seq<byte>, pepper: seq<byte>, h: StreamHeader): Key
  {
    Sub(Master(phrase + pepper, h.salt, h.params), STREAM_INFO_PREFIX + h.prefix)
  }

  // ------------------------------------------------------------ what is written

  /** How many chunks `data` is cut into: none is empty, except the only one of empty data. */
  function ChunkCount(len: nat, c: nat): (n: nat)
    requires c > 0
    ensures n >= 1
    decreases len
  {
    if len <= c then 1 else 1 + ChunkCount(len - c, c)
  }

  /** The sealed chunks of `data`, numbered from `i`. */
  function Body(seal: Seal, key: Key, h: StreamHeader, data: seq<byte>, i: nat): seq<byte>
    requires h.chunkSize > 0 && i + ChunkCount(|data|, h.chunkSize) <= MAX_COUNTER + 1
    decreases |data|
  {
    var c := h.chunkSize;
    if |data| <= c then seal(key, ChunkNonce(h.prefix, i, true), data, h.ToBytes())
    else seal(key, ChunkNonce(h.prefix, i, false), data[..c], h.ToBytes()) + Body(seal, key, h, data[c..], i + 1)
  }

  function Container(seal: Seal, key: Key, h: StreamHeader, data: seq<byte>): seq<byte>
    requires h.chunkSize > 0 && ChunkCount(|data|, h.chunkSize) <= MAX_COUNTER + 1
  {
    h.ToBytes() + Body(seal, key, h, data, 0)
  }

  /** What sealing the chunks of `data` adds to the log, for as long as the counter lasts. */
  function Seals(seal: Seal, key: Key, h: StreamHeader, data: seq<byte>, i: nat): Log
    requires h.chunkSize > 0
    decreases |data|
  {
    var c := h.chunkSize;
    if i > MAX_COUNTER then {}
    else if |data| <= c then {SealedAs(seal, key, ChunkNonce(h.prefix, i, true), data, h.ToBytes())}
    else
      {SealedAs(seal, key, ChunkNonce(h.prefix, i, false), data[..c], h.ToBytes())}
      + Seals(seal, key, h, data[c..], i + 1)
  }

  // ---------------------------------------------------------- what is read back

  /** What decryption writes, and how it ends. */
  datatype Outcome = Outcome(written: seq<byte>, result: Result<(), StreamError>)

  /** The blocks of `body`, numbered from `i`. */
  ghost function OpenBody(log: Log, key: Key, h: StreamHeader, aad: seq<byte>, body: seq<byte>, i: nat): Outcome
    requires h.chunkSize > 0 && i <= MAX_COUNTER
    decreases |body|
  {
    var block := h.chunkSize + TAG_LEN;
    if |body| < TAG_LEN then Outcome([], Err(Truncated))
    else if |body| <= block then
      match Open(log, key, ChunkNonce(h.prefix, i, true), body, aad)
      case None => Outcome([], Err(Decrypt))
      case Some(plain) => Outcome(plain, Ok(()))
    else if |body[block..]| < TAG_LEN then Outcome([], Err(Truncated))
    else
      match Open(log, key, ChunkNonce(h.prefix, i, false), body[..block], aad)
      case None => Outcome([], Err(Decrypt))
      case Some(plain) =>
        if i == MAX_COUNTER then Outcome(plain, Err(Truncated))
        else
          var rest := OpenBody(log, key, h, aad, body[block..], i + 1);
          Outcome(plain + rest.written, rest.result)
  }

  ghost function OpenContainer(log: Log, phrase: seq<byte>, pepper: seq<byte>, blob: seq<byte>): Outcome
  {
    if |blob| < HEADER_LEN then Outcome([], Err(Header))
    else
      var aad := blob[..HEADER_LEN];
      match StreamHeader.FromBytes(aad)
      case Err(e) => Outcome([], Err(e))
      case Ok(h) => OpenBody(log, StreamKey(phrase, pepper, h), h, aad, blob[HEADER_LEN..], 0)
  }

  // ------------------------------------------------------------- header and nonce

  lemma HeaderRoundTrip(h: StreamHeader)
    requires h.Acceptable()
    ensures StreamHeader.FromBytes(h.ToBytes()) == Ok(h)
  {
    hide ToBe, FromBe, Pow256;
    Powers();
    var b := h.ToBytes();
    assert b[0..4] == MAGIC && b[4] == VERSION;
    assert b[6..10] == ToBe(h.params.memKib, 4);
    assert b[10..14] == ToBe(h.params.iterations, 4);
    assert b[14..18] == ToBe(h.params.parallelism, 4);
    assert b[18..34] == h.salt;
    assert b[34..53] == h.prefix;
    assert b[53..57] == ToBe(h.chunkSize, 4);
    FromToBe(h.params.memKib, 4);
    FromToBe(h.params.iterations, 4);
    FromToBe(h.params.parallelism, 4);
    FromToBe(h.chunkSize, 4);
  }

  /** What parses is acceptable, and parsing reports no reader error. */
  lemma ParsedHeader(b: seq<byte>)
    ensures match StreamHeader.FromBytes(b)
      case Ok(h) => h.Acceptable()
      case Err(e) => e != Io
  {
    hide ToBe, FromBe;
  }

  /** No two chunks of a run share a nonce, and the last one's differs from all others. */
  lemma NonceInjective(p: Prefix, q: Prefix, i: u32, j: u32, f: bool, g: bool)
    ensures ChunkNonce(p, i, f) == ChunkNonce(q, j, g) <==> p == q && i == j && f == g
  {
    hide ToBe, FromBe, Pow256;
    Powers();
    ToBeInjective(i, j, 4);
    var a, b := ChunkNonce(p, i, f).bytes, ChunkNonce(q, j, g).bytes;
    assert a[..19] == p && a[19..23] == ToBe(i, 4) && a[23] == if f then 1 else 0;
    assert b[..19] == q && b[19..23] == ToBe(j, 4) && b[23] == if g then 1 else 0;
  }

  // ---------------------------------------------------------------------- sizes

  /** The number of chunks is one, or the length over the chunk size rounded up. */
  lemma {:induction false} ChunkCountIs(len: nat, c: nat)
    requires c > 0
    ensures ChunkCount(len, c) == if len == 0 then 1 else (len + c - 1) / c
    decreases len
  {
    if len > c {
      ChunkCountIs(len - c, c);
      CeilStep(len - c, c);
    } else if len > 0 {
      CeilOne(len, c);
    }
  }

  lemma CeilStep(m: nat, c: nat)
    requires c > 0 && m > 0
    ensures (m + c + c - 1) / c == 1 + (m + c - 1) / c
  {
    var x := m + c - 1;
    assert x == c * (x / c) + x % c;
    DivUnique(x + c, c, x / c + 1, x % c);
  }

  lemma CeilOne(len: nat, c: nat)
    requires 0 < len <= c
    ensures (len + c - 1) / c == 1
  {
    DivUnique(len + c - 1, c, 1, len - 1);
  }

  lemma {:induction false} BodyLength(seal: Seal, key: Key, h: StreamHeader, data: seq<byte>, i: nat)
    requires IsSeal(seal)
    requires h.chunkSize > 0 && i + ChunkCount(|data|, h.chunkSize) <= MAX_COUNTER + 1
    ensures |Body(seal, key, h, data, i)| == |data| + TAG_LEN * ChunkCount(|data|, h.chunkSize)
    decreases |data|
  {
    if |data| > h.chunkSize {
      BodyLength(seal, key, h, data[h.chunkSize..], i + 1);
    }
  }

  /** 57 bytes of header, the data, and a tag per chunk. */
  lemma ContainerLength(seal: Seal, key: Key, h: StreamHeader, data: seq<byte>)
    requires IsSeal(seal)
    requires h.chunkSize > 0 && ChunkCount(|data|, h.chunkSize) <= MAX_COUNTER + 1
    ensures |Container(seal, key, h, data)|
      == HEADER_LEN + |data| + TAG_LEN * (if data == [] then 1 else (|data| + h.chunkSize - 1) / h.chunkSize)
  {
    BodyLength(seal, key, h, data, 0);
    ChunkCountIs(|data|, h.chunkSize);
  }
}
