/** Where everything lies in a QST1 container, and what is left of it when it is cut. */
module StreamLayout {
  import opened Results
  import opened Bytes
  import opened Aead
  import opened StreamFormat
  import opened StreamTheorems
  import Stream

  // ------------------------------------------------------------------ header and nonce

  /** The 57 bytes in front. */
  lemma HeaderLayout(h: StreamHeader)
    ensures var b := h.ToBytes();
      && |b| == 57 && b[..6] == [0x51, 0x53, 0x54, 0x31, 1, 0]
      && At32(b, 6) == h.params.memKib && At32(b, 10) == h.params.iterations && At32(b, 14) == h.params.parallelism
      && b[18..34] == h.salt && b[34..53] == h.prefix && At32(b, 53) == h.chunkSize
  {
    var b := h.ToBytes();
    HeaderSlices(h);
    hide StreamHeader.ToBytes, At32;
    FieldIs(b, 6, h.params.memKib);
    FieldIs(b, 10, h.params.iterations);
    FieldIs(b, 14, h.params.parallelism);
    FieldIs(b, 53, h.chunkSize);
  }

  lemma HeaderSlices(h: StreamHeader)
    ensures var b := h.ToBytes();
      && |b| == 57 && b[..6] == [0x51, 0x53, 0x54, 0x31, 1, 0]
      && b[6..10] == ToBe(h.params.memKib, 4) && b[10..14] == ToBe(h.params.iterations, 4)
      && b[14..18] == ToBe(h.params.parallelism, 4)
      && b[18..34] == h.salt && b[34..53] == h.prefix && b[53..57] == ToBe(h.chunkSize, 4)
  {
    hide ToBe;
  }

  lemma FieldIs(b: seq<byte>, o: nat, n: u32)
    requires o + 4 <= |b| && b[o..o + 4] == ToBe(n, 4)
    ensures At32(b, o) == n
  {
    Powers();
    FromToBe(n, 4);
    Field32(b, o);
    hide ToBe, FromBe, Pow256, At32;
  }

  /** Which bytes are a header, and of what; the others fail at the first check they do not pass. */
  lemma HeaderParsesExactly(b: seq<byte>)
    ensures |b| < 57 || b[..4] != [0x51, 0x53, 0x54, 0x31] ==> StreamHeader.FromBytes(b) == Err(Header)
    ensures |b| >= 57 && b[..4] == [0x51, 0x53, 0x54, 0x31] && b[4] != 1 ==>
      StreamHeader.FromBytes(b) == Err(UnsupportedVersion(b[4]))
    ensures |b| >= 57 && b[..4] == [0x51, 0x53, 0x54, 0x31] && b[4] == 1 ==>
      var mem, iterations, lanes, chunk := At32(b, 6), At32(b, 10), At32(b, 14), At32(b, 53);
      var sane := 1 <= lanes <= 16 && 1 <= iterations <= 16 && 8 * lanes <= mem <= 262144;
      && (!sane ==> StreamHeader.FromBytes(b) == Err(InsaneKdf))
      && (sane && !(4096 <= chunk <= 16777216) ==> StreamHeader.FromBytes(b) == Err(BadChunkSize))
      && (sane && 4096 <= chunk <= 16777216 ==>
            StreamHeader.FromBytes(b)
              == Ok(StreamHeader(KdfParams(mem, iterations, lanes), b[18..34], b[34..53], chunk)))
  {
    hide FromBe, Be32, At32;
    if |b| >= 57 {
      Field32(b, 6);
      Field32(b, 10);
      Field32(b, 14);
      Field32(b, 53);
      assert b[0..4] == b[..4];
    }
  }

  lemma NonceLayout(prefix: Prefix, counter: u32, final: bool)
    ensures var n := ChunkNonce(prefix, counter, final);
      && n.Given? && |n.bytes| == 24
      && n.bytes[..19] == prefix && At32(n.bytes, 19) == counter && n.bytes[23] == if final then 1 else 0
  {
    var b := ChunkNonce(prefix, counter, final).bytes;
    assert b[19..23] == ToBe(counter, 4);
    hide ToBe;
    FieldIs(b, 19, counter);
  }

  // ------------------------------------------------------------------ the blocks

  /** Chunk `j` of the data; the last one may be shorter. */
  function Chunk(data: seq<byte>, c: nat, j: nat): seq<byte>
    requires c > 0 && j * c <= |data|
  {
    if |data| - j * c <= c then data[j * c..] else data[j * c..j * c + c]
  }

  lemma NextChunk(data: seq<byte>, c: nat, j: nat)
    requires 0 < c < |data| && j < ChunkCount(|data[c..]|, c)
    ensures j * c <= |data[c..]| && (j + 1) * c <= |data|
    ensures Chunk(data, c, j + 1) == Chunk(data[c..], c, j)
  {
    ChunkBegins(|data[c..]|, c, j);
    assert (j + 1) * c == j * c + c;
  }

  lemma {:induction false} ChunkBegins(len: nat, c: nat, j: nat)
    requires c > 0 && j < ChunkCount(len, c)
    ensures j * c <= len
    decreases j
  {
    if j > 0 {
      ChunkBegins(len - c, c, j - 1);
      assert j * c == (j - 1) * c + c;
    }
  }

  /** The bytes of `block` lie in `body` from `at` on, up to its end if it is the last. */
  ghost predicate LiesAt(body: seq<byte>, at: nat, block: seq<byte>, last: bool)
  {
    && at + |block| <= |body| && body[at..at + |block|] == block
    && (last ==> at + |block| == |body|)
  }

  function Place(c: nat, j: nat): nat { j * (c + 16) }

  lemma PlaceIs(c: nat)
    ensures Place(c, 0) == 0
    ensures forall j: nat :: j > 0 ==> Place(c, j) == Place(c, j - 1) + (c + 16)
  {
    forall j: nat | j > 0
      ensures Place(c, j) == Place(c, j - 1) + (c + 16)
    {
      assert j * (c + 16) == (j - 1) * (c + 16) + (c + 16);
    }
  }

  lemma FirstLies(first: seq<byte>, rest: seq<byte>)
    ensures LiesAt(first + rest, 0, first, rest == [])
  {
  }

  lemma LaterLies(first: seq<byte>, rest: seq<byte>, at: nat, block: seq<byte>, last: bool)
    requires LiesAt(rest, at, block, last)
    ensures LiesAt(first + rest, |first| + at, block, last)
  {
    assert (first + rest)[|first| + at..|first| + at + |block|] == rest[at..at + |block|];
  }

  /** Block `j` of a body lies `j` whole blocks from its beginning: chunk `j`, sealed under its own number, and marked
   *  if it is the last.
   */
  lemma {:induction false} BlockOf(seal: Seal, log: Log, key: Key, h: StreamHeader, data: seq<byte>, i: nat, j: nat)
    requires Genuine(seal, log) && h.chunkSize > 0
    requires i + ChunkCount(|data|, h.chunkSize) <= MAX_COUNTER + 1 && j < ChunkCount(|data|, h.chunkSize)
    ensures j * h.chunkSize <= |data| && i + j <= MAX_COUNTER
    ensures var last := j + 1 == ChunkCount(|data|, h.chunkSize);
      LiesAt(Body(seal, key, h, data, i), Place(h.chunkSize, j),
        seal(key, ChunkNonce(h.prefix, i + j, last), Chunk(data, h.chunkSize, j), h.ToBytes()), last)
    decreases j
  {
    hide *;
    var c := h.chunkSize;
    SixteenBytes();
    PlaceIs(c);
    ChunkBegins(|data|, c, j);
    FirstChunk(data, c);
    if |data| <= c {
      Stream.LastChunk(seal, key, h, data, i);
      FinalUnfolds(seal, log, key, h, data, i);
      FirstLies(Body(seal, key, h, data, i), []);
      assert Body(seal, key, h, data, i) + [] == Body(seal, key, h, data, i);
    } else {
      NextUnfolds(seal, log, key, h, data, i);
      AtLeastOne(|data[c..]|, c);
      BodyIsLong(seal, log, key, h, data[c..], i + 1);
      var first, rest := seal(key, ChunkNonce(h.prefix, i, false), data[..c], h.ToBytes()),
        Body(seal, key, h, data[c..], i + 1);
      if j == 0 {
        FirstLies(first, rest);
      } else {
        var last := j + 1 == ChunkCount(|data|, c);
        BlockOf(seal, log, key, h, data[c..], i + 1, j - 1);
        NextChunk(data, c, j - 1);
        LaterLies(first, rest, Place(c, j - 1),
          seal(key, ChunkNonce(h.prefix, i + j, last), Chunk(data, c, j), h.ToBytes()), last);
      }
    }
  }

  lemma FirstChunk(data: seq<byte>, c: nat)
    requires c > 0
    ensures 0 * c <= |data| && Chunk(data, c, 0) == if |data| <= c then data else data[..c]
  {
  }

  lemma SixteenBytes()
    ensures TAG_LEN == 16 && MAX_COUNTER == 0xffff_ffff
  {
  }

  lemma AtLeastOne(len: nat, c: nat)
    requires c > 0
    ensures ChunkCount(len, c) >= 1
  {
  }

  // ------------------------------------------------------------------ a container that is cut

  /** What decryption makes of the first `m` bytes of a body: the chunks that are there whole and followed by enough
   *  of the next, and then an error that says whether what follows could have been a block.
   */
  function Cut(data: seq<byte>, c: nat, m: nat): Outcome
    requires c > 0
    decreases |data|
  {
    if m < 16 then Outcome([], Err(Truncated))
    else if m <= c + 16 then Outcome([], Err(Decrypt))
    else if m < c + 32 || |data| <= c then Outcome([], Err(Truncated))
    else
      var rest := Cut(data[c..], c, m - (c + 16));
      Outcome(data[..c] + rest.written, rest.result)
  }

  /** In numbers: `j` chunks are written if the cut is at least a tag into block `j`. */
  lemma {:induction false} CutIs(data: seq<byte>, c: nat, m: nat, j: nat)
    requires c > 0 && j * (c + 16) + 16 <= m < (j + 1) * (c + 16) + 16 && j * c <= |data|
    requires m < |data| + 16 * ChunkCount(|data|, c)
    ensures Cut(data, c, m)
      == Outcome(data[..j * c], if m - j * (c + 16) <= c + 16 then Err(Decrypt) else Err(Truncated))
    decreases j
  {
    assert (j + 1) * (c + 16) == j * (c + 16) + (c + 16);
    if j > 0 {
      assert j * (c + 16) == (j - 1) * (c + 16) + (c + 16) && j * c == (j - 1) * c + c;
      assert |data| > c;
      CutIs(data[c..], c, m - (c + 16), j - 1);
      assert data[..c] + data[c..][..(j - 1) * c] == data[..j * c];
    }
  }

  lemma CutFirst(log: Log, key: Key, h: StreamHeader, aad: seq<byte>, body: seq<byte>, i: nat, plain: seq<byte>,
                 rest: Outcome)
    requires h.chunkSize > 0 && i < MAX_COUNTER && |body| >= h.chunkSize + 32
    requires Open(log, key, ChunkNonce(h.prefix, i, false), body[..h.chunkSize + 16], aad) == Some(plain)
    requires OpenBody(log, key, h, aad, body[h.chunkSize + 16..], i + 1) == rest
    ensures OpenBody(log, key, h, aad, body, i) == Outcome(plain + rest.written, rest.result)
  {
    hide ChunkNonce, Open;
  }

  lemma CutShort(log: Log, key: Key, h: StreamHeader, aad: seq<byte>, body: seq<byte>, i: nat)
    requires h.chunkSize > 0 && i <= MAX_COUNTER && |body| < h.chunkSize + 32
    requires 16 <= |body| <= h.chunkSize + 16 ==> Open(log, key, ChunkNonce(h.prefix, i, true), body, aad) == None
    ensures OpenBody(log, key, h, aad, body, i)
      == Outcome([], if 16 <= |body| <= h.chunkSize + 16 then Err(Decrypt) else Err(Truncated))
  {
    hide ChunkNonce, Open;
  }

  lemma {:induction false} BodyCut(seal: Seal, log: Log, run: Run, left: seq<byte>, i: nat, m: nat)
    requires Genuine(seal, log) && run.header.Acceptable()
    requires i + ChunkCount(|left|, run.header.chunkSize) <= MAX_COUNTER + 1
    requires OnlyFrom(log, seal, run, left, i) && Seals(seal, run.Key(), run.header, left, i) <= log
    requires m < |Body(seal, run.Key(), run.header, left, i)|
    ensures var h := run.header;
      OpenBody(log, run.Key(), h, h.ToBytes(), Body(seal, run.Key(), h, left, i)[..m], i) == Cut(left, h.chunkSize, m)
    decreases |left|
  {
    hide *;
    var h, key := run.header, run.Key();
    ChunksAreNotEmpty(h);
    SixteenBytes();
    var c: nat := h.chunkSize;
    var body := Body(seal, key, h, left, i);
    if |left| <= c {
      FinalUnfolds(seal, log, key, h, left, i);
      NoCutOpens(seal, log, run, body[..m], left, i);
      CutShort(log, key, h, h.ToBytes(), body[..m], i);
      CutUnfolds(left, c, m);
    } else {
      NextUnfolds(seal, log, key, h, left, i);
      AtLeastOne(|left[c..]|, c);
      CutUnfolds(left, c, m);
      if m < c + 32 {
        NoCutOpens(seal, log, run, body[..m], left, i);
        CutShort(log, key, h, h.ToBytes(), body[..m], i);
      } else {
        OneSealOpens(seal, log, key, ChunkNonce(h.prefix, i, false), left[..c], h.ToBytes());
        OnlyFromNext(seal, log, run, left, i);
        BodyCut(seal, log, run, left[c..], i + 1, m - (c + 16));
        var rest := Body(seal, key, h, left[c..], i + 1);
        assert body[..m][..c + 16] == body[..c + 16];
        assert body[..m][c + 16..] == rest[..m - (c + 16)];
        CutFirst(log, key, h, h.ToBytes(), body[..m], i, left[..c], Cut(left[c..], c, m - (c + 16)));
      }
    }
  }

  lemma CutUnfolds(data: seq<byte>, c: nat, m: nat)
    requires c > 0
    ensures m < c + 32 ==>
      Cut(data, c, m) == Outcome([], if 16 <= m <= c + 16 then Err(Decrypt) else Err(Truncated))
    ensures m >= c + 32 && |data| > c ==>
      var rest := Cut(data[c..], c, m - (c + 16));
      Cut(data, c, m) == Outcome(data[..c] + rest.written, rest.result)
  {
  }

  /** Less than a whole last block does not open as one. */
  lemma NoCutOpens(seal: Seal, log: Log, run: Run, piece: seq<byte>, left: seq<byte>, i: u32)
    requires Genuine(seal, log) && run.header.Acceptable() && OnlyFrom(log, seal, run, left, i)
    requires |left| <= run.header.chunkSize ==> |piece| < |left| + 16
    ensures Open(log, run.Key(), ChunkNonce(run.header.prefix, i, true), piece, run.header.ToBytes()) == None
  {
    SealLength(seal, log);
    SixteenBytes();
    hide *;
    if Open(log, run.Key(), ChunkNonce(run.header.prefix, i, true), piece, run.header.ToBytes()).Some? {
      OpensTo(seal, log, run, run.Key(), piece, left, i, true);
    }
  }

  lemma HeaderOpens(log: Log, phrase: seq<byte>, pepper: seq<byte>, h: StreamHeader, blob: seq<byte>)
    requires h.Acceptable() && h.chunkSize > 0 && |blob| >= 57 && blob[..57] == h.ToBytes()
    ensures OpenContainer(log, phrase, pepper, blob)
      == OpenBody(log, StreamKey(phrase, pepper, h), h, h.ToBytes(), blob[57..], 0)
  {
    HeaderRoundTrip(h);
    hide StreamHeader.ToBytes, StreamHeader.FromBytes, OpenBody, StreamKey;
  }

  lemma CutHeader(log: Log, phrase: seq<byte>, pepper: seq<byte>, blob: seq<byte>)
    requires |blob| < 57
    ensures OpenContainer(log, phrase, pepper, blob) == Outcome([], Err(Header))
  {
  }

  lemma ContainerIs(seal: Seal, key: Key, h: StreamHeader, data: seq<byte>, n: nat)
    requires h.Acceptable() && ChunkCount(|data|, h.chunkSize) <= MAX_COUNTER + 1
    requires 57 <= n < |Container(seal, key, h, data)|
    ensures h.chunkSize > 0 && 0 + ChunkCount(|data|, h.chunkSize) <= MAX_COUNTER + 1
    ensures var blob := Container(seal, key, h, data)[..n];
      && blob[..57] == h.ToBytes() && n - 57 < |Body(seal, key, h, data, 0)|
      && blob[57..] == Body(seal, key, h, data, 0)[..n - 57]
  {
    hide StreamHeader.ToBytes, Body;
  }

  /** A container cut anywhere never opens: nothing but whole chunks is written, and the error says what is missing. */
  lemma CutContainer(seal: Seal, log: Log, runs: seq<Run>, run: Run, n: nat)
    requires LogOf(seal, log, runs) && run in runs && run.header.Acceptable() && run.Fits()
    requires SealsOf(seal, run) <= log && n < |Container(seal, run.Key(), run.header, run.data)|
    ensures OpenContainer(log, run.phrase, run.pepper, Container(seal, run.Key(), run.header, run.data)[..n])
      == if n < 57 then Outcome([], Err(Header)) else Cut(run.data, run.header.chunkSize, n - 57)
  {
    var h, key, data := run.header, run.Key(), run.data;
    assert key == StreamKey(run.phrase, run.pepper, h) && Genuine(seal, log);
    var r :| 0 <= r < |runs| && runs[r] == run;
    assert Seals(seal, key, h, data, 0) <= log;
    hide *;
    if n < 57 {
      CutHeader(log, run.phrase, run.pepper, Container(seal, key, h, data)[..n]);
    } else {
      ContainerIs(seal, key, h, data, n);
      HeaderOpens(log, run.phrase, run.pepper, h, Container(seal, key, h, data)[..n]);
      OnlyRun(seal, log, runs, r);
      BodyCut(seal, log, run, data, 0, n - 57);
    }
  }
}
