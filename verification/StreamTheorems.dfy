/** What the QST1 format promises: decryption undoes encryption, and of all byte strings it accepts
 *  genuine containers only.
 */
module StreamTheorems {
  import opened Results
  import opened Bytes
  import opened Aead
  import opened StreamFormat
  import Stream

  // ----------------------------------------------------------------- round trip

  lemma {:induction false} BodyOpens(seal: Seal, log: Log, key: Key, h: StreamHeader, data: seq<byte>, i: nat)
    requires Genuine(seal, log) && h.chunkSize > 0
    requires i + ChunkCount(|data|, h.chunkSize) <= MAX_COUNTER + 1
    requires Seals(seal, key, h, data, i) <= log
    ensures |Body(seal, key, h, data, i)| >= TAG_LEN
    ensures OpenBody(log, key, h, h.ToBytes(), Body(seal, key, h, data, i), i) == Outcome(data, Ok(()))
    decreases |data|
  {
    hide *;
    var c := h.chunkSize;
    if |data| <= c {
      FinalUnfolds(seal, log, key, h, data, i);
      LastBlockOpens(seal, log, key, h, data, i);
    } else {
      NextUnfolds(seal, log, key, h, data, i);
      BodyOpens(seal, log, key, h, data[c..], i + 1);
      var sealed := seal(key, ChunkNonce(h.prefix, i, false), data[..c], h.ToBytes());
      OneSealOpens(seal, log, key, ChunkNonce(h.prefix, i, false), data[..c], h.ToBytes());
      FirstBlock(log, key, h, h.ToBytes(), sealed, Body(seal, key, h, data[c..], i + 1), data[..c], data[c..], i);
    }
  }

  lemma FinalUnfolds(seal: Seal, log: Log, key: Key, h: StreamHeader, data: seq<byte>, i: nat)
    requires Genuine(seal, log) && 0 < h.chunkSize && |data| <= h.chunkSize
    requires i + ChunkCount(|data|, h.chunkSize) <= MAX_COUNTER + 1
    ensures i <= MAX_COUNTER
    ensures Body(seal, key, h, data, i) == seal(key, ChunkNonce(h.prefix, i, true), data, h.ToBytes())
    ensures |Body(seal, key, h, data, i)| == |data| + TAG_LEN
    ensures SealedAs(seal, key, ChunkNonce(h.prefix, i, true), data, h.ToBytes()) in Seals(seal, key, h, data, i)
  {
    Stream.LastChunk(seal, key, h, data, i);
    SealLength(seal, log);
    hide ToBe, StreamHeader.ToBytes, ChunkNonce, Body, Seals, Genuine, SealedAs;
  }

  lemma NextUnfolds(seal: Seal, log: Log, key: Key, h: StreamHeader, data: seq<byte>, i: nat)
    requires Genuine(seal, log) && 0 < h.chunkSize < |data|
    requires i + ChunkCount(|data|, h.chunkSize) <= MAX_COUNTER + 1
    ensures var c := h.chunkSize;
      var sealed := seal(key, ChunkNonce(h.prefix, i, false), data[..c], h.ToBytes());
      && i < MAX_COUNTER == 0xffff_ffff && ChunkCount(|data|, c) == 1 + ChunkCount(|data[c..]|, c)
      && Body(seal, key, h, data, i) == sealed + Body(seal, key, h, data[c..], i + 1)
      && |sealed| == c + TAG_LEN
      && SealedAs(seal, key, ChunkNonce(h.prefix, i, false), data[..c], h.ToBytes()) in Seals(seal, key, h, data, i)
      && Seals(seal, key, h, data[c..], i + 1) <= Seals(seal, key, h, data, i)
      && data[..c] + data[c..] == data
  {
    Stream.MoreChunks(seal, key, h, data, i, []);
    SealLength(seal, log);
    hide ToBe, StreamHeader.ToBytes, ChunkNonce, Body, Seals, Genuine, SealedAs, ChunkCount;
  }

  lemma LastBlockOpens(seal: Seal, log: Log, key: Key, h: StreamHeader, data: seq<byte>, i: nat)
    requires Genuine(seal, log) && h.chunkSize > 0 && i <= MAX_COUNTER && |data| <= h.chunkSize
    requires SealedAs(seal, key, ChunkNonce(h.prefix, i, true), data, h.ToBytes()) in log
    ensures OpenBody(log, key, h, h.ToBytes(), seal(key, ChunkNonce(h.prefix, i, true), data, h.ToBytes()), i)
      == Outcome(data, Ok(()))
  {
    SealLength(seal, log);
    OneSealOpens(seal, log, key, ChunkNonce(h.prefix, i, true), data, h.ToBytes());
    hide ToBe, Open, Genuine, StreamHeader.ToBytes, ChunkNonce, SealedAs;
  }

  /** A block that opens, in front of a body that does. */
  lemma FirstBlock(log: Log, key: Key, h: StreamHeader, aad: seq<byte>, sealed: seq<byte>, rest: seq<byte>,
                   plain: seq<byte>, data: seq<byte>, i: nat)
    requires h.chunkSize > 0 && i < MAX_COUNTER && |sealed| == h.chunkSize + TAG_LEN && |rest| >= TAG_LEN
    requires Open(log, key, ChunkNonce(h.prefix, i, false), sealed, aad) == Some(plain)
    requires OpenBody(log, key, h, aad, rest, i + 1) == Outcome(data, Ok(()))
    ensures OpenBody(log, key, h, aad, sealed + rest, i) == Outcome(plain + data, Ok(()))
  {
    var body := sealed + rest;
    assert body[..h.chunkSize + TAG_LEN] == sealed && body[h.chunkSize + TAG_LEN..] == rest;
    hide ToBe, Open, ChunkNonce;
  }

  lemma SealLength(seal: Seal, log: Log)
    requires Genuine(seal, log)
    ensures forall k, n, p, a :: |seal(k, n, p, a)| == |p| + TAG_LEN
  {
  }

  lemma OneSealOpens(seal: Seal, log: Log, k: Key, n: Nonce, p: seq<byte>, a: seq<byte>)
    requires Genuine(seal, log) && SealedAs(seal, k, n, p, a) in log
    ensures Open(log, k, n, seal(k, n, p, a), a) == Some(p)
  {
    OpenSealed(seal, log, SealedAs(seal, k, n, p, a));
  }

  /** Whatever else the log holds, a container opens to its data. */
  lemma ContainerOpens(seal: Seal, log: Log, phrase: seq<byte>, pepper: seq<byte>, h: StreamHeader, data: seq<byte>)
    requires Genuine(seal, log) && h.Acceptable()
    requires ChunkCount(|data|, h.chunkSize) <= MAX_COUNTER + 1
    requires Seals(seal, StreamKey(phrase, pepper, h), h, data, 0) <= log
    ensures OpenContainer(log, phrase, pepper, Container(seal, StreamKey(phrase, pepper, h), h, data))
      == Outcome(data, Ok(()))
  {
    hide ToBe, FromBe, Open, StreamHeader.ToBytes, StreamHeader.FromBytes, Genuine, Body, OpenBody;
    var key := StreamKey(phrase, pepper, h);
    var blob := Container(seal, key, h, data);
    assert blob[..HEADER_LEN] == h.ToBytes() && blob[HEADER_LEN..] == Body(seal, key, h, data, 0);
    HeaderRoundTrip(h);
    BodyOpens(seal, log, key, h, data, 0);
  }

  /** So a decryption of what an encryption wrote, over a reader that interrupts and delivers short but does not
   *  fail, ends well and writes the data; over one that fails it writes a beginning of it.
   */
  lemma RoundTrip(seal: Seal, log: Log, phrase: seq<byte>, pepper: seq<byte>, h: StreamHeader, data: seq<byte>,
                  before: seq<byte>, after: seq<byte>, r: Result<(), StreamError>, smooth: bool)
    requires Genuine(seal, log) && h.Acceptable()
    requires ChunkCount(|data|, h.chunkSize) <= MAX_COUNTER + 1
    requires Seals(seal, StreamKey(phrase, pepper, h), h, data, 0) <= log
    requires Stream.Follows(before, after, r,
      OpenContainer(log, phrase, pepper, Container(seal, StreamKey(phrase, pepper, h), h, data)), smooth)
    ensures smooth ==> r == Ok(()) && after == before + data
    ensures !smooth ==> (r == Err(Io) || (r == Ok(()) && after == before + data)) && before <= after <= before + data
  {
    ContainerOpens(seal, log, phrase, pepper, h, data);
    hide Genuine, Seals, Container, OpenContainer, StreamKey, StreamHeader.Acceptable;
  }

  // --------------------------------------------------------------- authenticity

  /** One use of `encrypt_stream`: what it drew, and the passphrase, the pepper and the data it was given. */
  datatype Run = Run(header: StreamHeader, phrase: seq<byte>, pepper: seq<byte>, data: seq<byte>)
  {
    function Key(): Key
    {
      Sub(Master(phrase + pepper, header.salt, header.params), STREAM_INFO_PREFIX + header.prefix)
    }

    /** The counter was enough for the data. Otherwise the run stopped after 2^32 chunks, none of them final. */
    ghost predicate Fits()
      requires header.chunkSize > 0
    {
      ChunkCount(|data|, header.chunkSize) <= MAX_COUNTER + 1
    }
  }

  /** The log holds nothing but seals of these runs; runs that were cut short hold some of theirs only. */
  ghost predicate LogOf(seal: Seal, log: Log, runs: seq<Run>)
  {
    && Genuine(seal, log)
    && (forall j :: 0 <= j < |runs| ==> runs[j].header.Acceptable())
    && (forall s <- log :: exists j :: 0 <= j < |runs| && s in SealsOf(seal, runs[j]))
    && (forall i, j :: 0 <= i < j < |runs| ==> runs[i].header != runs[j].header)
  }

  ghost function SealsOf(seal: Seal, run: Run): Log
    requires run.header.Acceptable()
  {
    Seals(seal, run.Key(), run.header, run.data, 0)
  }

  lemma {:induction false} SealsCarryHeader(seal: Seal, key: Key, h: StreamHeader, data: seq<byte>, i: nat, s: Sealed)
    requires h.chunkSize > 0 && s in Seals(seal, key, h, data, i)
    ensures s.aad == h.ToBytes() && s.key == key
    decreases |data|
  {
    hide ToBe, StreamHeader.ToBytes, ChunkNonce;
    if i <= MAX_COUNTER && |data| > h.chunkSize && s in Seals(seal, key, h, data[h.chunkSize..], i + 1) {
      SealsCarryHeader(seal, key, h, data[h.chunkSize..], i + 1, s);
    }
  }

  /** Among the seals from number `i` on, the one with counter `j` is not before `i`. */
  lemma {:induction false} SealsCountUp(seal: Seal, key: Key, h: StreamHeader, data: seq<byte>, i: nat, s: Sealed,
                                        j: u32, final: bool)
    requires h.chunkSize > 0 && s in Seals(seal, key, h, data, i) && s.nonce == ChunkNonce(h.prefix, j, final)
    ensures j >= i
    ensures j == i ==>
      && final == (|data| <= h.chunkSize)
      && s.plain == (if final then data else data[..h.chunkSize])
      && s == SealedAs(seal, key, s.nonce, s.plain, h.ToBytes())
    ensures j > i ==> |data| > h.chunkSize && s in Seals(seal, key, h, data[h.chunkSize..], i + 1)
    decreases |data|
  {
    hide ToBe, StreamHeader.ToBytes, ChunkNonce;
    var c := h.chunkSize;
    NonceInjective(h.prefix, h.prefix, i, j, |data| <= c, final);
    if |data| > c && s in Seals(seal, key, h, data[c..], i + 1) {
      SealsCountUp(seal, key, h, data[c..], i + 1, s, j, final);
    }
  }

  /** Every seal from number `i` on has a nonce with its own counter. */
  lemma {:induction false} SealCounter(seal: Seal, key: Key, h: StreamHeader, data: seq<byte>, i: nat, s: Sealed)
    returns (j: u32, final: bool)
    requires h.chunkSize > 0 && s in Seals(seal, key, h, data, i)
    ensures j >= i && s.nonce == ChunkNonce(h.prefix, j, final)
    decreases |data|
  {
    hide ToBe, StreamHeader.ToBytes, ChunkNonce;
    var c := h.chunkSize;
    if |data| > c && s in Seals(seal, key, h, data[c..], i + 1) {
      j, final := SealCounter(seal, key, h, data[c..], i + 1, s);
    } else {
      j, final := i, |data| <= c;
    }
  }

  /** No two chunks of a run are sealed under the same nonce: there are as many seals as chunks, and two seals
   *  with one nonce are one.
   */
  lemma {:induction false} NoNonceTwice(seal: Seal, key: Key, h: StreamHeader, data: seq<byte>, i: nat)
    requires h.chunkSize > 0 && i + ChunkCount(|data|, h.chunkSize) <= MAX_COUNTER + 1
    ensures |Seals(seal, key, h, data, i)| == ChunkCount(|data|, h.chunkSize)
    ensures forall s, t | s in Seals(seal, key, h, data, i) && t in Seals(seal, key, h, data, i) ::
      s.nonce == t.nonce ==> s == t
    decreases |data|
  {
    hide ToBe, StreamHeader.ToBytes, ChunkNonce;
    var c := h.chunkSize;
    if |data| > c {
      var first := SealedAs(seal, key, ChunkNonce(h.prefix, i, false), data[..c], h.ToBytes());
      var rest := Seals(seal, key, h, data[c..], i + 1);
      NoNonceTwice(seal, key, h, data[c..], i + 1);
      assert Seals(seal, key, h, data, i) == {first} + rest;
      forall s | s in rest
        ensures s.nonce != first.nonce
      {
        var j, final := SealCounter(seal, key, h, data[c..], i + 1, s);
        NonceInjective(h.prefix, h.prefix, i, j, false, final);
      }
      assert first !in rest;
    }
  }

  /** What opens under the header of `run` with counter at least `i` is a seal of its data from chunk `i` on. */
  ghost predicate OnlyFrom(log: Log, seal: Seal, run: Run, left: seq<byte>, i: nat)
    requires run.header.Acceptable()
  {
    forall s <- log, j: u32, final | s.aad == run.header.ToBytes() && j >= i ::
      s.nonce == ChunkNonce(run.header.prefix, j, final) ==>
      s in Seals(seal, run.Key(), run.header, left, i)
  }

  /** Decrypting `body` under the header of `run` writes a beginning of `left`, and all
   *  of it only if `body` is its body. */
  ghost predicate WritesOnly(seal: Seal, log: Log, run: Run, key: Key, body: seq<byte>, left: seq<byte>, i: nat)
    requires run.header.Acceptable() && i <= MAX_COUNTER
  {
    var o := OpenBody(log, key, run.header, run.header.ToBytes(), body, i);
    && o.written <= left
    && (o.result.Ok? ==>
         && i + ChunkCount(|left|, run.header.chunkSize) <= MAX_COUNTER + 1
         && o.written == left && key == run.Key() && body == Body(seal, run.Key(), run.header, left, i))
  }

  lemma ShortBody(seal: Seal, log: Log, run: Run, key: Key, body: seq<byte>, left: seq<byte>, i: nat)
    requires Genuine(seal, log) && run.header.Acceptable() && i <= MAX_COUNTER && OnlyFrom(log, seal, run, left, i)
    requires |body| <= run.header.chunkSize + TAG_LEN || |body| < run.header.chunkSize + TAG_LEN + TAG_LEN
    ensures WritesOnly(seal, log, run, key, body, left, i)
  {
    hide ToBe, StreamHeader.ToBytes, ChunkNonce, Genuine, Open, OnlyFrom;
    var h := run.header;
    if |body| >= TAG_LEN && |body| <= h.chunkSize + TAG_LEN {
      if Open(log, key, ChunkNonce(h.prefix, i, true), body, h.ToBytes()).Some? {
        OpensTo(seal, log, run, key, body, left, i, true);
      }
    }
  }

  lemma LongBody(seal: Seal, log: Log, run: Run, key: Key, body: seq<byte>, left: seq<byte>, i: nat)
    requires run.header.Acceptable() && i <= MAX_COUNTER
    requires |body| >= run.header.chunkSize + TAG_LEN + TAG_LEN
    requires var h := run.header;
      var block := h.chunkSize + TAG_LEN;
      var plain := Open(log, key, ChunkNonce(h.prefix, i, false), body[..block], h.ToBytes());
      plain.Some? ==>
        && |left| > h.chunkSize && plain == Some(left[..h.chunkSize]) && key == run.Key()
        && body[..block] == seal(run.Key(), ChunkNonce(h.prefix, i, false), left[..h.chunkSize], h.ToBytes())
        && (i < MAX_COUNTER ==> WritesOnly(seal, log, run, key, body[block..], left[h.chunkSize..], i + 1))
    ensures WritesOnly(seal, log, run, key, body, left, i)
  {
    hide ToBe, StreamHeader.ToBytes, ChunkNonce, Open;
    var c := run.header.chunkSize;
    assert body == body[..c + TAG_LEN] + body[c + TAG_LEN..];
    assert |left| > c ==> left == left[..c] + left[c..];
  }

  /** So does decrypting any body when all that can open is the run's. */
  lemma {:induction false} BodyIsGenuine(seal: Seal, log: Log, run: Run, key: Key, body: seq<byte>, left: seq<byte>,
                                         i: nat)
    requires Genuine(seal, log) && run.header.Acceptable() && i <= MAX_COUNTER
    requires OnlyFrom(log, seal, run, left, i)
    ensures WritesOnly(seal, log, run, key, body, left, i)
    decreases |body|
  {
    hide *;
    var h := run.header;
    var block := h.chunkSize + TAG_LEN;
    ChunksAreNotEmpty(h);
    if |body| < block + TAG_LEN {
      ShortBody(seal, log, run, key, body, left, i);
    } else {
      if Open(log, key, ChunkNonce(h.prefix, i, false), body[..block], h.ToBytes()).Some? {
        OpensTo(seal, log, run, key, body[..block], left, i, false);
        if i < MAX_COUNTER {
          OnlyFromNext(seal, log, run, left, i);
          BodyIsGenuine(seal, log, run, key, body[block..], left[h.chunkSize..], i + 1);
        }
      }
      LongBody(seal, log, run, key, body, left, i);
    }
  }

  lemma ChunksAreNotEmpty(h: StreamHeader)
    requires h.Acceptable()
    ensures h.chunkSize > 0 && MAX_COUNTER == 0xffff_ffff
  {
  }

  /** A block that opens as number `i` is chunk `i` of the run. */
  lemma OpensTo(seal: Seal, log: Log, run: Run, key: Key, sealed: seq<byte>, left: seq<byte>, i: u32, final: bool)
    requires Genuine(seal, log) && run.header.Acceptable() && OnlyFrom(log, seal, run, left, i)
    requires Open(log, key, ChunkNonce(run.header.prefix, i, final), sealed, run.header.ToBytes()).Some?
    ensures final == (|left| <= run.header.chunkSize) && key == run.Key()
    ensures var chunk := if final then left else left[..run.header.chunkSize];
      && Open(log, key, ChunkNonce(run.header.prefix, i, final), sealed, run.header.ToBytes()) == Some(chunk)
      && sealed == seal(run.Key(), ChunkNonce(run.header.prefix, i, final), chunk, run.header.ToBytes())
  {
    hide ToBe, StreamHeader.ToBytes, ChunkNonce, Genuine;
    var h := run.header;
    var nonce := ChunkNonce(h.prefix, i, final);
    var s :| s in log && Matches(s, key, nonce, sealed, h.ToBytes())
      && s.plain == Open(log, key, nonce, sealed, h.ToBytes()).value;
    SealsCarryHeader(seal, run.Key(), h, left, i, s);
    SealsCountUp(seal, run.Key(), h, left, i, s, i, final);
  }

  lemma OnlyFromNext(seal: Seal, log: Log, run: Run, left: seq<byte>, i: nat)
    requires run.header.Acceptable() && OnlyFrom(log, seal, run, left, i) && |left| > run.header.chunkSize
    ensures OnlyFrom(log, seal, run, left[run.header.chunkSize..], i + 1)
  {
    hide ToBe, StreamHeader.ToBytes, ChunkNonce;
    var h := run.header;
    forall s, j: u32, final | s in log && s.aad == h.ToBytes() &&
      s.nonce == ChunkNonce(h.prefix, j, final) && j >= i + 1
      ensures s in Seals(seal, run.Key(), h, left[h.chunkSize..], i + 1)
    {
      SealsCountUp(seal, run.Key(), h, left, i, s, j, final);
    }
  }

  /** The header determines the run. */
  lemma OnlyRun(seal: Seal, log: Log, runs: seq<Run>, r: nat)
    requires LogOf(seal, log, runs) && r < |runs|
    ensures OnlyFrom(log, seal, runs[r], runs[r].data, 0)
  {
    hide ToBe, FromBe, StreamHeader.ToBytes, StreamHeader.FromBytes, ChunkNonce, Genuine;
    forall s, j: u32, final | s in log && s.aad == runs[r].header.ToBytes()
        && s.nonce == ChunkNonce(runs[r].header.prefix, j, final) && j >= 0
      ensures s in Seals(seal, runs[r].Key(), runs[r].header, runs[r].data, 0)
    {
      var k :| 0 <= k < |runs| && s in SealsOf(seal, runs[k]);
      SealsCarryHeader(seal, runs[k].Key(), runs[k].header, runs[k].data, 0, s);
      HeaderRoundTrip(runs[k].header);
      HeaderRoundTrip(runs[r].header);
    }
  }

  /** Any number of runs with distinct headers, also some that ran out of counter: the bytes decryption accepts
   *  are one whole genuine container, byte for byte, under the passphrase and pepper it was made with; and what it
   *  ever writes is the beginning of the data of the run whose header the bytes start with.
   */
  lemma OnlyGenuineContainersOpen(seal: Seal, log: Log, runs: seq<Run>, phrase: seq<byte>, pepper: seq<byte>,
                                  blob: seq<byte>)
    requires LogOf(seal, log, runs)
    ensures var o := OpenContainer(log, phrase, pepper, blob);
      && (o.result.Ok? ==>
           exists r :: (0 <= r < |runs|
             && runs[r].Fits()
             && runs[r].phrase + runs[r].pepper == phrase + pepper
             && blob == Container(seal, runs[r].Key(), runs[r].header, runs[r].data)
             && o.written == runs[r].data))
      && (o.written != [] ==>
           exists r :: (0 <= r < |runs| && runs[r].header.ToBytes() <= blob && o.written <= runs[r].data))
  {
    hide ToBe, FromBe, StreamHeader.ToBytes, StreamHeader.FromBytes, ChunkNonce, Genuine, OpenBody;
    if |blob| >= HEADER_LEN && StreamHeader.FromBytes(blob[..HEADER_LEN]).Ok? {
      var aad, body := blob[..HEADER_LEN], blob[HEADER_LEN..];
      var h := StreamHeader.FromBytes(aad).value;
      var key := StreamKey(phrase, pepper, h);
      if r :| 0 <= r < |runs| && runs[r].header.ToBytes() == aad {
        HeaderRoundTrip(runs[r].header);
        OnlyRun(seal, log, runs, r);
        BodyIsGenuine(seal, log, runs[r], key, body, runs[r].data, 0);
        KeysInjective(phrase, pepper, h, runs[r].phrase, runs[r].pepper, h);
        assert blob == aad + body;
      } else {
        ParsedHeader(aad);
        NothingOpens(seal, log, runs, key, h, aad, body);
      }
    }
  }

  /** Two keys are equal exactly if passphrase and pepper concatenate alike and salt, parameters and prefix agree. */
  lemma KeysInjective(phrase: seq<byte>, pepper: seq<byte>, h: StreamHeader, phrase': seq<byte>, pepper': seq<byte>,
                      h': StreamHeader)
    ensures StreamKey(phrase, pepper, h) == StreamKey(phrase', pepper', h') <==>
      phrase + pepper == phrase' + pepper' && h.salt == h'.salt && h.params == h'.params && h.prefix == h'.prefix
  {
    var n := |STREAM_INFO_PREFIX|;
    assert (STREAM_INFO_PREFIX + h.prefix)[n..] == h.prefix && (STREAM_INFO_PREFIX + h'.prefix)[n..] == h'.prefix;
  }

  /** The first block of a body does not open under another key. */
  lemma OtherKeyOpensNothing(seal: Seal, log: Log, run: Run, key: Key)
    requires Genuine(seal, log) && run.header.Acceptable() && run.Fits() && key != run.Key()
    requires OnlyFrom(log, seal, run, run.data, 0)
    ensures OpenBody(log, key, run.header, run.header.ToBytes(), Body(seal, run.Key(), run.header, run.data, 0), 0)
      == Outcome([], Err(Decrypt))
  {
    hide *;
    var h, data := run.header, run.data;
    FitsIs(run);
    var c, body := h.chunkSize, Body(seal, run.Key(), h, data, 0);
    if |data| <= c {
      FinalUnfolds(seal, log, run.Key(), h, data, 0);
      if Open(log, key, ChunkNonce(h.prefix, 0, true), body, h.ToBytes()).Some? {
        OpensTo(seal, log, run, key, body, data, 0, true);
      }
    } else {
      NextUnfolds(seal, log, run.Key(), h, data, 0);
      assert 1 + ChunkCount(|data[c..]|, c) == ChunkCount(|data|, c);
      BodyIsLong(seal, log, run.Key(), h, data[c..], 1);
      var block := c + TAG_LEN;
      if Open(log, key, ChunkNonce(h.prefix, 0, false), body[..block], h.ToBytes()).Some? {
        OpensTo(seal, log, run, key, body[..block], data, 0, false);
      }
    }
    FirstBlockShut(log, key, h, h.ToBytes(), body);
  }

  lemma FitsIs(run: Run)
    requires run.header.Acceptable() && run.Fits()
    ensures 0 < run.header.chunkSize && 0 + ChunkCount(|run.data|, run.header.chunkSize) <= MAX_COUNTER + 1
  {
  }

  lemma BodyIsLong(seal: Seal, log: Log, key: Key, h: StreamHeader, data: seq<byte>, i: nat)
    requires Genuine(seal, log) && h.chunkSize > 0
    requires i + ChunkCount(|data|, h.chunkSize) <= MAX_COUNTER + 1
    ensures |Body(seal, key, h, data, i)| >= TAG_LEN == 16
  {
    BodyLength(seal, key, h, data, i);
    hide Body;
  }

  lemma FirstBlockShut(log: Log, key: Key, h: StreamHeader, aad: seq<byte>, body: seq<byte>)
    requires h.chunkSize > 0 && |body| >= TAG_LEN
    requires |body| <= h.chunkSize + TAG_LEN ==> Open(log, key, ChunkNonce(h.prefix, 0, true), body, aad) == None
    requires |body| > h.chunkSize + TAG_LEN ==>
      && |body| >= h.chunkSize + TAG_LEN + TAG_LEN
      && Open(log, key, ChunkNonce(h.prefix, 0, false), body[..h.chunkSize + TAG_LEN], aad) == None
    ensures OpenBody(log, key, h, aad, body, 0) == Outcome([], Err(Decrypt))
  {
    hide ChunkNonce, Open;
  }

  /** What an encryption wrote opens to its data under every passphrase and pepper that concatenate to those it was
   *  given, and under any others nothing is written and the answer is a failed decryption; whatever other runs there
   *  were.
   */
  lemma OpensExactly(seal: Seal, log: Log, runs: seq<Run>, phrase: seq<byte>, pepper: seq<byte>, h: StreamHeader,
                     data: seq<byte>, phrase': seq<byte>, pepper': seq<byte>)
    requires LogOf(seal, log, runs) && Run(h, phrase, pepper, data) in runs
    requires h.Acceptable() && ChunkCount(|data|, h.chunkSize) <= MAX_COUNTER + 1
    requires Seals(seal, Run(h, phrase, pepper, data).Key(), h, data, 0) <= log
    ensures OpenContainer(log, phrase', pepper', Container(seal, Run(h, phrase, pepper, data).Key(), h, data))
      == if phrase' + pepper' == phrase + pepper then Outcome(data, Ok(())) else Outcome([], Err(Decrypt))
  {
    var key, key' := Run(h, phrase, pepper, data).Key(), StreamKey(phrase', pepper', h);
    KeysInjective(phrase, pepper, h, phrase', pepper', h);
    var blob := Container(seal, key, h, data);
    hide ToBe, FromBe, Open, StreamHeader.ToBytes, StreamHeader.FromBytes, Genuine, Body, OpenBody, StreamKey, Seals;
    assert blob[..HEADER_LEN] == h.ToBytes() && blob[HEADER_LEN..] == Body(seal, key, h, data, 0);
    HeaderRoundTrip(h);
    if key' == key {
      BodyOpens(seal, log, key, h, data, 0);
    } else {
      var run := Run(h, phrase, pepper, data);
      var r :| 0 <= r < |runs| && runs[r] == run;
      OnlyRun(seal, log, runs, r);
      OtherKeyOpensNothing(seal, log, run, key');
    }
  }

  /** Under a header that no run drew, nothing opens. */
  lemma NothingOpens(seal: Seal, log: Log, runs: seq<Run>, key: Key, h: StreamHeader, aad: seq<byte>, body: seq<byte>)
    requires LogOf(seal, log, runs) && h.chunkSize > 0
    requires forall r :: 0 <= r < |runs| ==> runs[r].header.ToBytes() != aad
    ensures OpenBody(log, key, h, aad, body, 0).written == [] && OpenBody(log, key, h, aad, body, 0).result.Err?
  {
    hide ToBe, StreamHeader.ToBytes, ChunkNonce, Genuine;
    forall s | s in log
      ensures s.aad != aad
    {
      var k :| 0 <= k < |runs| && s in SealsOf(seal, runs[k]);
      SealsCarryHeader(seal, runs[k].Key(), runs[k].header, runs[k].data, 0, s);
    }
  }
}
