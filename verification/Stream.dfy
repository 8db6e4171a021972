/** `src/stream.rs`: the two loops with their look-ahead buffers, over a reader that may deliver
 *  less than asked, be interrupted or fail, and a writer that may run out of room.
 */
module Stream {
  import opened Results
  import opened Bytes
  import opened Aead
  import opened StreamFormat

  // --------------------------------------------------------------- reader and writer

  /** What the next call to `read` does: is interrupted, fails, or delivers at most `max` bytes (at least one). */
  datatype Event = Interrupts | Fails | Delivers(max: nat)

  datatype ReadResult = Count(n: nat) | Interrupted | Failed

  function Min(a: nat, b: nat): (m: nat)
    ensures m == if a <= b then a else b
  {
    if a <= b then a else b
  }

  /** A source of bytes. Once the script of events is used up, it delivers all that fits. */
  class Reader {
    var pending: seq<byte>
    var script: seq<Event>

    constructor (data: seq<byte>, events: seq<Event>)
      ensures pending == data && script == events
    {
      pending := data;
      script := events;
    }

    /** Into `buf[from..]`. A count of 0 means the end, or no room was offered. */
    method Read(buf: array<byte>, from: nat) returns (r: ReadResult)
      requires from <= buf.Length
      modifies this, buf
      ensures script == if old(script) == [] then [] else old(script)[1..]
      ensures r.Count? ==> r.n <= buf.Length - from && r.n <= |old(pending)|
      ensures r.Count? ==> (r.n == 0 <==> from == buf.Length || old(pending) == [])
      ensures r.Count? ==> pending == old(pending)[r.n..]
      ensures r.Count? ==> buf[..from] == old(buf[..from])
      ensures r.Count? ==> buf[from..from + r.n] == old(pending)[..r.n]
      ensures !r.Count? ==> pending == old(pending) && buf[..] == old(buf[..])
      ensures r.Failed? <==> old(script) != [] && old(script)[0].Fails?
      ensures r.Interrupted? <==> old(script) != [] && old(script)[0].Interrupts?
    {
      var n := Min(|pending|, buf.Length - from);
      if script != [] {
        var event := script[0];
        script := script[1..];
        match event {
          case Interrupts => return Interrupted;
          case Fails => return Failed;
          case Delivers(max) => n := Min(n, if max == 0 then 1 else max);
        }
      }
      CopyInto(buf, from, pending[..n]);
      pending := pending[n..];
      r := Count(n);
    }
  }

  ghost predicate NeverFails(script: seq<Event>)
  {
    forall i :: 0 <= i < |script| ==> !script[i].Fails?
  }

  /** A sink with room for a limited number of bytes, or for all. */
  class Writer {
    var content: seq<byte>
    var room: Option<nat>

    constructor (r: Option<nat>)
      ensures content == [] && room == r
    {
      content := [];
      room := r;
    }

    method WriteAll(data: seq<byte>) returns (ok: bool)
      modifies this
      ensures ok <==> old(room).None? || |data| <= old(room).value
      ensures ok ==> content == old(content) + data
      ensures !ok ==> content == old(content) + data[..old(room).value]
      ensures room.None? <==> old(room).None?
    {
      match room {
        case None =>
          content := content + data;
          ok := true;
        case Some(n) =>
          ok := |data| <= n;
          content := content + data[..Min(n, |data|)];
          room := Some(n - Min(n, |data|));
      }
    }
  }

  /** Fills the buffer or reaches the end, through any interruptions and short reads. */
  method ReadChunk(reader: Reader, buf: array<byte>) returns (r: Result<nat, ()>)
    modifies reader, buf
    ensures NeverFails(old(reader.script)) ==> r.Ok? && NeverFails(reader.script)
    ensures r.Ok? ==> r.value == Min(|old(reader.pending)|, buf.Length)
    ensures r.Ok? ==> buf[..r.value] == old(reader.pending)[..r.value]
    ensures r.Ok? ==> reader.pending == old(reader.pending)[r.value..]
  {
    var filled := 0;
    ghost var data := reader.pending;
    while filled < buf.Length
      invariant filled <= buf.Length && filled <= |data|
      invariant reader.pending == data[filled..]
      invariant buf[..filled] == data[..filled]
      invariant NeverFails(old(reader.script)) ==> NeverFails(reader.script)
      decreases buf.Length - filled, |reader.script|
    {
      ghost var script := reader.script;
      label before:
      var got := reader.Read(buf, filled);
      match got {
        case Count(n) =>
          if n == 0 {
            break;
          }
          assert buf[..filled + n] == buf[..filled] + buf[filled..filled + n];
          assert data[..filled + n] == data[..filled] + data[filled..][..n];
          filled := filled + n;
        case Interrupted =>
          assert buf[..filled] == old@before(buf[..])[..filled];
        case Failed =>
          assert script[0].Fails?;
          return Err(());
      }
    }
    r := Ok(filled);
  }

  /** Looks for what follows a buffer holding `n` bytes: nothing, without asking, when it is not full. */
  method LookAhead(reader: Reader, next: array<byte>, n: nat) returns (r: Result<nat, ()>)
    modifies reader, next
    ensures NeverFails(old(reader.script)) ==> r.Ok? && NeverFails(reader.script)
    ensures r.Ok? ==> r.value == if n < next.Length then 0 else Min(|old(reader.pending)|, next.Length)
    ensures r.Ok? ==> next[..r.value] == old(reader.pending)[..r.value]
    ensures r.Ok? ==> reader.pending == old(reader.pending)[r.value..]
  {
    if n < next.Length {
      return Ok(0);
    }
    r := ReadChunk(reader, next);
  }

  // ------------------------------------------------------------------ encryption

  /** `encrypt_stream`: the header, then the chunks. The salt and the nonce prefix are the random draws. */
  method EncryptStream(reader: Reader, writer: Writer, box: Box, phrase: seq<byte>, pepper: seq<byte>,
                       params: KdfParams, chunkSize: nat, salt: Salt, prefix: Prefix)
    returns (r: Result<(), StreamError>)
    requires box.Valid()
    modifies reader, writer, box
    ensures box.Valid()
    ensures !params.IsSane() ==> r == Err(InsaneKdf)
    ensures params.IsSane() && !(MIN_CHUNK_SIZE <= chunkSize <= MAX_CHUNK_SIZE) ==> r == Err(BadChunkSize)
    ensures params.IsSane() && MIN_CHUNK_SIZE <= chunkSize <= MAX_CHUNK_SIZE ==>
      var h := StreamHeader(params, salt, prefix, chunkSize);
      var key := Sub(Master(phrase + pepper, salt, params), STREAM_INFO_PREFIX + prefix);
      var data := old(reader.pending);
      && (r.Ok? ==>
           && ChunkCount(|data|, chunkSize) <= MAX_COUNTER + 1
           && writer.content == old(writer.content) + Container(box.seal, key, h, data)
           && box.log == old(box.log) + Seals(box.seal, key, h, data, 0)
           && reader.pending == [])
      && (r.Err? ==> r.error == Io || (r.error == Truncated && ChunkCount(|data|, chunkSize) > MAX_COUNTER + 1))
      && (NeverFails(old(reader.script)) && old(writer.room) == None ==> r != Err(Io))
      && box.log <= old(box.log) + Seals(box.seal, key, h, data, 0)
  {
    hide ToBe, IsSeal, ChunkNonce, Body, Seals, ChunkCount;
    if !params.IsSane() {
      return Err(InsaneKdf);
    }
    if chunkSize < MIN_CHUNK_SIZE || chunkSize > MAX_CHUNK_SIZE {
      return Err(BadChunkSize);
    }
    var header := StreamHeader(params, salt, prefix, chunkSize);
    var written := writer.WriteAll(header.ToBytes());
    if !written {
      return Err(Io);
    }
    var key := StreamKey(phrase, pepper, header);
    ghost var data, start := reader.pending, old(writer.content) + header.ToBytes();
    r := EncryptChunks(reader, writer, box, key, header);
    if r.Ok? {
      assert start + Body(box.seal, key, header, data, 0)
        == old(writer.content) + Container(box.seal, key, header, data);
    }
  }

  lemma MoreChunks(seal: Seal, key: Key, h: StreamHeader, left: seq<byte>, i: nat, done: seq<byte>)
    requires 0 < h.chunkSize < |left| && i <= MAX_COUNTER
    ensures ChunkCount(|left|, h.chunkSize) == 1 + ChunkCount(|left[h.chunkSize..]|, h.chunkSize)
    ensures i + ChunkCount(|left|, h.chunkSize) <= MAX_COUNTER + 1 ==>
      done + Body(seal, key, h, left, i)
        == done + seal(key, ChunkNonce(h.prefix, i, false), left[..h.chunkSize], h.ToBytes())
           + Body(seal, key, h, left[h.chunkSize..], i + 1)
    ensures Seals(seal, key, h, left, i)
      == {SealedAs(seal, key, ChunkNonce(h.prefix, i, false), left[..h.chunkSize], h.ToBytes())}
         + Seals(seal, key, h, left[h.chunkSize..], i + 1)
  {
  }

  lemma LastChunk(seal: Seal, key: Key, h: StreamHeader, left: seq<byte>, i: nat)
    requires 0 < h.chunkSize && |left| <= h.chunkSize && i <= MAX_COUNTER
    ensures ChunkCount(|left|, h.chunkSize) == 1
    ensures Body(seal, key, h, left, i) == seal(key, ChunkNonce(h.prefix, i, true), left, h.ToBytes())
    ensures Seals(seal, key, h, left, i) == {SealedAs(seal, key, ChunkNonce(h.prefix, i, true), left, h.ToBytes())}
  {
  }

  /** Seals one chunk and writes it. */
  method WriteSealed(writer: Writer, box: Box, key: Key, header: StreamHeader, counter: u32, final: bool,
                     chunk: seq<byte>)
    returns (ok: bool)
    requires box.Valid()
    modifies writer, box
    ensures box.Valid()
    ensures var nonce := ChunkNonce(header.prefix, counter, final);
      && box.log == old(box.log) + {SealedAs(box.seal, key, nonce, chunk, header.ToBytes())}
      && (ok ==> writer.content == old(writer.content) + box.seal(key, nonce, chunk, header.ToBytes()))
    ensures !ok ==> old(writer.room).Some?
    ensures writer.room.None? <==> old(writer.room).None?
  {
    hide *;
    var sealed := box.Encrypt(key, ChunkNonce(header.prefix, counter, final), chunk, header.ToBytes());
    ok := writer.WriteAll(sealed);
  }

  /** What sealing `left` from number `i` on owes the writer and the box. */
  ghost predicate Sealing(seal: Seal, log: Log, goal: Log, written: seq<byte>, all: seq<byte>, key: Key,
                          h: StreamHeader, left: seq<byte>, i: u32, total: nat)
    requires h.chunkSize > 0
  {
    && i + ChunkCount(|left|, h.chunkSize) == total
    && log + Seals(seal, key, h, left, i) == goal
    && (total <= MAX_COUNTER + 1 ==> written + Body(seal, key, h, left, i) == all)
  }

  lemma SealingMore(seal: Seal, log: Log, goal: Log, written: seq<byte>, all: seq<byte>, key: Key, h: StreamHeader,
                    left: seq<byte>, i: u32, total: nat)
    requires 0 < h.chunkSize < |left| && Sealing(seal, log, goal, written, all, key, h, left, i, total)
    ensures var nonce, c := ChunkNonce(h.prefix, i, false), h.chunkSize;
      && log + {SealedAs(seal, key, nonce, left[..c], h.ToBytes())} <= goal
      && (i == MAX_COUNTER ==> total > MAX_COUNTER + 1)
      && (i < MAX_COUNTER ==>
           Sealing(seal, log + {SealedAs(seal, key, nonce, left[..c], h.ToBytes())}, goal,
             written + seal(key, nonce, left[..c], h.ToBytes()), all, key, h, left[c..], i + 1, total))
  {
    MoreChunks(seal, key, h, left, i, written);
    hide ChunkNonce, ToBe, Body, Seals, SealedAs, StreamHeader.ToBytes, ChunkCount;
    CountsOne(|left[h.chunkSize..]|, h.chunkSize);
  }

  lemma CountsOne(len: nat, c: nat)
    requires c > 0
    ensures ChunkCount(len, c) >= 1
  {
  }

  lemma SealingLast(seal: Seal, log: Log, goal: Log, written: seq<byte>, all: seq<byte>, key: Key, h: StreamHeader,
                    left: seq<byte>, i: u32, total: nat)
    requires |left| <= h.chunkSize && 0 < h.chunkSize && Sealing(seal, log, goal, written, all, key, h, left, i, total)
    ensures var nonce := ChunkNonce(h.prefix, i, true);
      && log + {SealedAs(seal, key, nonce, left, h.ToBytes())} == goal
      && total <= MAX_COUNTER + 1 && written + seal(key, nonce, left, h.ToBytes()) == all
  {
    LastChunk(seal, key, h, left, i);
    hide ChunkNonce, ToBe, Body, Seals, SealedAs, StreamHeader.ToBytes, ChunkCount;
  }

  lemma SealingWithin(seal: Seal, log: Log, goal: Log, written: seq<byte>, all: seq<byte>, key: Key, h: StreamHeader,
                      left: seq<byte>, i: u32, total: nat)
    requires h.chunkSize > 0 && Sealing(seal, log, goal, written, all, key, h, left, i, total)
    ensures log <= goal
  {
    hide Body, Seals, ChunkCount;
  }

  /** The chunks of what the reader delivers, sealed and written. */
  method EncryptChunks(reader: Reader, writer: Writer, box: Box, key: Key, header: StreamHeader)
    returns (r: Result<(), StreamError>)
    requires box.Valid() && header.chunkSize > 0
    modifies reader, writer, box
    ensures box.Valid()
    ensures r.Ok? ==>
      && ChunkCount(|old(reader.pending)|, header.chunkSize) <= MAX_COUNTER + 1
      && writer.content == old(writer.content) + Body(box.seal, key, header, old(reader.pending), 0)
      && box.log == old(box.log) + Seals(box.seal, key, header, old(reader.pending), 0)
      && reader.pending == []
    ensures r.Err? ==>
      r.error == Io || (r.error == Truncated && ChunkCount(|old(reader.pending)|, header.chunkSize) > MAX_COUNTER + 1)
    ensures NeverFails(old(reader.script)) && old(writer.room) == None ==> r != Err(Io)
    ensures box.log <= old(box.log) + Seals(box.seal, key, header, old(reader.pending), 0)
  {
    hide ToBe, Genuine, ChunkNonce, Body, Seals, ChunkCount, NeverFails, SealedAs, StreamHeader.ToBytes;
    var cur := new byte[header.chunkSize];
    ghost var smooth := NeverFails(reader.script) && writer.room == None;
    ghost var data := reader.pending;
    ghost var total := ChunkCount(|data|, header.chunkSize);
    ghost var goal := box.log + Seals(box.seal, key, header, data, 0);
    ghost var all := if total <= MAX_COUNTER + 1 then writer.content + Body(box.seal, key, header, data, 0) else [];
    assert Sealing(box.seal, box.log, goal, writer.content, all, key, header, data, 0, total);
    var got := ReadChunk(reader, cur);
    if got.Err? {
      return Err(Io);
    }
    hide Sealing;
    r := EncryptFrom(reader, writer, box, key, header, cur, got.value, data, goal, all, total, smooth);
  }

  /** The loop: seal the chunk in `cur` once it is known whether another one follows. */
  method EncryptFrom(reader: Reader, writer: Writer, box: Box, key: Key, header: StreamHeader, first: array<byte>,
                     n: nat, ghost data: seq<byte>, ghost goal: Log, ghost all: seq<byte>, ghost total: nat,
                     ghost smooth: bool)
    returns (r: Result<(), StreamError>)
    requires box.Valid() && header.chunkSize > 0 && first.Length == header.chunkSize
    requires n == Min(|data|, first.Length) && first[..n] == data[..n] && reader.pending == data[n..]
    requires Sealing(box.seal, box.log, goal, writer.content, all, key, header, data, 0, total)
    requires smooth ==> NeverFails(reader.script) && writer.room.None?
    modifies reader, writer, box, first
    ensures box.Valid() && box.log <= goal
    ensures r.Ok? ==> total <= MAX_COUNTER + 1 && writer.content == all && box.log == goal && reader.pending == []
    ensures r.Err? ==> r.error == Io || (r.error == Truncated && total > MAX_COUNTER + 1)
    ensures smooth ==> r != Err(Io)
  {
    hide *;
    Limits();
    var chunk := header.chunkSize;
    var counter: u32 := 0;
    var cur := first;
    var nxt := new byte[chunk];
    var nCur := n;
    ghost var left := data;
    while true
      invariant (cur == first || fresh(cur)) && (nxt == first || fresh(nxt)) && cur != nxt
      invariant cur.Length == nxt.Length == chunk
      invariant box.Valid()
      invariant nCur == Min(|left|, chunk) && cur[..nCur] == left[..nCur] && reader.pending == left[nCur..]
      invariant Sealing(box.seal, box.log, goal, writer.content, all, key, header, left, counter, total)
      invariant smooth ==> NeverFails(reader.script) && writer.room.None?
      decreases |left|
    {
      SealingWithin(box.seal, box.log, goal, writer.content, all, key, header, left, counter, total);
      var current := cur[..nCur];
      var more := LookAhead(reader, nxt, nCur);
      if more.Err? {
        return Err(Io);
      }
      if more.value == 0 {
        assert current == left;
        SealingLast(box.seal, box.log, goal, writer.content, all, key, header, left, counter, total);
        var written := WriteSealed(writer, box, key, header, counter, true, current);
        return if written then Ok(()) else Err(Io);
      }
      SealingMore(box.seal, box.log, goal, writer.content, all, key, header, left, counter, total);
      var written := WriteSealed(writer, box, key, header, counter, false, current);
      if !written {
        return Err(Io);
      }
      if counter == MAX_COUNTER {
        return Err(Truncated);
      }
      counter := counter + 1;
      cur, nxt := nxt, cur;
      nCur := more.value;
      left := left[chunk..];
    }
  }

  // ------------------------------------------------------------------ decryption

  /** How a run over `reader` and `writer` relates to what the bytes mean: it writes a prefix of the
   *  meaning, all of it on success; it fails only as the meaning says, or because of reader or writer.
   */
  ghost predicate Follows(before: seq<byte>, after: seq<byte>, r: Result<(), StreamError>, meaning: Outcome,
                          smooth: bool)
  {
    && before <= after <= before + meaning.written
    && (r != Err(Io) ==> r == meaning.result && after == before + meaning.written)
    && (smooth ==> r != Err(Io))
  }

  /** `decrypt_stream`, on any bytes whatever. */
  method DecryptStream(reader: Reader, writer: Writer, box: Box, phrase: seq<byte>, pepper: seq<byte>)
    returns (r: Result<(), StreamError>)
    requires box.Valid()
    modifies reader, writer
    ensures Follows(old(writer.content), writer.content, r,
      OpenContainer(box.log, phrase, pepper, old(reader.pending)),
      NeverFails(old(reader.script)) && old(writer.room) == None)
  {
    hide ToBe, FromBe, Genuine, ChunkNonce, OpenBody, StreamKey, StreamHeader.FromBytes;
    var headerBytes := new byte[HEADER_LEN];
    var got := ReadChunk(reader, headerBytes);
    if got.Err? {
      return Err(Io);
    }
    if got.value != HEADER_LEN {
      return Err(Header);
    }
    assert headerBytes[..] == headerBytes[..HEADER_LEN] == old(reader.pending)[..HEADER_LEN];
    var parsed := StreamHeader.FromBytes(headerBytes[..]);
    ParsedHeader(headerBytes[..]);
    match parsed {
      case Err(e) =>
        return Err(e);
      case Ok(header) =>
        var key := StreamKey(phrase, pepper, header);
        r := DecryptBlocks(reader, writer, box, key, header, headerBytes[..]);
    }
  }

  /** The loop: open the block in `cur` once it is known whether another one follows. */
  method DecryptBlocks(reader: Reader, writer: Writer, box: Box, key: Key, header: StreamHeader, headerBytes: seq<byte>)
    returns (r: Result<(), StreamError>)
    requires box.Valid() && header.chunkSize > 0
    modifies reader, writer
    ensures Follows(old(writer.content), writer.content, r,
      OpenBody(box.log, key, header, headerBytes, old(reader.pending), 0),
      NeverFails(old(reader.script)) && old(writer.room) == None)
  {
    hide *;
    Limits();
    var block := header.chunkSize + TAG_LEN;
    var cur := new byte[block];
    ghost var smooth := NeverFails(reader.script) && writer.room == None;
    ghost var left := reader.pending;
    ghost var meaning := OpenBody(box.log, key, header, headerBytes, left, 0);
    OwedAtFirst(box.log, key, header, headerBytes, left);
    var got := ReadChunk(reader, cur);
    if got.Err? {
      NothingMore(writer.content, writer.content, smooth, meaning, [], box.log, key, header, headerBytes, left, 0);
      return Err(Io);
    }
    if got.value < TAG_LEN {
      Torn(writer.content, writer.content, smooth, meaning, [], box.log, key, header, headerBytes, left, 0);
      return Err(Truncated);
    }
    r := DecryptFrom(reader, writer, box, key, header, headerBytes, cur, got.value, left, meaning, smooth);
  }

  method DecryptFrom(reader: Reader, writer: Writer, box: Box, key: Key, header: StreamHeader, headerBytes: seq<byte>,
                     first: array<byte>, n: nat, ghost data: seq<byte>, ghost meaning: Outcome, ghost smooth: bool)
    returns (r: Result<(), StreamError>)
    requires box.Valid() && header.chunkSize > 0 && first.Length == header.chunkSize + TAG_LEN
    requires TAG_LEN <= n == Min(|data|, first.Length) && first[..n] == data[..n] && reader.pending == data[n..]
    requires Owed(meaning, [], box.log, key, header, headerBytes, data, 0)
    requires smooth ==> NeverFails(reader.script) && writer.room.None?
    modifies reader, writer, first
    ensures Follows(old(writer.content), writer.content, r, meaning, smooth)
  {
    hide *;
    Limits();
    var block := header.chunkSize + TAG_LEN;
    var counter: u32 := 0;
    var cur := first;
    var nxt := new byte[block];
    var nCur := n;
    ghost var before := writer.content;
    ghost var left, done: seq<byte> := data, [];
    while true
      invariant (cur == first || fresh(cur)) && (nxt == first || fresh(nxt)) && cur != nxt
      invariant cur.Length == nxt.Length == block
      invariant TAG_LEN <= nCur == Min(|left|, block) && cur[..nCur] == left[..nCur] && reader.pending == left[nCur..]
      invariant writer.content == before + done
      invariant Owed(meaning, done, box.log, key, header, headerBytes, left, counter)
      invariant smooth ==> NeverFails(reader.script) && writer.room.None?
      decreases |left|
    {
      var current := cur[..nCur];
      var more := LookAhead(reader, nxt, nCur);
      if more.Err? {
        NothingMore(before, writer.content, smooth, meaning, done, box.log, key, header, headerBytes, left, counter);
        return Err(Io);
      }
      if more.value == 0 {
        assert current == left;
        r := OpenLast(writer, box, key, header, counter, current, headerBytes, before, done, meaning, smooth);
        return;
      }
      if more.value < TAG_LEN {
        Torn(before, writer.content, smooth, meaning, done, box.log, key, header, headerBytes, left, counter);
        return Err(Truncated);
      }
      r, done := OpenNext(writer, box, key, header, counter, current, headerBytes, before, done, left, meaning, smooth);
      if r.Err? {
        return;
      }
      counter := counter + 1;
      cur, nxt := nxt, cur;
      nCur := more.value;
      left := left[block..];
    }
  }

  /** The last block: whatever happens, the run ends here. */
  method OpenLast(writer: Writer, box: Box, key: Key, header: StreamHeader, counter: u32, current: seq<byte>,
                  headerBytes: seq<byte>,
                  ghost before: seq<byte>, ghost done: seq<byte>, ghost meaning: Outcome, ghost smooth: bool)
    returns (r: Result<(), StreamError>)
    requires box.Valid() && header.chunkSize > 0 && TAG_LEN <= |current| <= header.chunkSize + TAG_LEN
    requires Owed(meaning, done, box.log, key, header, headerBytes, current, counter)
    requires writer.content == before + done && (writer.room.Some? ==> !smooth)
    modifies writer
    ensures Follows(before, writer.content, r, meaning, smooth)
  {
    LastBlock(meaning, done, box.log, key, header, headerBytes, current, counter);
    hide *;
    ghost var plain;
    r, plain := OpenInto(writer, box, key, ChunkNonce(header.prefix, counter, true), current, headerBytes);
    Ended(before, done, plain, writer.content, r, meaning, smooth);
  }

  /** A block that another one follows: the run goes on after it unless it ends in an error. */
  method OpenNext(writer: Writer, box: Box, key: Key, header: StreamHeader, counter: u32, current: seq<byte>,
                  headerBytes: seq<byte>, ghost before: seq<byte>, ghost done: seq<byte>, ghost left: seq<byte>,
                  ghost meaning: Outcome, ghost smooth: bool)
    returns (r: Result<(), StreamError>, ghost next: seq<byte>)
    requires box.Valid() && header.chunkSize > 0 && header.chunkSize + TAG_LEN + TAG_LEN <= |left|
    requires current == left[..header.chunkSize + TAG_LEN]
    requires Owed(meaning, done, box.log, key, header, headerBytes, left, counter)
    requires writer.content == before + done && (writer.room.Some? ==> !smooth)
    modifies writer
    ensures r.Err? ==> Follows(before, writer.content, r, meaning, smooth)
    ensures r.Ok? ==>
      && counter < MAX_COUNTER && writer.content == before + next
      && Owed(meaning, next, box.log, key, header, headerBytes, left[header.chunkSize + TAG_LEN..], counter + 1)
    ensures writer.room.None? <==> old(writer.room).None?
  {
    hide *;
    MoreBlocks(meaning, done, box.log, key, header, headerBytes, left, counter);
    ghost var plain;
    r, plain := OpenInto(writer, box, key, ChunkNonce(header.prefix, counter, false), current, headerBytes);
    next := done + plain;
    if r.Err? {
      Ended(before, done, plain, writer.content, r, meaning, smooth);
      return;
    }
    if counter == MAX_COUNTER {
      Complete(before, writer.content, meaning, smooth);
      return Err(Truncated), next;
    }
  }

  /** Opens one block and writes what it held. */
  method OpenInto(writer: Writer, box: Box, key: Key, nonce: Nonce, sealed: seq<byte>, aad: seq<byte>)
    returns (r: Result<(), StreamError>, ghost plain: seq<byte>)
    requires box.Valid()
    modifies writer
    ensures match Open(box.log, key, nonce, sealed, aad)
      case None => r == Err(Decrypt) && writer.content == old(writer.content)
      case Some(p) => p == plain && (r == Err(Io) || (r == Ok(()) && writer.content == old(writer.content) + plain))
    ensures r == Err(Io) ==> old(writer.room).Some? && Broke(old(writer.content), plain, writer.content)
    ensures writer.room.None? <==> old(writer.room).None?
  {
    hide Genuine, Open;
    plain := [];
    var p := box.Decrypt(key, nonce, sealed, aad);
    if p.None? {
      return Err(Decrypt), plain;
    }
    plain := p.value;
    ghost var room := writer.room;
    var written := writer.WriteAll(p.value);
    if !written {
      assert writer.content == old(writer.content) + plain[..room.value];
      return Err(Io), plain;
    }
    return Ok(()), plain;
  }

  /** Only the beginning of `plain` reached the sink. */
  ghost predicate Broke(before: seq<byte>, plain: seq<byte>, after: seq<byte>)
  {
    exists n :: 0 <= n <= |plain| && after == before + plain[..n]
  }

  /** All that the bytes mean was written. */
  lemma Complete(before: seq<byte>, after: seq<byte>, meaning: Outcome, smooth: bool)
    requires after == before + meaning.written && meaning.result != Err(Io)
    ensures Follows(before, after, meaning.result, meaning, smooth)
  {
  }

  /** Reader or writer gave up after `done` and perhaps part of `plain`. */
  lemma GaveUp(before: seq<byte>, done: seq<byte>, plain: seq<byte>, after: seq<byte>, meaning: Outcome, smooth: bool)
    requires Broke(before + done, plain, after)
    requires done + plain <= meaning.written && !smooth
    ensures Follows(before, after, Err(Io), meaning, smooth)
  {
    var n :| 0 <= n <= |plain| && after == before + done + plain[..n];
    assert done + plain[..n] == (done + plain)[..|done| + n];
    assert after == before + meaning.written[..|done| + n];
  }

  lemma NothingMore(before: seq<byte>, after: seq<byte>, smooth: bool, meaning: Outcome, done: seq<byte>, log: Log,
                    key: Key, h: StreamHeader, aad: seq<byte>, left: seq<byte>, i: u32)
    requires h.chunkSize > 0 && Owed(meaning, done, log, key, h, aad, left, i)
    requires after == before + done && !smooth
    ensures Follows(before, after, Err(Io), meaning, smooth)
  {
    hide OpenBody;
  }

  lemma Torn(before: seq<byte>, after: seq<byte>, smooth: bool, meaning: Outcome, done: seq<byte>, log: Log, key: Key,
             h: StreamHeader, aad: seq<byte>, left: seq<byte>, i: u32)
    requires h.chunkSize > 0 && Owed(meaning, done, log, key, h, aad, left, i)
    requires |left| < TAG_LEN || h.chunkSize + TAG_LEN < |left| < h.chunkSize + TAG_LEN + TAG_LEN
    requires after == before + done
    ensures Follows(before, after, Err(Truncated), meaning, smooth)
  {
    TornBlock(meaning, done, log, key, h, aad, left, i);
    hide Owed;
  }

  lemma Ended(before: seq<byte>, done: seq<byte>, plain: seq<byte>, after: seq<byte>, r: Result<(), StreamError>,
              meaning: Outcome, smooth: bool)
    requires
      || (r == Ok(()) && after == before + done + plain && meaning == Outcome(done + plain, Ok(())))
      || (r == Err(Decrypt) && after == before + done && meaning == Outcome(done, Err(Decrypt)))
      || (r == Err(Io) && !smooth && Broke(before + done, plain, after) && done + plain <= meaning.written)
    ensures Follows(before, after, r, meaning, smooth)
  {
    if r == Err(Io) {
      GaveUp(before, done, plain, after, meaning, smooth);
    } else if r.Ok? {
      assert before + (done + plain) == before + done + plain;
      Complete(before, after, meaning, smooth);
    } else {
      Complete(before, after, meaning, smooth);
    }
  }

  /** After writing `done`, what is left of the bytes accounts for the rest of the meaning. */
  ghost predicate Owed(meaning: Outcome, done: seq<byte>, log: Log, key: Key, h: StreamHeader, aad: seq<byte>,
                       left: seq<byte>, i: u32)
    requires h.chunkSize > 0
  {
    var rest := OpenBody(log, key, h, aad, left, i);
    meaning == Outcome(done + rest.written, rest.result)
  }

  lemma Limits()
    ensures MAX_COUNTER == 0xffff_ffff && TAG_LEN == 16
  {
  }

  lemma OwedAtFirst(log: Log, key: Key, h: StreamHeader, aad: seq<byte>, body: seq<byte>)
    requires h.chunkSize > 0
    ensures Owed(OpenBody(log, key, h, aad, body, 0), [], log, key, h, aad, body, 0)
  {
    hide OpenBody;
  }

  /** The three ways to go on: less than a tag is left, or the last block, or another one follows. */
  lemma TornBlock(meaning: Outcome, done: seq<byte>, log: Log, key: Key, h: StreamHeader, aad: seq<byte>,
                  left: seq<byte>, i: u32)
    requires h.chunkSize > 0 && Owed(meaning, done, log, key, h, aad, left, i)
    requires |left| < TAG_LEN || h.chunkSize + TAG_LEN < |left| < h.chunkSize + TAG_LEN + TAG_LEN
    ensures meaning == Outcome(done, Err(Truncated))
  {
  }

  lemma LastBlock(meaning: Outcome, done: seq<byte>, log: Log, key: Key, h: StreamHeader, aad: seq<byte>,
                  left: seq<byte>, i: u32)
    requires h.chunkSize > 0 && Owed(meaning, done, log, key, h, aad, left, i)
    requires TAG_LEN <= |left| <= h.chunkSize + TAG_LEN
    ensures meaning
      == match Open(log, key, ChunkNonce(h.prefix, i, true), left, aad)
         case None => Outcome(done, Err(Decrypt))
         case Some(plain) => Outcome(done + plain, Ok(()))
  {
  }

  lemma MoreBlocks(meaning: Outcome, done: seq<byte>, log: Log, key: Key, h: StreamHeader, aad: seq<byte>,
                   left: seq<byte>, i: u32)
    requires h.chunkSize > 0 && Owed(meaning, done, log, key, h, aad, left, i)
    requires h.chunkSize + TAG_LEN + TAG_LEN <= |left|
    ensures MAX_COUNTER == 0xffff_ffff && TAG_LEN == 16
    ensures var block := h.chunkSize + TAG_LEN;
      match Open(log, key, ChunkNonce(h.prefix, i, false), left[..block], aad)
      case None => meaning == Outcome(done, Err(Decrypt))
      case Some(plain) =>
        && done + plain <= meaning.written
        && (i == MAX_COUNTER ==> meaning == Outcome(done + plain, Err(Truncated)))
        && (i < MAX_COUNTER ==> Owed(meaning, done + plain, log, key, h, aad, left[block..], i + 1))
  {
    hide Open;
    if i < MAX_COUNTER {
      var rest := OpenBody(log, key, h, aad, left[h.chunkSize + TAG_LEN..], i + 1);
      match Open(log, key, ChunkNonce(h.prefix, i, false), left[..h.chunkSize + TAG_LEN], aad)
      case None =>
      case Some(plain) =>
        assert done + (plain + rest.written) == (done + plain) + rest.written;
    }
  }
}
