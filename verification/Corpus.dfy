/** `src/lab/corpus.rs`: the hash-chained list of findings. SHA-256 is any function `h` from byte strings
 *  to 32 bytes: nothing is assumed of it, and tampering that goes unseen exhibits two messages it confuses.
 *  A `kind` is the bytes of its string, which are UTF-8.
 */
module Corpus {
  import opened Results
  import opened Utf8

  const ROOT_BYTES: seq<byte> := [0, 0, 0, 0, 0, 0, 0, 0, 0, 0, 0, 0, 0, 0, 0, 0,
    0, 0, 0, 0, 0, 0, 0, 0, 0, 0, 0, 0, 0, 0, 0, 0]

  type Digest = s: seq<byte> | |s| == 32 witness ROOT_BYTES

  type Hash = seq<byte> -> Digest

  const ROOT: Digest := ROOT_BYTES

  datatype Entry = Entry(kind: Text, data: seq<byte>, hash: Digest)

  /** What an entry adds, without its link. */
  datatype Record = Record(kind: Text, data: seq<byte>)

  /** What is hashed: `prev || kind || 0x00 || data`. */
  function Message(prev: Digest, kind: Text, data: seq<byte>): seq<byte>
  {
    prev + kind + [0] + data
  }

  function Link(h: Hash, prev: Digest, kind: Text, data: seq<byte>): Digest
  {
    h(Message(prev, kind, data))
  }

  function HeadOf(entries: seq<Entry>): Digest
  {
    if entries == [] then ROOT else entries[|entries| - 1].hash
  }

  /** The message entry `i` should hash. */
  function MessageAt(entries: seq<Entry>, i: nat): seq<byte>
    requires i < |entries|
  {
    Message(HeadOf(entries[..i]), entries[i].kind, entries[i].data)
  }

  /** Every link recomputes. */
  ghost predicate Chained(h: Hash, entries: seq<Entry>)
  {
    forall i :: 0 <= i < |entries| ==> entries[i].hash == h(MessageAt(entries, i))
  }

  /** The corpus that appending these records to an empty one gives. */
  function Built(h: Hash, records: seq<Record>): seq<Entry>
  {
    if records == [] then []
    else
      var before := Built(h, records[..|records| - 1]);
      var r := records[|records| - 1];
      before + [Entry(r.kind, r.data, Link(h, HeadOf(before), r.kind, r.data))]
  }

  function Records(entries: seq<Entry>): seq<Record>
  {
    seq(|entries|, i requires 0 <= i < |entries| => Record(entries[i].kind, entries[i].data))
  }

  class Corpus {
    var entries: seq<Entry>
    const sha256: Hash

    constructor New(sha256: Hash)
      ensures entries == [] && this.sha256 == sha256
    {
      entries := [];
      this.sha256 := sha256;
    }

    method Append(kind: Text, data: seq<byte>)
      modifies this
      ensures entries == old(entries) + [Entry(kind, data, Link(sha256, HeadOf(old(entries)), kind, data))]
      ensures old(entries) == Built(sha256, Records(old(entries))) ==> entries == Built(sha256, Records(entries))
    {
      var prev := Head();
      var hash := Link(sha256, prev, kind, data);
      entries := entries + [Entry(kind, data, hash)];
      assert Records(entries)[..|entries| - 1] == Records(old(entries));
    }

    method Head() returns (head: Digest)
      ensures head == HeadOf(entries)
    {
      head := if |entries| > 0 then entries[|entries| - 1].hash else ROOT;
    }

    method Verify() returns (ok: bool)
      ensures ok <==> Chained(sha256, entries)
    {
      hide Chained, Message;
      NothingChained(sha256);
      var prev := ROOT;
      for i := 0 to |entries|
        invariant prev == HeadOf(entries[..i])
        invariant Chained(sha256, entries[..i])
      {
        var e := entries[i];
        var expected := Link(sha256, prev, e.kind, e.data);
        assert entries[..i + 1] == entries[..i] + [e];
        ChainedLast(sha256, entries[..i], e);
        if expected != e.hash {
          ChainedOnlyIf(sha256, entries, i + 1);
          return false;
        }
        prev := e.hash;
      }
      assert entries[..|entries|] == entries;
      return true;
    }
  }

  lemma NothingChained(h: Hash)
    ensures Chained(h, [])
  {
  }

  lemma ChainedOnlyIf(h: Hash, entries: seq<Entry>, k: nat)
    requires k <= |entries| && !Chained(h, entries[..k])
    ensures !Chained(h, entries)
  {
    hide *;
    if Chained(h, entries) {
      ChainedPrefix(h, entries, k);
    }
  }

  // -------------------------------------------- appending, and only that, verifies

  lemma {:induction false} BuiltRecords(h: Hash, records: seq<Record>)
    ensures |Built(h, records)| == |records| && Records(Built(h, records)) == records
  {
    if records != [] {
      BuiltRecords(h, records[..|records| - 1]);
      assert records == records[..|records| - 1] + [records[|records| - 1]];
    }
  }

  lemma ChainedPrefix(h: Hash, entries: seq<Entry>, k: nat)
    requires Chained(h, entries) && k <= |entries|
    ensures Chained(h, entries[..k])
  {
    forall i | 0 <= i < k
      ensures entries[..k][i].hash == h(MessageAt(entries[..k], i))
    {
      assert entries[..k][..i] == entries[..i];
      assert entries[i].hash == h(MessageAt(entries, i));
    }
  }

  lemma ChainedLast(h: Hash, before: seq<Entry>, e: Entry)
    ensures Chained(h, before + [e]) <==> Chained(h, before) && e.hash == Link(h, HeadOf(before), e.kind, e.data)
  {
    var entries := before + [e];
    assert entries[..|before|] == before;
    assert forall i {:trigger MessageAt(entries, i)} :: 0 <= i < |before| ==> entries[..i] == before[..i];
    if Chained(h, entries) {
      ChainedPrefix(h, entries, |before|);
      assert entries[|before|].hash == h(MessageAt(entries, |before|));
    }
  }

  /** A corpus verifies exactly when it is what appending its records gives. */
  lemma {:induction false} VerifiesExactlyWhenBuilt(h: Hash, entries: seq<Entry>)
    ensures Chained(h, entries) <==> entries == Built(h, Records(entries))
  {
    if entries != [] {
      var n := |entries| - 1;
      var before := entries[..n];
      var e := entries[n];
      hide *;
      VerifiesExactlyWhenBuilt(h, before);
      ChainedLast(h, before, e);
      assert entries == before + [e];
      BuiltLast(h, before, e);
    }
  }

  lemma BuiltLast(h: Hash, before: seq<Entry>, e: Entry)
    ensures before + [e] == Built(h, Records(before + [e]))
        <==> before == Built(h, Records(before)) && e.hash == Link(h, HeadOf(before), e.kind, e.data)
  {
    var records := Records(before);
    var entries := before + [e];
    assert Records(entries)[..|before|] == records;
    BuiltRecords(h, records);
    hide Link;
    var built := Built(h, records);
    assert Built(h, Records(entries)) == built + [Entry(e.kind, e.data, Link(h, HeadOf(built), e.kind, e.data))];
    assert (built + [Entry(e.kind, e.data, Link(h, HeadOf(built), e.kind, e.data))])[..|before|] == built;
    assert entries[..|before|] == before;
  }

  // -------------------------------------------------------------- tamper evidence

  predicate NoZero(s: seq<byte>) { forall i :: 0 <= i < |s| ==> s[i] != 0 }

  ghost predicate KindsWithoutZero(entries: seq<Entry>)
  {
    forall i :: 0 <= i < |entries| ==> NoZero(entries[i].kind)
  }

  /** Data that no zero byte ends a text in, so that none of it can pass for part of a kind. */
  predicate Clear(data: seq<byte>) { forall j :: 0 <= j < |data| && data[j] == 0 ==> !IsText(data[..j]) }

  /** Every message has one reading: no kind has a zero byte, and no data a text up to a zero byte. */
  ghost predicate Unambiguous(entries: seq<Entry>)
  {
    forall i :: 0 <= i < |entries| ==> NoZero(entries[i].kind) && Clear(entries[i].data)
  }

  /** The separators of the two histories can be told: no kind of either has a zero, or the first is unambiguous. */
  ghost predicate Readable(a: seq<Entry>, b: seq<Entry>)
  {
    Unambiguous(a) || (KindsWithoutZero(a) && KindsWithoutZero(b))
  }

  /** The hash confuses the messages of the entries number `k` from the newest, which differ. */
  ghost predicate ConfusesAt(h: Hash, a: seq<Entry>, b: seq<Entry>, k: nat)
  {
    && 0 < k <= |a| && k <= |b|
    && MessageAt(a, |a| - k) != MessageAt(b, |b| - k)
    && h(MessageAt(a, |a| - k)) == h(MessageAt(b, |b| - k))
  }

  /** Two different messages with one hash, at the same place of two histories counted from their heads. */
  ghost predicate Confuses(h: Hash, a: seq<Entry>, b: seq<Entry>)
  {
    exists k: nat :: ConfusesAt(h, a, b, k)
  }

  /** A message has one reading among those without a zero in the kind, and one at all if its data are clear. */
  lemma MessageInjective(prev: Digest, kind: Text, data: seq<byte>, prev': Digest, kind': Text,
                         data': seq<byte>)
    requires NoZero(kind) && (NoZero(kind') || Clear(data))
    requires Message(prev, kind, data) == Message(prev', kind', data')
    ensures prev == prev' && kind == kind' && data == data'
  {
    var m := Message(prev, kind, data);
    var m' := Message(prev', kind', data');
    assert prev == m[..32] && prev' == m'[..32];
    var rest, rest' := kind + [0] + data, kind' + [0] + data';
    assert rest == m[32..] && rest' == m'[32..];
    Separator(kind, data, kind', data');
  }

  lemma Separator(kind: Text, data: seq<byte>, kind': Text, data': seq<byte>)
    requires NoZero(kind) && (NoZero(kind') || Clear(data)) && kind + [0] + data == kind' + [0] + data'
    ensures kind == kind' && data == data'
  {
    var rest := kind + [0] + data;
    assert rest == kind' + [0] + data';
    assert forall i :: 0 <= i < |kind| ==> rest[i] != 0;
    assert rest[|kind'|] == 0;
    if |kind'| > |kind| {
      var j := |kind'| - |kind| - 1;
      CutAtZero(kind', data');
      assert rest[|kind|] == 0 && kind' == rest[..|kind'|] == kind + [0] + data[..j];
      assert data[j] == rest[|kind'|];
      TextAroundZero(kind, data[..j]);
    } else {
      assert |kind'| == |kind|;
      CutAtZero(kind, data);
      CutAtZero(kind', data');
    }
  }

  lemma CutAtZero(kind: seq<byte>, data: seq<byte>)
    ensures (kind + [0] + data)[..|kind|] == kind && (kind + [0] + data)[|kind| + 1..] == data
  {
  }

  /** The last `k` entries, and those before them. */
  function Newest(a: seq<Entry>, k: nat): seq<Entry>
    requires k <= |a|
  {
    a[|a| - k..]
  }

  function Older(a: seq<Entry>, k: nat): seq<Entry>
    requires k <= |a|
  {
    a[..|a| - k]
  }

  lemma MessageOfPrefix(a: seq<Entry>, m: nat, i: nat)
    requires i < m <= |a|
    ensures MessageAt(a[..m], i) == MessageAt(a, i)
  {
    assert a[..m][..i] == a[..i];
  }

  lemma ConfusesBefore(h: Hash, a: seq<Entry>, b: seq<Entry>)
    requires a != [] && b != [] && Confuses(h, a[..|a| - 1], b[..|b| - 1])
    ensures Confuses(h, a, b)
  {
    var k: nat :| ConfusesAt(h, a[..|a| - 1], b[..|b| - 1], k);
    hide ConfusesAt;
    ConfusesAtBefore(h, a, b, k);
  }

  lemma ConfusesAtBefore(h: Hash, a: seq<Entry>, b: seq<Entry>, k: nat)
    requires a != [] && b != [] && ConfusesAt(h, a[..|a| - 1], b[..|b| - 1], k)
    ensures ConfusesAt(h, a, b, k + 1)
  {
    var m, n := |a| - 1, |b| - 1;
    MessageOfPrefix(a, m, m - k);
    MessageOfPrefix(b, n, n - k);
    hide MessageAt;
  }

  lemma ConfusesLast(h: Hash, a: seq<Entry>, b: seq<Entry>)
    requires a != [] && b != [] && h(MessageAt(a, |a| - 1)) == h(MessageAt(b, |b| - 1))
    ensures MessageAt(a, |a| - 1) == MessageAt(b, |b| - 1) || Confuses(h, a, b)
  {
    hide MessageAt;
    assert MessageAt(a, |a| - 1) == MessageAt(b, |b| - 1) || ConfusesAt(h, a, b, 1);
  }

  lemma SameLast(a: seq<Entry>, b: seq<Entry>)
    requires a != [] && b != [] && Readable(a, b) && MessageAt(a, |a| - 1) == MessageAt(b, |b| - 1)
    ensures HeadOf(a[..|a| - 1]) == HeadOf(b[..|b| - 1])
    ensures a[|a| - 1].kind == b[|b| - 1].kind && a[|a| - 1].data == b[|b| - 1].data
  {
    var e, f := a[|a| - 1], b[|b| - 1];
    hide HeadOf, Message, NoZero;
    MessageInjective(HeadOf(a[..|a| - 1]), e.kind, e.data, HeadOf(b[..|b| - 1]), f.kind, f.data);
  }

  lemma ReadableBefore(a: seq<Entry>, b: seq<Entry>)
    requires Readable(a, b) && a != [] && b != []
    ensures Readable(a[..|a| - 1], b[..|b| - 1])
  {
    hide NoZero;
  }

  lemma Ending(a: seq<Entry>, k: nat)
    requires 0 < k <= |a|
    ensures var m := |a| - 1;
      && Older(a[..m], k - 1) == Older(a, k)
      && Newest(a, k) == Newest(a[..m], k - 1) + [Entry(a[m].kind, a[m].data, HeadOf(a))]
  {
  }

  lemma LastLink(h: Hash, a: seq<Entry>)
    requires Chained(h, a) && a != []
    ensures Chained(h, a[..|a| - 1]) && HeadOf(a) == h(MessageAt(a, |a| - 1))
  {
    ChainedPrefix(h, a, |a| - 1);
    hide MessageAt;
    assert a[|a| - 1].hash == h(MessageAt(a, |a| - 1));
  }

  lemma NoneNewest(a: seq<Entry>, k: nat)
    requires k <= |a|
    ensures k == 0 ==> Newest(a, k) == [] && Older(a, k) == a
    ensures k == |a| ==> Newest(a, k) == a && Older(a, k) == []
  {
  }

  /** The entries with the same message and the same hash are the same. */
  lemma SameNewest(a: seq<Entry>, b: seq<Entry>, k: nat)
    requires 0 < k <= |a| && k <= |b| && HeadOf(a) == HeadOf(b)
    requires a[|a| - 1].kind == b[|b| - 1].kind && a[|a| - 1].data == b[|b| - 1].data
    requires Newest(a[..|a| - 1], k - 1) == Newest(b[..|b| - 1], k - 1)
    requires HeadOf(Older(a[..|a| - 1], k - 1)) == HeadOf(Older(b[..|b| - 1], k - 1))
    ensures Newest(a, k) == Newest(b, k) && HeadOf(Older(a, k)) == HeadOf(Older(b, k))
  {
    hide *;
    Ending(a, k);
    Ending(b, k);
  }

  /** Equal heads, read backwards: as far as both histories go they hold the same entries, or the hash
   *  confuses two of their messages.
   */
  lemma {:induction false} SameEnding(h: Hash, a: seq<Entry>, b: seq<Entry>, k: nat)
    requires Chained(h, a) && Chained(h, b) && HeadOf(a) == HeadOf(b) && Readable(a, b)
    requires k <= |a| && k <= |b|
    ensures (Newest(a, k) == Newest(b, k) && HeadOf(Older(a, k)) == HeadOf(Older(b, k))) || Confuses(h, a, b)
  {
    hide *;
    if k == 0 {
      NoneNewest(a, 0);
      NoneNewest(b, 0);
    } else {
      LastLink(h, a);
      LastLink(h, b);
      ConfusesLast(h, a, b);
      ReadableBefore(a, b);
      if !Confuses(h, a, b) {
        SameLast(a, b);
        SameEnding(h, a[..|a| - 1], b[..|b| - 1], k - 1);
        NotBefore(h, a, b);
        SameNewest(a, b, k);
      }
    }
  }

  lemma NotBefore(h: Hash, a: seq<Entry>, b: seq<Entry>)
    requires a != [] && b != [] && !Confuses(h, a, b)
    ensures !Confuses(h, a[..|a| - 1], b[..|b| - 1])
  {
    hide *;
    if Confuses(h, a[..|a| - 1], b[..|b| - 1]) {
      ConfusesBefore(h, a, b);
    }
  }

  ghost predicate RootReached(entries: seq<Entry>)
  {
    exists i :: 0 <= i < |entries| && entries[i].hash == ROOT
  }

  lemma HeadIsRoot(entries: seq<Entry>, k: nat)
    requires 0 < k <= |entries| && HeadOf(entries[..k]) == ROOT
    ensures RootReached(entries)
  {
    assert entries[k - 1].hash == ROOT;
  }

  lemma RootBefore(a: seq<Entry>, k: nat)
    requires k < |a| && HeadOf(Older(a, k)) == ROOT
    ensures RootReached(a)
  {
    hide HeadOf, RootReached;
    HeadIsRoot(a, |a| - k);
  }

  lemma HeadOfNone()
    ensures HeadOf([]) == ROOT
  {
  }

  /** A head stands for a whole history: two verifying corpora with the same head hold the same entries in
   *  the same order, or the hash confuses two of their messages, or their lengths differ and some entry
   *  hashes to the root.
   */
  lemma HeadCommits(h: Hash, a: seq<Entry>, b: seq<Entry>)
    requires Chained(h, a) && Chained(h, b) && HeadOf(a) == HeadOf(b) && Readable(a, b)
    ensures a == b || Confuses(h, a, b) || (|a| > |b| && RootReached(a)) || (|b| > |a| && RootReached(b))
  {
    hide *;
    var k := if |a| <= |b| then |a| else |b|;
    SameEnding(h, a, b, k);
    NoneNewest(a, k);
    NoneNewest(b, k);
    HeadOfNone();
    if !Confuses(h, a, b) {
      if |a| > |b| {
        RootBefore(a, k);
      }
      if |b| > |a| {
        RootBefore(b, k);
      }
    }
  }

  // --------------------------------------------------------- a zero byte, anywhere

  /** The zero at place `k` of kind, separator and data could be the separator: what is before it is a text. */
  predicate SeparatorAt(e: Entry, k: nat)
  {
    if k < |e.kind| then e.kind[k] == 0
    else |e.kind| < k <= |e.kind| + |e.data| && e.data[k - |e.kind| - 1] == 0 && IsText(e.data[..k - |e.kind| - 1])
  }

  lemma TextBefore(e: Entry, k: nat)
    requires SeparatorAt(e, k)
    ensures k < |e.kind| ==> IsText(e.kind[..k])
    ensures k > |e.kind| ==> IsText(e.kind + [0] + e.data[..k - |e.kind| - 1])
  {
    if k < |e.kind| {
      assert e.kind == e.kind[..k] + [0] + e.kind[k + 1..];
      TextAroundZero(e.kind[..k], e.kind[k + 1..]);
    } else {
      TextAroundZero(e.kind, e.data[..k - |e.kind| - 1]);
    }
  }

  /** Another reading of the same message: the zero at place `k` of it taken for the separator. */
  function Reread(e: Entry, k: nat): (f: Entry)
    requires SeparatorAt(e, k)
    ensures f.hash == e.hash
  {
    TextBefore(e, k);
    if k < |e.kind| then Entry(e.kind[..k], e.kind[k + 1..] + [0] + e.data, e.hash)
    else Entry(e.kind + [0] + e.data[..k - |e.kind| - 1], e.data[k - |e.kind|..], e.hash)
  }

  lemma RereadDiffers(prev: Digest, e: Entry, k: nat)
    requires SeparatorAt(e, k)
    ensures Reread(e, k) != e && Message(prev, Reread(e, k).kind, Reread(e, k).data) == Message(prev, e.kind, e.data)
  {
    hide IsText;
    if k < |e.kind| {
      assert e.kind == e.kind[..k] + [0] + e.kind[k + 1..];
    } else {
      var j := k - |e.kind| - 1;
      assert e.data == e.data[..j] + [0] + e.data[j + 1..];
    }
    assert |Reread(e, k).kind| == k;
  }

  /** The two corpora differ, and hash the same messages to the same hashes. */
  ghost predicate Twin(a: seq<Entry>, b: seq<Entry>)
  {
    && b != a && |b| == |a|
    && forall i :: 0 <= i < |a| ==> b[i].hash == a[i].hash && MessageAt(b, i) == MessageAt(a, i)
  }

  lemma SameHeads(a: seq<Entry>, b: seq<Entry>, j: nat)
    requires j <= |a| == |b| && forall i :: 0 <= i < |a| ==> b[i].hash == a[i].hash
    ensures HeadOf(b[..j]) == HeadOf(a[..j])
  {
  }

  /** A zero byte in a kind, or in data after a text, can be taken for the separator: the corpus has a twin. */
  lemma ZeroIsAmbiguous(a: seq<Entry>, i: nat, k: nat) returns (b: seq<Entry>)
    requires i < |a| && SeparatorAt(a[i], k)
    ensures Twin(a, b)
  {
    b := a[i := Reread(a[i], k)];
    RereadDiffers(ROOT, a[i], k);
    hide Message, Reread, SeparatorAt, HeadOf;
    forall j | 0 <= j < |a|
      ensures b[j].hash == a[j].hash && MessageAt(b, j) == MessageAt(a, j)
    {
      SameHeads(a, b, j);
      RereadDiffers(HeadOf(a[..j]), a[i], k);
    }
    assert b[i] != a[i];
  }

  /** A twin of a verifying corpus verifies under every hash, with the same head and no confusion. */
  lemma TwinVerifies(h: Hash, a: seq<Entry>, b: seq<Entry>)
    requires Chained(h, a) && Twin(a, b)
    ensures Chained(h, b) && HeadOf(b) == HeadOf(a) && !Confuses(h, a, b)
  {
    TwinChained(h, a, b);
    TwinHead(a, b);
    TwinAgrees(h, a, b);
    hide *;
  }

  lemma TwinChained(h: Hash, a: seq<Entry>, b: seq<Entry>)
    requires Chained(h, a) && Twin(a, b)
    ensures Chained(h, b)
  {
    hide MessageAt;
    forall i | 0 <= i < |b|
      ensures b[i].hash == h(MessageAt(b, i))
    {
      assert a[i].hash == h(MessageAt(a, i));
    }
  }

  lemma TwinHead(a: seq<Entry>, b: seq<Entry>)
    requires Twin(a, b)
    ensures HeadOf(b) == HeadOf(a)
  {
    hide MessageAt;
  }

  lemma TwinAgrees(h: Hash, a: seq<Entry>, b: seq<Entry>)
    requires Twin(a, b)
    ensures !Confuses(h, a, b)
  {
    hide MessageAt;
  }

  lemma FindSeparator(a: seq<Entry>) returns (i: nat, k: nat)
    requires !Unambiguous(a)
    ensures i < |a| && SeparatorAt(a[i], k)
  {
    i :| 0 <= i < |a| && !(NoZero(a[i].kind) && Clear(a[i].data));
    if !NoZero(a[i].kind) {
      k :| 0 <= k < |a[i].kind| && a[i].kind[k] == 0;
    } else {
      var j :| 0 <= j < |a[i].data| && a[i].data[j] == 0 && IsText(a[i].data[..j]);
      k := |a[i].kind| + 1 + j;
    }
  }

  /** Nothing of this length and head verifies but `a`, or it exhibits a collision of the hash place by place. */
  ghost predicate Committed(h: Hash, a: seq<Entry>)
  {
    forall b: seq<Entry> :: Chained(h, b) && |b| == |a| && HeadOf(b) == HeadOf(a) ==> b == a || Confuses(h, a, b)
  }

  /** Whatever the hash, length and head commit to a verifying corpus if and only if it is unambiguous. */
  lemma CommittedExactly(h: Hash, a: seq<Entry>)
    requires Chained(h, a)
    ensures Committed(h, a) <==> Unambiguous(a)
  {
    if Unambiguous(a) {
      forall b: seq<Entry> | Chained(h, b) && |b| == |a| && HeadOf(b) == HeadOf(a)
        ensures b == a || Confuses(h, a, b)
      {
        hide Chained, Confuses, Unambiguous, KindsWithoutZero, RootReached, HeadOf;
        HeadCommits(h, a, b);
      }
    } else {
      var i, k := FindSeparator(a);
      var b := ZeroIsAmbiguous(a, i, k);
      TwinVerifies(h, a, b);
      hide Chained, Confuses, Unambiguous, HeadOf, SeparatorAt;
    }
  }

  ghost predicate SameHashes(a: seq<Entry>, b: seq<Entry>)
  {
    |a| == |b| && forall i :: 0 <= i < |a| ==> a[i].hash == b[i].hash
  }

  /** Records changed under the hashes they had do not verify, unless the hash confuses
   *  an old message with the new one. */
  ghost predicate PoisoningSeen(h: Hash, a: seq<Entry>)
  {
    forall b: seq<Entry> :: SameHashes(a, b) && b != a && !Confuses(h, a, b) ==> !Chained(h, b)
  }

  /** So poisoning is seen, whatever is written over the records, if and only if they were unambiguous. */
  lemma PoisoningIsSeen(h: Hash, a: seq<Entry>)
    requires Chained(h, a)
    ensures PoisoningSeen(h, a) <==> Unambiguous(a)
  {
    CommittedExactly(h, a);
    if Unambiguous(a) {
      forall b: seq<Entry> | SameHashes(a, b) && b != a && !Confuses(h, a, b)
        ensures !Chained(h, b)
      {
        SameHeads(a, b, |a|);
        assert a[..|a|] == a && b[..|b|] == b;
        hide Chained, Confuses, Unambiguous, HeadOf;
      }
    } else {
      var i, k := FindSeparator(a);
      var b := ZeroIsAmbiguous(a, i, k);
      TwinVerifies(h, a, b);
      hide Chained, Confuses, Unambiguous, HeadOf, SeparatorAt, MessageAt;
      assert SameHashes(a, b);
    }
  }

  /** `verify` alone does not see that the newest entries are gone. */
  lemma TruncationVerifies(h: Hash, records: seq<Record>, k: nat)
    requires k <= |records|
    ensures |Built(h, records)| == |records| && Chained(h, Built(h, records)[..k])
    ensures Built(h, records)[..k] == Built(h, records[..k])
  {
    var entries := Built(h, records);
    BuiltRecords(h, records);
    hide Built, Chained;
    VerifiesExactlyWhenBuilt(h, entries);
    ChainedPrefix(h, entries, k);
    VerifiesExactlyWhenBuilt(h, entries[..k]);
    assert Records(entries[..k]) == Records(entries)[..k];
  }

  /** What is hashed, byte by byte; and the head of nothing is thirty-two zeros. */
  lemma MessageLayout(prev: Digest, kind: Text, data: seq<byte>)
    ensures var m, k := Message(prev, kind, data), 32 + |kind|;
      |m| == k + 1 + |data| && m[..32] == prev && m[32..k] == kind && m[k] == 0 && m[k + 1..] == data
    ensures HeadOf([]) == seq(32, _ => 0)
  {
    hide IsText;
  }
}
