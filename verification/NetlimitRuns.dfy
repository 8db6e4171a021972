/** What the rate limiter promises to each address, told from the queries and the answers alone: when it is
 *  refused, and that other addresses do not matter to it while there is room.
 */
module NetlimitRuns {
  import opened Results
  import opened Netlimit

  /** A query and the answer it got. */
  datatype Asked = Asked(query: Query, allowed: bool)

  function Told(run: seq<Query>, answers: seq<bool>): (past: seq<Asked>)
    requires |run| == |answers|
    ensures |past| == |run|
  {
    seq(|run|, i requires 0 <= i < |run| => Asked(run[i], answers[i]))
  }

  /** The window that the admissions of an address last opened: how many it admitted so far, and when it started. */
  function Window(c: Config, past: seq<Asked>, ip: Ip): Option<Entry>
  {
    if past == [] then None
    else
      var before, a := Window(c, past[..|past| - 1], ip), past[|past| - 1];
      if a.query.ip != ip || !a.allowed then before
      else if before.Some? && a.query.now <= before.value.seen + c.window then
        Some(Entry(before.value.count + 1, before.value.seen))
      else Some(Entry(1, a.query.now))
  }

  /** The address has a window that started at most `window` ago. */
  predicate Current(c: Config, past: seq<Asked>, ip: Ip, now: Instant)
  {
    var w := Window(c, past, ip);
    w.Some? && now <= w.value.seen + c.window
  }

  /** And that window has admitted exactly the quota. */
  predicate Full(c: Config, past: seq<Asked>, ip: Ip, now: Instant)
  {
    Current(c, past, ip, now) && Window(c, past, ip).value.count == c.maxPerWindow
  }

  function Others(c: Config, past: seq<Asked>, ip: Ip, now: Instant): set<Ip>
  {
    set a | a in past && a.query.ip != ip && Current(c, past, a.query.ip, now) :: a.query.ip
  }

  /** As many other addresses as can be tracked have current windows. */
  predicate NoRoom(c: Config, past: seq<Asked>, ip: Ip, now: Instant)
  {
    |Others(c, past, ip, now)| >= c.maxTracked
  }

  // ------------------------------------------------------------ what the map holds

  /** The map holds the windows of the past, and all those that are current. */
  ghost predicate Holds(c: Config, past: seq<Asked>, hits: Hits, now: Instant)
  {
    && (forall ip <- hits :: Window(c, past, ip) == Some(hits[ip]) && hits[ip].seen <= now)
    && (forall ip: Ip :: Current(c, past, ip, now) ==> ip in hits)
  }

  lemma HoldsLater(c: Config, past: seq<Asked>, hits: Hits, now: Instant, later: Instant)
    requires Holds(c, past, hits, now) && now <= later
    ensures Holds(c, past, hits, later)
  {
    hide Window;
  }

  lemma {:induction false} WindowIsAsked(c: Config, past: seq<Asked>, ip: Ip)
    requires Window(c, past, ip).Some?
    ensures exists a :: a in past && a.query.ip == ip
  {
    var a := past[|past| - 1];
    if a.query.ip == ip && a.allowed {
      assert a in past;
    } else {
      WindowIsAsked(c, past[..|past| - 1], ip);
      var b :| b in past[..|past| - 1] && b.query.ip == ip;
      assert b in past;
    }
  }

  /** So the live addresses of the map are those with current windows. */
  lemma LiveIsCurrent(c: Config, past: seq<Asked>, hits: Hits, ip: Ip, now: Instant)
    requires Holds(c, past, hits, now)
    ensures ip in LiveAddresses(c, hits, now) <==> Current(c, past, ip, now)
  {
    hide Window;
  }

  lemma LiveOthers(c: Config, past: seq<Asked>, hits: Hits, ip: Ip, now: Instant)
    requires Holds(c, past, hits, now)
    ensures Others(c, past, ip, now) == LiveAddresses(c, hits, now) - {ip}
  {
    var live := LiveAddresses(c, hits, now);
    hide Window, Holds, LiveAddresses, Current;
    forall j: Ip
      ensures j in Others(c, past, ip, now) <==> j in live && j != ip
    {
      LiveIsCurrent(c, past, hits, j, now);
      if Current(c, past, j, now) {
        CurrentIsSome(c, past, j, now);
        WindowIsAsked(c, past, j);
      }
    }
  }

  lemma CurrentIsSome(c: Config, past: seq<Asked>, ip: Ip, now: Instant)
    requires Current(c, past, ip, now)
    ensures Window(c, past, ip).Some?
  {
    hide Window;
  }

  lemma HoldsForgets(c: Config, past: seq<Asked>, hits: Hits, now: Instant)
    requires Holds(c, past, hits, now)
    ensures Forgets(c, hits, hits, now)
  {
    hide Window;
  }

  /** The map refuses a newcomer for lack of room exactly if the past shows none. */
  lemma NoRoomIsShown(c: Config, past: seq<Asked>, hits: Hits, ip: Ip, now: Instant)
    requires InBounds(c, hits) && Holds(c, past, hits, now)
    ensures Allow(c, hits, ip, now).noRoom <==> NoRoom(c, past, ip, now)
    ensures NoRoom(c, past, ip, now) ==> !Current(c, past, ip, now)
  {
    HoldsForgets(c, past, hits, now);
    NoRoomExactly(c, hits, hits, ip, now);
    LiveOthers(c, past, hits, ip, now);
    LiveIsCurrent(c, past, hits, ip, now);
    LiveAreFew(c, hits, now);
    var live := LiveAddresses(c, hits, now);
    hide Allow, Holds, InBounds, LiveAddresses, Forgets, Others, Current;
    if ip in live {
      assert |live - {ip}| == |live| - 1;
    } else {
      assert live - {ip} == live;
    }
  }

  lemma LiveAreFew(c: Config, hits: Hits, now: Instant)
    requires InBounds(c, hits)
    ensures |LiveAddresses(c, hits, now)| <= c.maxTracked
  {
    SubsetIsNotLarger(LiveAddresses(c, hits, now), hits.Keys);
    assert |hits| == |hits.Keys|;
  }

  lemma WindowNext(c: Config, past: seq<Asked>, a: Asked, ip: Ip)
    ensures var before := Window(c, past, ip);
      Window(c, past + [a], ip) ==
        if a.query.ip != ip || !a.allowed then before
        else if before.Some? && a.query.now <= before.value.seen + c.window then
          Some(Entry(before.value.count + 1, before.value.seen))
        else Some(Entry(1, a.query.now))
  {
    assert (past + [a])[..|past|] == past;
  }

  /** The entry of an address that found room, with this query counted if it may be. */
  function OneMoreIn(c: Config, hits: Hits, ip: Ip, now: Instant): (Entry, bool)
  {
    var e := if ip in hits && Live(c, hits[ip], now) then hits[ip] else Entry(0, now);
    if e.count >= c.maxPerWindow then (e, false) else (e.(count := e.count + 1), true)
  }

  /** What the call leaves in the map. */
  lemma AllowLeaves(c: Config, hits: Hits, ip: Ip, now: Instant)
    ensures var r := Allow(c, hits, ip, now);
      && (forall j: Ip :: j in r.hits && j != ip ==> j in hits && r.hits[j] == hits[j])
      && (forall j: Ip :: j in hits && j != ip && Live(c, hits[j], now) ==> j in r.hits)
      && (r.noRoom ==> !r.allowed && (ip in r.hits ==> ip in hits && r.hits[ip] == hits[ip]))
      && (r.noRoom ==> !(ip in hits && Live(c, hits[ip], now)))
      && (!r.noRoom ==> ip in r.hits && (r.hits[ip], r.allowed) == OneMoreIn(c, hits, ip, now))
  {
  }

  /** One query: the answer, and what the map holds after it. */
  lemma OneQueryShown(c: Config, past: seq<Asked>, hits: Hits, q: Query)
    requires 1 <= c.maxPerWindow && InBounds(c, hits) && Holds(c, past, hits, q.now)
    ensures var r := Allow(c, hits, q.ip, q.now);
      && (r.allowed <==> !NoRoom(c, past, q.ip, q.now) && !Full(c, past, q.ip, q.now))
      && Holds(c, past + [Asked(q, r.allowed)], r.hits, q.now)
  {
    var r := Allow(c, hits, q.ip, q.now);
    var a := Asked(q, r.allowed);
    NoRoomIsShown(c, past, hits, q.ip, q.now);
    AllowLeaves(c, hits, q.ip, q.now);
    WindowNext(c, past, a, q.ip);
    hide Allow, NoRoom, Window;
    forall j: Ip
      ensures j in r.hits ==> Window(c, past + [a], j) == Some(r.hits[j]) && r.hits[j].seen <= q.now
      ensures Current(c, past + [a], j, q.now) ==> j in r.hits
    {
      WindowNext(c, past, a, j);
    }
  }

  // ------------------------------------------------------------ refused exactly when

  lemma {:induction false} OneAnswerEach(c: Config, hits: Hits, run: seq<Query>)
    ensures |Answers(c, hits, run)| == |run|
    decreases |run|
  {
    hide Allow;
    if run != [] {
      OneAnswerEach(c, Allow(c, hits, run[0].ip, run[0].now).hits, run[1..]);
    }
  }

  /** The past before the query number `k` of a run that began after `past`. */
  function Before(c: Config, past: seq<Asked>, hits: Hits, run: seq<Query>, k: nat): seq<Asked>
    requires k <= |run|
  {
    OneAnswerEach(c, hits, run);
    past + Told(run[..k], Answers(c, hits, run)[..k])
  }

  lemma BeforeFirst(c: Config, past: seq<Asked>, hits: Hits, run: seq<Query>)
    ensures Before(c, past, hits, run, 0) == past
  {
  }

  lemma BeforeNext(c: Config, past: seq<Asked>, hits: Hits, run: seq<Query>, k: nat)
    requires 0 < k <= |run|
    ensures var r := Allow(c, hits, run[0].ip, run[0].now);
      Before(c, past, hits, run, k) == Before(c, past + [Asked(run[0], r.allowed)], r.hits, run[1..], k - 1)
  {
    hide Allow;
    var r := Allow(c, hits, run[0].ip, run[0].now);
    OneAnswerEach(c, hits, run);
    OneAnswerEach(c, r.hits, run[1..]);
    var all, rest := Answers(c, hits, run), Answers(c, r.hits, run[1..]);
    assert all == [r.allowed] + rest;
    var x, y := Told(run[..k], all[..k]), Told(run[1..][..k - 1], rest[..k - 1]);
    assert forall i :: 0 < i < k ==> x[i] == y[i - 1];
    assert x == [Asked(run[0], r.allowed)] + y;
  }

  /** The answer to the query number `k` is what the past before it shows. */
  ghost predicate AnswersAsShown(c: Config, past: seq<Asked>, hits: Hits, run: seq<Query>, k: nat)
    requires k < |run| == |Answers(c, hits, run)|
  {
    Answers(c, hits, run)[k] <==>
      && !NoRoom(c, Before(c, past, hits, run, k), run[k].ip, run[k].now)
      && !Full(c, Before(c, past, hits, run, k), run[k].ip, run[k].now)
  }

  lemma {:induction false} EveryAnswerShown(c: Config, past: seq<Asked>, hits: Hits, from: Instant, run: seq<Query>,
                                            k: nat)
    requires 1 <= c.maxPerWindow && InBounds(c, hits) && Holds(c, past, hits, from) && Nondecreasing(run, from)
    requires k < |run|
    ensures |Answers(c, hits, run)| == |run| && AnswersAsShown(c, past, hits, run, k)
    decreases |run|
  {
    hide *;
    var q := run[0];
    var r := Allow(c, hits, q.ip, q.now);
    OneAnswerEach(c, hits, run);
    RestInOrder(run, from);
    HoldsLater(c, past, hits, from, q.now);
    OneQueryShown(c, past, hits, q);
    AllowKeepsBounds(c, hits, q.ip, q.now);
    if k == 0 {
      FirstShown(c, past, hits, run);
    } else {
      EveryAnswerShown(c, past + [Asked(q, r.allowed)], r.hits, q.now, run[1..], k - 1);
      NextShown(c, past, hits, run, k);
    }
  }

  lemma RestInOrder(run: seq<Query>, from: Instant)
    requires run != [] && Nondecreasing(run, from)
    ensures from <= run[0].now && Nondecreasing(run[1..], run[0].now)
  {
  }

  lemma FirstShown(c: Config, past: seq<Asked>, hits: Hits, run: seq<Query>)
    requires run != [] && |Answers(c, hits, run)| == |run|
    requires Allow(c, hits, run[0].ip, run[0].now).allowed <==>
      !NoRoom(c, past, run[0].ip, run[0].now) && !Full(c, past, run[0].ip, run[0].now)
    ensures AnswersAsShown(c, past, hits, run, 0)
  {
    BeforeFirst(c, past, hits, run);
    hide Allow, NoRoom, Full, Before;
  }

  lemma NextShown(c: Config, past: seq<Asked>, hits: Hits, run: seq<Query>, k: nat)
    requires 0 < k < |run| == |Answers(c, hits, run)|
    requires var r := Allow(c, hits, run[0].ip, run[0].now);
      && |Answers(c, r.hits, run[1..])| == |run[1..]|
      && AnswersAsShown(c, past + [Asked(run[0], r.allowed)], r.hits, run[1..], k - 1)
    ensures AnswersAsShown(c, past, hits, run, k)
  {
    BeforeNext(c, past, hits, run, k);
    hide Allow, NoRoom, Full, Before;
    var r := Allow(c, hits, run[0].ip, run[0].now);
    assert Answers(c, hits, run) == [r.allowed] + Answers(c, r.hits, run[1..]);
    assert run[1..][k - 1] == run[k];
  }

  /** A new limiter, any run whose clock does not go back, a quota of at least one: a query is refused if and only if
   *  as many other addresses as can be tracked have current windows, or its own window is current and full. With a
   *  quota of zero everything is refused.
   */
  lemma RefusedExactly(c: Config, run: seq<Query>, k: nat)
    requires 1 <= c.maxTracked && Nondecreasing(run, 0) && k < |run|
    ensures |Answers(c, map[], run)| == |run|
    ensures var answers, q := Answers(c, map[], run), run[k];
      var past := Told(run[..k], answers[..k]);
      if c.maxPerWindow == 0 then !answers[k]
      else !answers[k] <==> NoRoom(c, past, q.ip, q.now) || Full(c, past, q.ip, q.now)
  {
    OneAnswerEach(c, map[], run);
    if c.maxPerWindow == 0 {
      NothingAllowed(c, map[], run, k);
    } else {
      assert Holds(c, [], map[], 0);
      EveryAnswerShown(c, [], map[], 0, run, k);
      assert Before(c, [], map[], run, k) == Told(run[..k], Answers(c, map[], run)[..k]);
    }
  }

  lemma {:induction false} NothingAllowed(c: Config, hits: Hits, run: seq<Query>, k: nat)
    requires c.maxPerWindow == 0 && k < |run|
    ensures |Answers(c, hits, run)| == |run| && !Answers(c, hits, run)[k]
    decreases |run|
  {
    OneAnswerEach(c, hits, run);
    if k > 0 {
      NothingAllowed(c, Allow(c, hits, run[0].ip, run[0].now).hits, run[1..], k - 1);
    }
  }

  // ------------------------------------------------------------ isolation

  /** The queries of one address, and the answers to them. */
  function OnlyOf(ip: Ip, run: seq<Query>): seq<Query>
  {
    if run == [] then [] else (if run[0].ip == ip then [run[0]] else []) + OnlyOf(ip, run[1..])
  }

  function AnswersTo(ip: Ip, run: seq<Query>, answers: seq<bool>): seq<bool>
    requires |run| == |answers|
  {
    if run == [] then []
    else (if run[0].ip == ip then [answers[0]] else []) + AnswersTo(ip, run[1..], answers[1..])
  }

  /** A map of that address alone, which agrees on it as long as its window lives. */
  ghost predicate Alone(c: Config, hits: Hits, own: Hits, ip: Ip, now: Instant)
  {
    && own.Keys <= {ip}
    && (ip in own && Live(c, own[ip], now) <==> ip in hits && Live(c, hits[ip], now))
    && (ip in own && Live(c, own[ip], now) ==> own[ip] == hits[ip])
    && (ip in own ==> own[ip].seen <= now) && (ip in hits ==> hits[ip].seen <= now)
  }

  lemma AloneLater(c: Config, hits: Hits, own: Hits, ip: Ip, now: Instant, later: Instant)
    requires Alone(c, hits, own, ip, now) && now <= later
    ensures Alone(c, hits, own, ip, later)
  {
  }

  lemma AloneStep(c: Config, hits: Hits, own: Hits, ip: Ip, q: Query)
    requires 1 <= c.maxTracked && Alone(c, hits, own, ip, q.now)
    requires q.ip == ip ==> !Allow(c, hits, ip, q.now).noRoom
    ensures var r, s := Allow(c, hits, q.ip, q.now), Allow(c, own, q.ip, q.now);
      if q.ip == ip then r.allowed == s.allowed && Alone(c, r.hits, s.hits, ip, q.now)
      else Alone(c, r.hits, own, ip, q.now)
  {
    AllowLeaves(c, hits, q.ip, q.now);
    if q.ip == ip {
      AllowLeaves(c, own, ip, q.now);
      OwnHasRoom(c, own, ip, q.now);
    }
    hide Allow;
  }

  lemma OwnHasRoom(c: Config, own: Hits, ip: Ip, now: Instant)
    requires 1 <= c.maxTracked && own.Keys <= {ip}
    ensures !Allow(c, own, ip, now).noRoom
  {
    if ip !in own {
      assert own == map[];
      assert Purged(c, own, now) == map[];
    } else {
      var p := Purged(c, own, now);
      if ip !in p {
        assert p.Keys == {};
        assert |p| == |p.Keys|;
      }
    }
  }

  /** Every query of the address finds room. */
  ghost predicate RoomFor(c: Config, past: seq<Asked>, hits: Hits, ip: Ip, run: seq<Query>)
  {
    forall k :: 0 <= k < |run| && run[k].ip == ip ==> !NoRoom(c, Before(c, past, hits, run, k), ip, run[k].now)
  }

  lemma RoomForRest(c: Config, past: seq<Asked>, hits: Hits, ip: Ip, run: seq<Query>)
    requires run != [] && RoomFor(c, past, hits, ip, run)
    ensures var r := Allow(c, hits, run[0].ip, run[0].now);
      RoomFor(c, past + [Asked(run[0], r.allowed)], r.hits, ip, run[1..])
    ensures run[0].ip == ip ==> !NoRoom(c, past, ip, run[0].now)
  {
    var r := Allow(c, hits, run[0].ip, run[0].now);
    hide NoRoom, Before, Allow, Answers;
    BeforeFirst(c, past, hits, run);
    forall k | 0 <= k < |run[1..]| && run[1..][k].ip == ip
      ensures !NoRoom(c, Before(c, past + [Asked(run[0], r.allowed)], r.hits, run[1..], k), ip, run[1..][k].now)
    {
      BeforeNext(c, past, hits, run, k + 1);
      assert run[1..][k] == run[k + 1];
    }
  }

  lemma {:induction false} RunAlone(c: Config, past: seq<Asked>, hits: Hits, own: Hits, ip: Ip, from: Instant,
                                    run: seq<Query>)
    requires 1 <= c.maxPerWindow && InBounds(c, hits) && Holds(c, past, hits, from) && Nondecreasing(run, from)
    requires Alone(c, hits, own, ip, from) && RoomFor(c, past, hits, ip, run)
    ensures |Answers(c, hits, run)| == |run|
    ensures AnswersTo(ip, run, Answers(c, hits, run)) == Answers(c, own, OnlyOf(ip, run))
    decreases |run|
  {
    OneAnswerEach(c, hits, run);
    if run != [] {
      var q := run[0];
      var r, s := Allow(c, hits, q.ip, q.now), Allow(c, own, q.ip, q.now);
      HoldsLater(c, past, hits, from, q.now);
      AloneLater(c, hits, own, ip, from, q.now);
      RoomForRest(c, past, hits, ip, run);
      NoRoomIsShown(c, past, hits, q.ip, q.now);
      AtLeastOne(c, hits);
      AloneStep(c, hits, own, ip, q);
      OneQueryShown(c, past, hits, q);
      AllowKeepsBounds(c, hits, q.ip, q.now);
      assert Nondecreasing(run[1..], q.now);
      hide Allow, Holds, InBounds, Nondecreasing, NoRoom, Full, Alone, RoomFor;
      RunAlone(c, past + [Asked(q, r.allowed)], r.hits, if q.ip == ip then s.hits else own, ip, q.now, run[1..]);
      OneMore(c, hits, own, ip, run);
    }
  }

  lemma AtLeastOne(c: Config, hits: Hits)
    requires InBounds(c, hits)
    ensures 1 <= c.maxTracked
  {
  }

  lemma OneMore(c: Config, hits: Hits, own: Hits, ip: Ip, run: seq<Query>)
    requires run != []
    ensures var q := run[0];
      var r, s := Allow(c, hits, q.ip, q.now), Allow(c, own, q.ip, q.now);
      && |Answers(c, hits, run)| == |run| && |Answers(c, r.hits, run[1..])| == |run[1..]|
      && AnswersTo(ip, run, Answers(c, hits, run))
           == (if q.ip == ip then [r.allowed] else []) + AnswersTo(ip, run[1..], Answers(c, r.hits, run[1..]))
      && Answers(c, own, OnlyOf(ip, run))
           == if q.ip == ip then [s.allowed] + Answers(c, s.hits, OnlyOf(ip, run[1..]))
              else Answers(c, own, OnlyOf(ip, run[1..]))
  {
    hide Allow;
    var q := run[0];
    var r := Allow(c, hits, q.ip, q.now);
    OneAnswerEach(c, hits, run);
    OneAnswerEach(c, r.hits, run[1..]);
    assert Answers(c, hits, run)[1..] == Answers(c, r.hits, run[1..]);
    var rest := OnlyOf(ip, run[1..]);
    assert ([q] + rest)[1..] == rest;
    assert [] + rest == rest;
  }

  /** While an address finds room, the answers to it are those of the run in which nobody else asks. */
  lemma OthersDoNotMatter(c: Config, ip: Ip, run: seq<Query>)
    requires 1 <= c.maxTracked && Nondecreasing(run, 0)
    requires RoomFor(c, [], map[], ip, run)
    ensures |Answers(c, map[], run)| == |run|
    ensures AnswersTo(ip, run, Answers(c, map[], run)) == Answers(c, map[], OnlyOf(ip, run))
  {
    OneAnswerEach(c, map[], run);
    if c.maxPerWindow == 0 {
      NothingEither(c, map[], map[], ip, run);
    } else {
      assert Holds(c, [], map[], 0) && InBounds(c, map[]);
      RunAlone(c, [], map[], map[], ip, 0, run);
    }
  }

  lemma {:induction false} NothingEither(c: Config, hits: Hits, own: Hits, ip: Ip, run: seq<Query>)
    requires c.maxPerWindow == 0
    ensures |Answers(c, hits, run)| == |run|
    ensures AnswersTo(ip, run, Answers(c, hits, run)) == Answers(c, own, OnlyOf(ip, run))
    decreases |run|
  {
    OneAnswerEach(c, hits, run);
    if run != [] {
      var q := run[0];
      var r, s := Allow(c, hits, q.ip, q.now), Allow(c, own, q.ip, q.now);
      assert !r.allowed && !s.allowed;
      hide Allow;
      NothingEither(c, r.hits, if q.ip == ip then s.hits else own, ip, run[1..]);
      OneMore(c, hits, own, ip, run);
    }
  }

  /** Addresses that ask in the run. */
  function Asking(run: seq<Query>): set<Ip> { set q | q in run :: q.ip }

  /** With no more addresses than can be tracked, every address always finds room. */
  lemma FewAddressesHaveRoom(c: Config, ip: Ip, run: seq<Query>)
    requires 1 <= c.maxTracked && |Asking(run)| <= c.maxTracked
    ensures RoomFor(c, [], map[], ip, run)
  {
    OneAnswerEach(c, map[], run);
    var all := Asking(run);
    forall k | 0 <= k < |run| && run[k].ip == ip
      ensures !NoRoom(c, Before(c, [], map[], run, k), ip, run[k].now)
    {
      var past := Before(c, [], map[], run, k);
      var others := Others(c, past, ip, run[k].now);
      assert ip in all by {
        assert run[k] in run;
      }
      forall j | j in others
        ensures j in all - {ip}
      {
        var i :| 0 <= i < |past| && past[i].query.ip == j;
        assert past[i].query == run[i] && run[i] in run;
      }
      SubsetIsNotLarger(others, all - {ip});
    }
  }

  /** A window lasts until `window` after its start, also for a clock that goes back. */
  lemma LiveUntil(c: Config, e: Entry, now: Instant)
    ensures Live(c, e, now) <==> now <= e.seen + c.window
  {
  }
}
