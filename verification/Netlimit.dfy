/** `src/netlimit.rs`: the per-address rate limiter with a bounded, lazily purged map. */
module Netlimit {
  import opened Results

  /** An address, and a point in time in any unit. */
  type Ip = nat
  type Instant = nat

  datatype Entry = Entry(count: nat, seen: Instant)

  type Hits = map<Ip, Entry>

  datatype Config = Config(maxPerWindow: u32, window: nat, maxTracked: nat)

  /** `now.duration_since(seen)`, which never goes below zero. */
  function Since(now: Instant, seen: Instant): nat { if now >= seen then now - seen else 0 }

  predicate Live(c: Config, e: Entry, now: Instant) { Since(now, e.seen) <= c.window }

  function Purged(c: Config, hits: Hits, now: Instant): Hits
  {
    map ip | ip in hits && Live(c, hits[ip], now) :: hits[ip]
  }

  /** Counts one query of `ip` against its window, opening a new window if there is none or it expired. */
  function Hit(c: Config, hits: Hits, ip: Ip, now: Instant): (Hits, bool)
  {
    var e := if ip in hits && Live(c, hits[ip], now) then hits[ip] else Entry(0, now);
    if e.count >= c.maxPerWindow then (hits[ip := e], false) else (hits[ip := e.(count := e.count + 1)], true)
  }

  /** `allow_at`: the new map, the answer, and whether it was refused for lack of room. */
  datatype Answer = Answer(hits: Hits, allowed: bool, noRoom: bool)

  function Allow(c: Config, hits: Hits, ip: Ip, now: Instant): Answer
  {
    var kept := if |hits| >= c.maxTracked then Purged(c, hits, now) else hits;
    if |kept| >= c.maxTracked && ip !in kept then Answer(kept, false, true)
    else
      var (after, allowed) := Hit(c, kept, ip, now);
      Answer(after, allowed, false)
  }

  class RateLimiter {
    var hits: Hits
    const config: Config

    constructor (maxPerWindow: u32, window: nat, maxTracked: nat)
      ensures hits == map[] && config == Config(maxPerWindow, window, if maxTracked == 0 then 1 else maxTracked)
      ensures Valid()
    {
      hits := map[];
      config := Config(maxPerWindow, window, if maxTracked == 0 then 1 else maxTracked);
    }

    /** The bound on memory, and a counter that never passes its limit. */
    ghost predicate Valid()
      reads this
    {
      InBounds(config, hits)
    }

    method AllowAt(ip: Ip, now: Instant) returns (allowed: bool)
      requires Valid()
      modifies this
      ensures Valid()
      ensures var a := Allow(config, old(hits), ip, now); hits == a.hits && allowed == a.allowed
      ensures var live := set i | i in old(hits) && Since(now, old(hits)[i].seen) <= config.window;
        && (allowed <==>
             && (ip in live || |live| < config.maxTracked)
             && (if ip in live then old(hits)[ip].count else 0) < config.maxPerWindow)
        && (forall i :: i in live && i != ip ==> i in hits && hits[i] == old(hits)[i])
    {
      AllowKeepsBounds(config, hits, ip, now);
      AllowsWithinQuota(config, hits, ip, now);
      hide InBounds, Hit;
      if |hits| >= config.maxTracked {
        hits := map i | i in hits && Since(now, hits[i].seen) <= config.window :: hits[i];
        assert hits == Purged(config, old(hits), now);
        if |hits| >= config.maxTracked && ip !in hits {
          return false;
        }
      }
      allowed := Count(ip, now);
    }

    /** The entry of `ip`, new or started again if its window expired, and one more query in it. */
    method Count(ip: Ip, now: Instant) returns (allowed: bool)
      modifies this
      ensures (hits, allowed) == Hit(config, old(hits), ip, now)
      ensures
        var current := ip in old(hits) && Since(now, old(hits)[ip].seen) <= config.window;
        var e := if current then old(hits)[ip] else Entry(0, now);
        && (allowed <==> e.count < config.maxPerWindow)
        && hits == old(hits)[ip := Entry(if allowed then e.count + 1 else e.count, e.seen)]
    {
      if ip !in hits {
        hits := hits[ip := Entry(0, now)];
      }
      if Since(now, hits[ip].seen) > config.window {
        hits := hits[ip := Entry(0, now)];
      }
      ghost var e := if ip in old(hits) && Live(config, old(hits)[ip], now) then old(hits)[ip] else Entry(0, now);
      assert hits == old(hits)[ip := e];
      if hits[ip].count >= config.maxPerWindow {
        return false;
      }
      hits := hits[ip := hits[ip].(count := hits[ip].count + 1)];
      assert hits == old(hits)[ip := e.(count := e.count + 1)];
      return true;
    }

    method Tracked() returns (n: nat)
      requires Valid()
      ensures n == |hits| <= config.maxTracked
    {
      n := |hits|;
    }
  }

  ghost predicate InBounds(c: Config, hits: Hits)
  {
    && 1 <= c.maxTracked
    && |hits| <= c.maxTracked
    && forall ip <- hits :: hits[ip].count <= c.maxPerWindow
  }

  lemma PurgedSmaller(c: Config, hits: Hits, now: Instant)
    ensures Purged(c, hits, now).Keys <= hits.Keys
    ensures |Purged(c, hits, now)| <= |hits|
  {
    var p := Purged(c, hits, now);
    SubsetIsNotLarger(p.Keys, hits.Keys);
    assert |p| == |p.Keys| && |hits| == |hits.Keys|;
  }

  lemma {:induction false} SubsetIsNotLarger<T>(a: set<T>, b: set<T>)
    requires a <= b
    ensures |a| <= |b|
  {
    if a != {} {
      var x :| x in a;
      SubsetIsNotLarger(a - {x}, b - {x});
    }
  }

  lemma SizeAfterInsert(hits: Hits, ip: Ip, e: Entry)
    ensures |hits[ip := e]| == if ip in hits then |hits| else |hits| + 1
  {
    var after := hits[ip := e];
    assert after.Keys == hits.Keys + {ip};
    assert |after| == |after.Keys| && |hits| == |hits.Keys|;
  }

  /** The map never exceeds its bound. */
  lemma AllowKeepsBounds(c: Config, hits: Hits, ip: Ip, now: Instant)
    requires InBounds(c, hits)
    ensures InBounds(c, Allow(c, hits, ip, now).hits)
  {
    var kept := if |hits| >= c.maxTracked then Purged(c, hits, now) else hits;
    PurgedSmaller(c, hits, now);
    if !(|kept| >= c.maxTracked && ip !in kept) {
      var e := if ip in kept && Live(c, kept[ip], now) then kept[ip] else Entry(0, now);
      SizeAfterInsert(kept, ip, e);
      SizeAfterInsert(kept, ip, e.(count := e.count + 1));
    }
  }

  /** An address with a live window, or for which there is room, is let through while its quota lasts; the
   *  other live addresses keep their entries.
   */
  lemma AllowsWithinQuota(c: Config, hits: Hits, ip: Ip, now: Instant)
    ensures var live := set i | i in hits && Since(now, hits[i].seen) <= c.window;
      var a := Allow(c, hits, ip, now);
      && (a.allowed <==>
           && (ip in live || |live| < c.maxTracked)
           && (if ip in live then hits[ip].count else 0) < c.maxPerWindow)
      && (forall i :: i in live && i != ip ==> i in a.hits && a.hits[i] == hits[i])
  {
    var live := set i | i in hits && Since(now, hits[i].seen) <= c.window;
    var p := Purged(c, hits, now);
    assert p.Keys == live && |p| == |p.Keys|;
    PurgedSmaller(c, hits, now);
  }

  // ------------------------------------------------------ eviction is invisible

  /** A query: who and when. */
  datatype Query = Query(ip: Ip, now: Instant)

  ghost predicate Nondecreasing(run: seq<Query>, from: Instant)
  {
    && (forall i :: 0 <= i < |run| ==> from <= run[i].now)
    && (forall i, j :: 0 <= i < j < |run| ==> run[i].now <= run[j].now)
  }

  function LiveAddresses(c: Config, hits: Hits, now: Instant): set<Ip>
  {
    set ip | ip in hits && Live(c, hits[ip], now)
  }

  /** The limiter that never evicts: it turns away a newcomer only when as many other addresses as the
   *  bound have live windows, and otherwise just counts.
   */
  function Ideal(c: Config, hits: Hits, ip: Ip, now: Instant): (Hits, bool)
  {
    var live := LiveAddresses(c, hits, now);
    if ip !in live && |live| >= c.maxTracked then (hits, false) else Hit(c, hits, ip, now)
  }

  function Answers(c: Config, hits: Hits, run: seq<Query>): seq<bool>
    decreases |run|
  {
    if run == [] then []
    else
      var a := Allow(c, hits, run[0].ip, run[0].now);
      [a.allowed] + Answers(c, a.hits, run[1..])
  }

  function IdealAnswers(c: Config, hits: Hits, run: seq<Query>): seq<bool>
    decreases |run|
  {
    if run == [] then []
    else
      var (after, allowed) := Ideal(c, hits, run[0].ip, run[0].now);
      [allowed] + IdealAnswers(c, after, run[1..])
  }

  /** The bounded map is the unbounded one, less some addresses whose windows expired. */
  ghost predicate Forgets(c: Config, hits: Hits, all: Hits, now: Instant)
  {
    && (forall ip <- hits :: ip in all && all[ip] == hits[ip])
    && (forall ip <- all :: ip !in hits ==> !Live(c, all[ip], now))
    && (forall ip <- all :: all[ip].seen <= now)
  }

  lemma ForgetsLater(c: Config, hits: Hits, all: Hits, now: Instant, later: Instant)
    requires Forgets(c, hits, all, now) && now <= later
    ensures Forgets(c, hits, all, later)
  {
  }

  /** Whatever was evicted, both see the same live addresses. */
  lemma SameLive(c: Config, hits: Hits, all: Hits, now: Instant)
    requires Forgets(c, hits, all, now)
    ensures LiveAddresses(c, hits, now) == LiveAddresses(c, all, now) == Purged(c, hits, now).Keys
  {
  }

  /** A refusal for lack of room happens exactly when the bound is reached by other live addresses. */
  lemma NoRoomExactly(c: Config, hits: Hits, all: Hits, ip: Ip, now: Instant)
    requires InBounds(c, hits) && Forgets(c, hits, all, now)
    ensures Allow(c, hits, ip, now).noRoom <==>
      ip !in LiveAddresses(c, all, now) && |LiveAddresses(c, all, now)| >= c.maxTracked
  {
    var live := LiveAddresses(c, all, now);
    var p := Purged(c, hits, now);
    SameLive(c, hits, all, now);
    PurgedSmaller(c, hits, now);
    assert |p| == |p.Keys|;
  }

  /** One call: same answer, and the two maps stay related. */
  lemma OneCall(c: Config, hits: Hits, all: Hits, ip: Ip, now: Instant)
    requires InBounds(c, hits) && Forgets(c, hits, all, now)
    ensures var a := Allow(c, hits, ip, now);
      var (after, allowed) := Ideal(c, all, ip, now);
      a.allowed == allowed && Forgets(c, a.hits, after, now)
  {
    NoRoomExactly(c, hits, all, ip, now);
    SameLive(c, hits, all, now);
  }

  /** Along any run with a clock that does not go back, the limiter with eviction answers as the one
   *  without.
   */
  lemma {:induction false} EvictionIsInvisible(c: Config, hits: Hits, all: Hits, from: Instant, run: seq<Query>)
    requires InBounds(c, hits) && Forgets(c, hits, all, from) && Nondecreasing(run, from)
    ensures Answers(c, hits, run) == IdealAnswers(c, all, run)
    decreases |run|
  {
    if run != [] {
      var q := run[0];
      ForgetsLater(c, hits, all, from, q.now);
      OneCall(c, hits, all, q.ip, q.now);
      AllowKeepsBounds(c, hits, q.ip, q.now);
      hide Allow, Ideal, InBounds, Forgets;
      EvictionIsInvisible(c, Allow(c, hits, q.ip, q.now).hits, Ideal(c, all, q.ip, q.now).0, q.now, run[1..]);
    }
  }

  /** From a new limiter on. */
  lemma NewLimiterIsIdeal(c: Config, run: seq<Query>)
    requires 1 <= c.maxTracked && Nondecreasing(run, 0)
    ensures Answers(c, map[], run) == IdealAnswers(c, map[], run)
  {
    EvictionIsInvisible(c, map[], map[], 0, run);
  }

  // --------------------------------------------------- how many get through

  /** An admission: when, and the start of the window it was counted in. */
  datatype Admission = Admission(time: Instant, start: Instant)

  /** The admissions of one address along a run. */
  function Admissions(c: Config, hits: Hits, ip: Ip, run: seq<Query>): seq<Admission>
    decreases |run|
  {
    if run == [] then []
    else
      var a := Allow(c, hits, run[0].ip, run[0].now);
      var rest := Admissions(c, a.hits, ip, run[1..]);
      if run[0].ip == ip && a.allowed && ip in a.hits then [Admission(run[0].now, a.hits[ip].seen)] + rest else rest
  }

  function CountStart(l: seq<Admission>, start: Instant): nat
  {
    if l == [] then 0 else (if l[0].start == start then 1 else 0) + CountStart(l[1..], start)
  }

  /** Admissions from time `t` to time `t + w`. */
  function CountBetween(l: seq<Admission>, t: Instant, w: nat): nat
  {
    if l == [] then 0 else (if t <= l[0].time <= t + w then 1 else 0) + CountBetween(l[1..], t, w)
  }

  /** Each admission lies in its window, windows start more than `window` apart, and none admits more
   *  than its quota.
   */
  ghost predicate WellSpaced(c: Config, l: seq<Admission>)
  {
    && (forall i :: 0 <= i < |l| ==> l[i].start <= l[i].time <= l[i].start + c.window)
    && (forall i, j :: 0 <= i < j < |l| ==> l[i].start == l[j].start || l[i].start + c.window < l[j].start)
    && (forall start :: CountStart(l, start) <= c.maxPerWindow)
  }

  /** The last window of `ip` that was ever opened: still in the map, or evicted after it expired. */
  ghost predicate Remembers(c: Config, hits: Hits, ip: Ip, last: Option<Entry>, now: Instant)
  {
    match last
    case None => ip !in hits
    case Some(e) =>
      && e.seen <= now && e.count <= c.maxPerWindow
      && (if ip in hits then hits[ip] == e else !Live(c, e, now))
  }

  /** All that follows is in that window, within what is left of its quota, or in windows well after it. */
  ghost predicate Continues(c: Config, l: seq<Admission>, last: Option<Entry>, from: Instant)
  {
    && (forall i :: 0 <= i < |l| ==> from <= l[i].time)
    && (last.Some? ==>
         && (forall i :: 0 <= i < |l| ==> l[i].start == last.value.seen || last.value.seen + c.window < l[i].start)
         && CountStart(l, last.value.seen) + last.value.count <= c.maxPerWindow)
  }

  /** The window of `ip` after one query. */
  function LastAfter(c: Config, hits: Hits, ip: Ip, last: Option<Entry>, q: Query): Option<Entry>
  {
    var a := Allow(c, hits, q.ip, q.now);
    if q.ip == ip && !a.noRoom && ip in a.hits then Some(a.hits[ip]) else last
  }

  lemma RemembersAfter(c: Config, hits: Hits, ip: Ip, last: Option<Entry>, q: Query)
    requires InBounds(c, hits) && Remembers(c, hits, ip, last, q.now)
    ensures Remembers(c, Allow(c, hits, q.ip, q.now).hits, ip, LastAfter(c, hits, ip, last, q), q.now)
  {
  }

  /** `e` is the window of an address after a query at `now`: the one it had, or a new one opened now. */
  ghost predicate WindowAfter(c: Config, last: Option<Entry>, e: Entry, now: Instant, allowed: bool)
  {
    var more := if allowed then 1 else 0;
    && e.seen <= now <= e.seen + c.window
    && e.count <= c.maxPerWindow
    && (|| (last.Some? && e.seen == last.value.seen && e.count == last.value.count + more)
        || (e.seen == now && e.count == more && (allowed || c.maxPerWindow == 0)
            && (last.Some? ==> last.value.seen + c.window < now)))
  }

  lemma WindowStep(c: Config, hits: Hits, ip: Ip, last: Option<Entry>, now: Instant)
    requires InBounds(c, hits) && Remembers(c, hits, ip, last, now)
    ensures var a := Allow(c, hits, ip, now);
      if a.noRoom then !a.allowed else ip in a.hits && WindowAfter(c, last, a.hits[ip], now, a.allowed)
  {
  }

  function Prefixed(allowed: bool, time: Instant, start: Instant, rest: seq<Admission>): seq<Admission>
  {
    if allowed then [Admission(time, start)] + rest else rest
  }

  lemma {:induction false} CountStartAbsent(l: seq<Admission>, start: Instant)
    requires forall i :: 0 <= i < |l| ==> l[i].start != start
    ensures CountStart(l, start) == 0
  {
    if l != [] {
      CountStartAbsent(l[1..], start);
    }
  }

  lemma CountStartPrefixed(allowed: bool, time: Instant, start: Instant, rest: seq<Admission>, s: Instant)
    ensures CountStart(Prefixed(allowed, time, start, rest), s) ==
      CountStart(rest, s) + (if allowed && s == start then 1 else 0)
  {
    if allowed {
      assert ([Admission(time, start)] + rest)[1..] == rest;
    }
  }

  /** An admission in the window `e` put in front of others that follow on `e`. */
  lemma PrefixWellSpaced(c: Config, last: Option<Entry>, e: Entry, allowed: bool, now: Instant, rest: seq<Admission>)
    requires WellSpaced(c, rest) && Continues(c, rest, Some(e), now) && WindowAfter(c, last, e, now, allowed)
    ensures WellSpaced(c, Prefixed(allowed, now, e.seen, rest))
  {
    var l := Prefixed(allowed, now, e.seen, rest);
    forall start
      ensures CountStart(l, start) <= c.maxPerWindow
    {
      CountStartPrefixed(allowed, now, e.seen, rest, start);
      assert CountStart(rest, start) <= c.maxPerWindow;
    }
  }

  lemma PrefixContinues(c: Config, last: Option<Entry>, e: Entry, allowed: bool, now: Instant, rest: seq<Admission>,
                        from: Instant)
    requires Continues(c, rest, Some(e), now) && WindowAfter(c, last, e, now, allowed) && from <= now
    requires last.Some? ==> last.value.count <= c.maxPerWindow
    ensures Continues(c, Prefixed(allowed, now, e.seen, rest), last, from)
  {
    if last.Some? {
      var l := Prefixed(allowed, now, e.seen, rest);
      CountStartPrefixed(allowed, now, e.seen, rest, last.value.seen);
      if e.seen != last.value.seen {
        CountStartAbsent(l, last.value.seen);
      }
    }
  }

  lemma ContinuesEarlier(c: Config, l: seq<Admission>, last: Option<Entry>, now: Instant, from: Instant)
    requires Continues(c, l, last, now) && from <= now
    ensures Continues(c, l, last, from)
  {
  }

  /** The step that the two inductions along a run share. */
  lemma OneQuery(c: Config, hits: Hits, ip: Ip, last: Option<Entry>, from: Instant, run: seq<Query>)
    requires InBounds(c, hits) && Remembers(c, hits, ip, last, from) && Nondecreasing(run, from) && run != []
    ensures var q := run[0];
      var a := Allow(c, hits, q.ip, q.now);
      var next := LastAfter(c, hits, ip, last, q);
      var rest := Admissions(c, a.hits, ip, run[1..]);
      var l := Admissions(c, hits, ip, run);
      && InBounds(c, a.hits) && Remembers(c, a.hits, ip, next, q.now) && Nondecreasing(run[1..], q.now)
      && from <= q.now && (last.Some? ==> last.value.count <= c.maxPerWindow)
      && if next == last && l == rest then true
         else
           && next.Some? && WindowAfter(c, last, next.value, q.now, a.allowed)
           && l == Prefixed(a.allowed, q.now, next.value.seen, rest)
  {
    var q := run[0];
    AllowKeepsBounds(c, hits, q.ip, q.now);
    RemembersLater(c, hits, ip, last, from, q.now);
    RemembersAfter(c, hits, ip, last, q);
    if q.ip == ip {
      WindowStep(c, hits, ip, last, q.now);
    }
    hide Allow, InBounds, Remembers, WindowAfter;
  }

  lemma {:induction false} RunIsWellSpaced(c: Config, hits: Hits, ip: Ip, last: Option<Entry>, from: Instant,
                                           run: seq<Query>)
    requires InBounds(c, hits) && Remembers(c, hits, ip, last, from) && Nondecreasing(run, from)
    ensures WellSpaced(c, Admissions(c, hits, ip, run))
    ensures Continues(c, Admissions(c, hits, ip, run), last, from)
    decreases |run|
  {
    if run == [] {
      EmptyIsWellSpaced(c, hits, ip, last, from);
    } else {
      var q := run[0];
      var a := Allow(c, hits, q.ip, q.now);
      var next := LastAfter(c, hits, ip, last, q);
      OneQuery(c, hits, ip, last, from, run);
      hide *;
      RunIsWellSpaced(c, a.hits, ip, next, q.now, run[1..]);
      var rest := Admissions(c, a.hits, ip, run[1..]);
      if next == last && Admissions(c, hits, ip, run) == rest {
        ContinuesEarlier(c, rest, last, q.now, from);
      } else {
        assert next == Some(next.value);
        PrefixWellSpaced(c, last, next.value, a.allowed, q.now, rest);
        PrefixContinues(c, last, next.value, a.allowed, q.now, rest, from);
      }
    }
  }

  lemma EmptyIsWellSpaced(c: Config, hits: Hits, ip: Ip, last: Option<Entry>, from: Instant)
    requires Remembers(c, hits, ip, last, from)
    ensures WellSpaced(c, Admissions(c, hits, ip, []))
    ensures Continues(c, Admissions(c, hits, ip, []), last, from)
  {
  }

  lemma RemembersLater(c: Config, hits: Hits, ip: Ip, last: Option<Entry>, from: Instant, now: Instant)
    requires Remembers(c, hits, ip, last, from) && from <= now
    ensures Remembers(c, hits, ip, last, now)
    ensures last.Some? ==> last.value.count <= c.maxPerWindow
  {
  }

  // ------------------------------------------------- every window is opened by an admission

  ghost predicate HasOpener(l: seq<Admission>, start: Instant)
  {
    exists k :: 0 <= k < |l| && l[k] == Admission(start, start)
  }

  /** Every window but the one already open when the list starts has its opening admission in it. */
  ghost predicate Opened(l: seq<Admission>, last: Option<Entry>)
  {
    forall i :: 0 <= i < |l| ==> (last.Some? && l[i].start == last.value.seen) || HasOpener(l, l[i].start)
  }

  lemma OpenerStays(first: Admission, rest: seq<Admission>, start: Instant)
    requires HasOpener(rest, start)
    ensures HasOpener([first] + rest, start)
  {
    var k :| 0 <= k < |rest| && rest[k] == Admission(start, start);
    assert ([first] + rest)[k + 1] == rest[k];
  }

  lemma PrefixOpened(c: Config, last: Option<Entry>, e: Entry, allowed: bool, now: Instant, rest: seq<Admission>)
    requires Opened(rest, Some(e)) && WindowAfter(c, last, e, now, allowed) && 1 <= c.maxPerWindow
    ensures Opened(Prefixed(allowed, now, e.seen, rest), last)
  {
    var first := Admission(now, e.seen);
    if allowed {
      var l := [first] + rest;
      assert l[0] == first;
      forall i | 0 <= i < |l|
        ensures (last.Some? && l[i].start == last.value.seen) || HasOpener(l, l[i].start)
      {
        if i > 0 && l[i].start != e.seen {
          assert rest[i - 1] == l[i];
          OpenerStays(first, rest, l[i].start);
        }
      }
    }
  }

  lemma {:induction false} RunIsOpened(c: Config, hits: Hits, ip: Ip, last: Option<Entry>, from: Instant,
                                       run: seq<Query>)
    requires InBounds(c, hits) && Remembers(c, hits, ip, last, from) && Nondecreasing(run, from) && 1 <= c.maxPerWindow
    ensures Opened(Admissions(c, hits, ip, run), last)
    decreases |run|
  {
    if run != [] {
      var q := run[0];
      var a := Allow(c, hits, q.ip, q.now);
      var next := LastAfter(c, hits, ip, last, q);
      OneQuery(c, hits, ip, last, from, run);
      hide *;
      RunIsOpened(c, a.hits, ip, next, q.now, run[1..]);
      if !(next == last && Admissions(c, hits, ip, run) == Admissions(c, a.hits, ip, run[1..])) {
        assert next == Some(next.value);
        PrefixOpened(c, last, next.value, a.allowed, q.now, Admissions(c, a.hits, ip, run[1..]));
      }
    }
  }

  // ------------------------------------------------------ at most two quotas, less one

  lemma {:induction false} OneWindow(l: seq<Admission>, t: Instant, w: nat, a: Instant)
    requires forall i :: 0 <= i < |l| && t <= l[i].time <= t + w ==> l[i].start == a
    ensures CountBetween(l, t, w) <= CountStart(l, a)
  {
    if l != [] {
      OneWindow(l[1..], t, w, a);
    }
  }

  lemma {:induction false} TwoWindows(l: seq<Admission>, t: Instant, w: nat, a: Instant, b: Instant)
    requires a != b
    requires forall i :: 0 <= i < |l| && t <= l[i].time <= t + w ==> l[i].start == a || l[i].start == b
    ensures CountBetween(l, t, w) <= CountStart(l, a) + CountStart(l, b)
  {
    if l != [] {
      TwoWindows(l[1..], t, w, a, b);
    }
  }

  /** One less if the opening admission of the first window lies outside the interval. */
  lemma {:induction false} TwoWindowsLessOne(l: seq<Admission>, t: Instant, w: nat, a: Instant, b: Instant, k: nat)
    requires a != b && k < |l| && l[k].start == a && l[k].time < t
    requires forall i :: 0 <= i < |l| && t <= l[i].time <= t + w ==> l[i].start == a || l[i].start == b
    ensures CountBetween(l, t, w) < CountStart(l, a) + CountStart(l, b)
  {
    if k == 0 {
      TwoWindows(l[1..], t, w, a, b);
    } else {
      TwoWindowsLessOne(l[1..], t, w, a, b, k - 1);
    }
  }

  /** The first and the last admission of an interval fix the only two windows it can touch. */
  lemma IntervalTouchesTwo(c: Config, l: seq<Admission>, t: Instant, i: nat, j: nat)
    requires WellSpaced(c, l) && Opened(l, None) && i <= j < |l|
    requires t <= l[i].time && l[j].time <= t + c.window
    requires forall k :: 0 <= k < |l| && t <= l[k].time <= t + c.window ==> i <= k <= j
    ensures CountBetween(l, t, c.window) < 2 * c.maxPerWindow
  {
    var a, b := l[i].start, l[j].start;
    var k :| 0 <= k < |l| && l[k] == Admission(a, a);
    assert CountStart(l, a) <= c.maxPerWindow && CountStart(l, b) <= c.maxPerWindow;
    assert a == b || a + c.window < b;
    OnlyTwo(c, l, t, i, j);
    hide WellSpaced, Opened, CountBetween, CountStart;
    if a == b {
      OneWindow(l, t, c.window, a);
      CountStartSome(l, a, k);
    } else {
      TwoWindowsLessOne(l, t, c.window, a, b, k);
    }
  }

  lemma OnlyTwo(c: Config, l: seq<Admission>, t: Instant, i: nat, j: nat)
    requires WellSpaced(c, l) && i <= j < |l| && t <= l[i].time && l[j].time <= t + c.window
    requires forall k :: 0 <= k < |l| && t <= l[k].time <= t + c.window ==> i <= k <= j
    ensures forall m :: 0 <= m < |l| && t <= l[m].time <= t + c.window ==>
      l[m].start == l[i].start || l[m].start == l[j].start
  {
    hide CountStart;
    forall m | 0 <= m < |l| && t <= l[m].time <= t + c.window
      ensures l[m].start == l[i].start || l[m].start == l[j].start
    {
      if m != i && m != j {
        assert l[i].start == l[m].start || l[i].start + c.window < l[m].start;
        assert l[m].start == l[j].start || l[m].start + c.window < l[j].start;
      }
    }
  }

  lemma {:induction false} CountStartSome(l: seq<Admission>, a: Instant, k: nat)
    requires k < |l| && l[k].start == a
    ensures CountStart(l, a) >= 1
  {
    if k > 0 {
      CountStartSome(l[1..], a, k - 1);
    }
  }

  lemma {:induction false} EmptyInterval(l: seq<Admission>, t: Instant, w: nat)
    requires forall k :: 0 <= k < |l| ==> !(t <= l[k].time <= t + w)
    ensures CountBetween(l, t, w) == 0
  {
    if l != [] {
      EmptyInterval(l[1..], t, w);
    }
  }

  lemma {:induction false} FirstWithin(l: seq<Admission>, t: Instant, w: nat) returns (i: nat)
    ensures i <= |l|
    ensures i < |l| ==> t <= l[i].time <= t + w
    ensures forall k :: 0 <= k < i ==> !(t <= l[k].time <= t + w)
  {
    i := 0;
    while i < |l| && !(t <= l[i].time <= t + w)
      invariant i <= |l|
      invariant forall k :: 0 <= k < i ==> !(t <= l[k].time <= t + w)
    {
      i := i + 1;
    }
  }

  lemma {:induction false} LastWithin(l: seq<Admission>, t: Instant, w: nat, i: nat) returns (j: nat)
    requires i < |l| && t <= l[i].time <= t + w
    ensures i <= j < |l| && t <= l[j].time <= t + w
    ensures forall k :: j < k < |l| ==> !(t <= l[k].time <= t + w)
  {
    j := |l| - 1;
    while !(t <= l[j].time <= t + w)
      invariant i <= j < |l|
      invariant forall k :: j < k < |l| ==> !(t <= l[k].time <= t + w)
      decreases j
    {
      j := j - 1;
    }
  }

  /** No interval as long as a window sees two full quotas. */
  lemma AlmostTwoQuotas(c: Config, l: seq<Admission>, t: Instant)
    requires WellSpaced(c, l) && Opened(l, None) && 1 <= c.maxPerWindow
    ensures CountBetween(l, t, c.window) < 2 * c.maxPerWindow
  {
    var i := FirstWithin(l, t, c.window);
    if i == |l| {
      EmptyInterval(l, t, c.window);
    } else {
      var j := LastWithin(l, t, c.window, i);
      IntervalTouchesTwo(c, l, t, i, j);
    }
  }

  /** From a new limiter on, and through every eviction and reinsertion: the windows of an address start more
   *  than `window` apart and each admits at most its quota; an interval of that length sees fewer than two
   *  quotas, for a window can give out its whole quota only from its opening on.
   */
  lemma AdmissionsAreBounded(c: Config, ip: Ip, run: seq<Query>, t: Instant)
    requires 1 <= c.maxTracked && Nondecreasing(run, 0)
    ensures WellSpaced(c, Admissions(c, map[], ip, run))
    ensures c.maxPerWindow == 0 ==> Admissions(c, map[], ip, run) == []
    ensures c.maxPerWindow > 0 ==> CountBetween(Admissions(c, map[], ip, run), t, c.window) <= 2 * c.maxPerWindow - 1
  {
    var l := Admissions(c, map[], ip, run);
    RunIsWellSpaced(c, map[], ip, None, 0, run);
    if c.maxPerWindow > 0 {
      RunIsOpened(c, map[], ip, None, 0, run);
      AlmostTwoQuotas(c, l, t);
    } else if l != [] {
      CountStartSome(l, l[0].start, 0);
    }
  }

  // -------------------------------------------- when the window slides as documented

  /** One query of the only address tracked, in its live window with some quota left. */
  lemma OneAddressLive(c: Config, ip: Ip, e: Entry, now: Instant)
    requires 1 <= c.maxTracked && Live(c, e, now) && e.count < c.maxPerWindow
    ensures Allow(c, map[ip := e], ip, now) == Answer(map[ip := Entry(e.count + 1, e.seen)], true, false)
  {
    var hits: Hits := map[ip := e];
    hide Live;
    assert Purged(c, hits, now) == hits;
    assert hits[ip := Entry(e.count + 1, e.seen)] == map[ip := Entry(e.count + 1, e.seen)];
    hide Purged;
  }

  /** And after its window expired, whether or not the map is purged first. */
  lemma OneAddressExpired(c: Config, ip: Ip, e: Entry, now: Instant)
    requires 1 <= c.maxTracked && !Live(c, e, now) && 1 <= c.maxPerWindow
    ensures Allow(c, map[ip := e], ip, now) == Answer(map[ip := Entry(1, now)], true, false)
  {
    var hits: Hits := map[ip := e];
    hide Live;
    assert Purged(c, hits, now) == map[];
    assert hits[ip := Entry(1, now)] == map[ip := Entry(1, now)];
    hide Purged;
  }

  /** `n` queries at once. */
  function Burst(ip: Ip, now: Instant, n: nat): (run: seq<Query>)
    ensures |run| == n && forall i :: 0 <= i < n ==> run[i] == Query(ip, now)
  {
    seq(n, _ => Query(ip, now))
  }

  function Within(time: Instant, t: Instant, w: nat): nat { if t <= time <= t + w then 1 else 0 }

  /** A query that is let through adds its admission to the count. */
  lemma CountOne(c: Config, hits: Hits, ip: Ip, now: Instant, rest: seq<Query>, t: Instant, w: nat)
    requires Allow(c, hits, ip, now).allowed && ip in Allow(c, hits, ip, now).hits
    ensures CountBetween(Admissions(c, hits, ip, [Query(ip, now)] + rest), t, w) ==
      Within(now, t, w) + CountBetween(Admissions(c, Allow(c, hits, ip, now).hits, ip, rest), t, w)
  {
    hide Allow;
    var a := Allow(c, hits, ip, now);
    var run := [Query(ip, now)] + rest;
    assert run[1..] == rest;
    var l := Admissions(c, hits, ip, run);
    assert l == [Admission(now, a.hits[ip].seen)] + Admissions(c, a.hits, ip, rest);
    assert l[1..] == Admissions(c, a.hits, ip, rest);
  }

  /** What a run of one address admits in an interval, when its window is `e`. */
  function Counted(c: Config, ip: Ip, e: Entry, run: seq<Query>, t: Instant, w: nat): nat
  {
    CountBetween(Admissions(c, map[ip := e], ip, run), t, w)
  }

  lemma CountedLive(c: Config, ip: Ip, e: Entry, now: Instant, rest: seq<Query>, t: Instant, w: nat)
    requires 1 <= c.maxTracked && Live(c, e, now) && e.count < c.maxPerWindow
    ensures Counted(c, ip, e, [Query(ip, now)] + rest, t, w) ==
      Within(now, t, w) + Counted(c, ip, Entry(e.count + 1, e.seen), rest, t, w)
  {
    OneAddressLive(c, ip, e, now);
    hide Allow, Admissions, Within;
    CountOne(c, map[ip := e], ip, now, rest, t, w);
  }

  lemma CountedExpired(c: Config, ip: Ip, e: Entry, now: Instant, rest: seq<Query>, t: Instant, w: nat)
    requires 1 <= c.maxTracked && !Live(c, e, now) && 1 <= c.maxPerWindow
    ensures Counted(c, ip, e, [Query(ip, now)] + rest, t, w)
      == Within(now, t, w) + Counted(c, ip, Entry(1, now), rest, t, w)
  {
    OneAddressExpired(c, ip, e, now);
    hide Allow, Admissions, Within;
    CountOne(c, map[ip := e], ip, now, rest, t, w);
  }

  lemma CountedFirst(c: Config, ip: Ip, rest: seq<Query>, t: Instant, w: nat)
    requires 1 <= c.maxTracked && 1 <= c.maxPerWindow
    ensures CountBetween(Admissions(c, map[], ip, [Query(ip, 0)] + rest), t, w) ==
      Within(0, t, w) + Counted(c, ip, Entry(1, 0), rest, t, w)
  {
    OpenedFromEmpty(c, ip);
    hide Allow, Admissions, Within;
    CountOne(c, map[], ip, 0, rest, t, w);
  }

  lemma OpenedFromEmpty(c: Config, ip: Ip)
    requires 1 <= c.maxTracked && 1 <= c.maxPerWindow
    ensures Allow(c, map[], ip, 0) == Answer(map[ip := Entry(1, 0)], true, false)
  {
  }

  lemma BurstNext(ip: Ip, now: Instant, n: nat, rest: seq<Query>)
    ensures n > 0 ==> Burst(ip, now, n) + rest == [Query(ip, now)] + (Burst(ip, now, n - 1) + rest)
    ensures n == 0 ==> Burst(ip, now, n) + rest == rest
  {
  }

  /** A burst within what is left of a live window is let through whole. */
  lemma {:induction false} CountedBurst(c: Config, ip: Ip, e: Entry, now: Instant, n: nat, rest: seq<Query>, t: Instant,
                                        w: nat)
    requires 1 <= c.maxTracked && Live(c, e, now) && e.count + n <= c.maxPerWindow
    ensures Counted(c, ip, e, Burst(ip, now, n) + rest, t, w) ==
      (if t <= now <= t + w then n else 0) + Counted(c, ip, Entry(e.count + n, e.seen), rest, t, w)
    decreases n
  {
    hide Counted, Burst;
    BurstNext(ip, now, n, rest);
    if n > 0 {
      CountedLive(c, ip, e, now, Burst(ip, now, n - 1) + rest, t, w);
      CountedBurst(c, ip, Entry(e.count + 1, e.seen), now, n - 1, rest, t, w);
    }
  }

  /** One query to open a window, all the rest of its quota at its end, and a whole quota as soon as it expires. */
  function AroundTheEdge(c: Config, ip: Ip): seq<Query>
    requires 1 <= c.maxPerWindow
  {
    [Query(ip, 0)] + (Burst(ip, c.window, c.maxPerWindow - 1) + NextWindow(c, ip))
  }

  function NextWindow(c: Config, ip: Ip): seq<Query>
    requires 1 <= c.maxPerWindow
  {
    [Query(ip, c.window + 1)] + (Burst(ip, c.window + 1, c.maxPerWindow - 1) + [])
  }

  /** For every quota, window and bound on memory, that run gets two quotas less one through an interval of the
   *  length of a window.
   */
  lemma BoundIsMet(c: Config, ip: Ip)
    requires 1 <= c.maxTracked && 1 <= c.maxPerWindow && 1 <= c.window
    ensures Nondecreasing(AroundTheEdge(c, ip), 0)
    ensures CountBetween(Admissions(c, map[], ip, AroundTheEdge(c, ip)), c.window, c.window) == 2 * c.maxPerWindow - 1
  {
    EdgeInOrder(c, ip);
    EdgeUnfolds(c, ip);
    hide *;
    var m, w := c.maxPerWindow, c.window;
    CountedFirst(c, ip, Burst(ip, w, m - 1) + NextWindow(c, ip), w, w);
    SecondBurst(c, ip);
    CountedNext(c, ip);
  }

  lemma EdgeUnfolds(c: Config, ip: Ip)
    requires 1 <= c.maxPerWindow && 1 <= c.window
    ensures AroundTheEdge(c, ip) == [Query(ip, 0)] + (Burst(ip, c.window, c.maxPerWindow - 1) + NextWindow(c, ip))
    ensures Within(0, c.window, c.window) == 0
  {
  }

  lemma SecondBurst(c: Config, ip: Ip)
    requires 1 <= c.maxTracked && 1 <= c.maxPerWindow
    ensures
      Counted(c, ip, Entry(1, 0), Burst(ip, c.window, c.maxPerWindow - 1) + NextWindow(c, ip), c.window, c.window) ==
      c.maxPerWindow - 1 + Counted(c, ip, Entry(c.maxPerWindow, 0), NextWindow(c, ip), c.window, c.window)
  {
    hide Counted, Burst, NextWindow;
    CountedBurst(c, ip, Entry(1, 0), c.window, c.maxPerWindow - 1, NextWindow(c, ip), c.window, c.window);
  }

  lemma CountedNext(c: Config, ip: Ip)
    requires 1 <= c.maxTracked && 1 <= c.maxPerWindow && 1 <= c.window
    ensures Counted(c, ip, Entry(c.maxPerWindow, 0), NextWindow(c, ip), c.window, c.window) == c.maxPerWindow
  {
    hide Counted, Burst;
    var m, w := c.maxPerWindow, c.window;
    CountedExpired(c, ip, Entry(m, 0), w + 1, Burst(ip, w + 1, m - 1) + [], w, w);
    CountedBurst(c, ip, Entry(1, w + 1), w + 1, m - 1, [], w, w);
    CountedNothing(c, ip, Entry(m, w + 1), w, w);
  }

  lemma CountedNothing(c: Config, ip: Ip, e: Entry, t: Instant, w: nat)
    ensures Counted(c, ip, e, [], t, w) == 0
  {
  }

  lemma EdgeInOrder(c: Config, ip: Ip)
    requires 1 <= c.maxPerWindow
    ensures Nondecreasing(AroundTheEdge(c, ip), 0)
  {
  }

  /** What the documentation promises of a sliding window: no interval of its length sees more than the quota. */
  ghost predicate Slides(c: Config)
  {
    forall run, ip, t :: Nondecreasing(run, 0) ==>
      CountBetween(Admissions(c, map[], ip, run), t, c.window) <= c.maxPerWindow
  }

  /** The promise holds exactly for a quota of at most one, or a window of no length. */
  lemma SlidesExactly(c: Config)
    requires 1 <= c.maxTracked
    ensures Slides(c) <==> c.maxPerWindow <= 1 || c.window == 0
  {
    if c.maxPerWindow > 1 && c.window > 0 {
      BoundIsMet(c, 0);
    } else {
      forall run, ip, t | Nondecreasing(run, 0)
        ensures CountBetween(Admissions(c, map[], ip, run), t, c.window) <= c.maxPerWindow
      {
        AtMostOneQuota(c, ip, run, t);
      }
    }
  }

  lemma AtMostOneQuota(c: Config, ip: Ip, run: seq<Query>, t: Instant)
    requires 1 <= c.maxTracked && Nondecreasing(run, 0) && (c.maxPerWindow <= 1 || c.window == 0)
    ensures CountBetween(Admissions(c, map[], ip, run), t, c.window) <= c.maxPerWindow
  {
    AdmissionsAreBounded(c, ip, run, t);
    hide Admissions;
    if c.window == 0 {
      OneWindow(Admissions(c, map[], ip, run), t, 0, t);
    }
  }
}
