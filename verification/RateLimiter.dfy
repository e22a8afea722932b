/**
 The sliding-window rate limiter (tools/makhor/pkg/middleware/middleware.go, lines 228-304).
 Times are integers in any unit; the limit and the window are the limiter's configuration.
 */
module RateLimiter {
  import opened Common

  const MAX_TRACKED_IPS: nat := 10000

  type Table = map<string, seq<int>>

  // ---------- one request and one cleanup, as functions ----------

  /** The times after the cutoff, in order. */
  function Recent(times: seq<int>, cutoff: int): (r: seq<int>)
    ensures |r| <= |times|
  {
    if times == [] then []
    else
      var init := Recent(times[..|times| - 1], cutoff);
      var last := times[|times| - 1];
      if last > cutoff then init + [last] else init
  }

  function Times(t: Table, ip: string): seq<int> {
    if ip in t then t[ip] else []
  }

  datatype Verdict = Denied | Granted(recorded: bool)

  function Decide(t: Table, ip: string, now: int, limit: int, window: int): Verdict {
    var recent := Recent(Times(t, ip), now - window);
    if |recent| >= limit then Denied
    else Granted(recent != [] || |t| < MAX_TRACKED_IPS)
  }

  function AfterRequest(t: Table, ip: string, now: int, limit: int, window: int): Table {
    var recent := Recent(Times(t, ip), now - window);
    match Decide(t, ip, now, limit, window)
    case Denied => t[ip := recent]
    case Granted(recorded) => if recorded then t[ip := recent + [now]] else t
  }

  function AfterCleanup(t: Table, now: int, window: int): Table {
    map ip | ip in t && Recent(t[ip], now - window) != [] :: Recent(t[ip], now - window)
  }

  // ---------- the limiter ----------

  /** Some time is after the cutoff. */
  lemma {:induction false} RecentAny(times: seq<int>, cutoff: int)
    ensures Recent(times, cutoff) != [] <==> exists t :: t in times && t > cutoff
  {
    if times != [] {
      var init, last := times[..|times| - 1], times[|times| - 1];
      RecentAny(init, cutoff);
      assert times == init + [last];
      assert last in times;
      if t :| t in times && t > cutoff {
        assert t == last || t in init;
      }
      if t :| t in init && t > cutoff {
        assert t in times;
      }
    }
  }

  lemma RecentStep(times: seq<int>, i: nat, cutoff: int)
    requires i < |times|
    ensures Recent(times[..i + 1], cutoff) ==
            if times[i] > cutoff then Recent(times[..i], cutoff) + [times[i]] else Recent(times[..i], cutoff)
  {
    assert times[..i + 1][..i] == times[..i];
  }

  /** Allow's loop: the kept times overwrite the front of the array that is being read. */
  method FilterInPlace(buf: array<int>, cutoff: int) returns (n: nat)
    modifies buf
    ensures n <= buf.Length && buf[..n] == Recent(old(buf[..]), cutoff)
    ensures buf[n..] == old(buf[n..])
  {
    ghost var times := buf[..];
    n := 0;
    for i := 0 to buf.Length
      invariant 0 <= n <= i
      invariant buf[..n] == Recent(times[..i], cutoff)
      invariant forall k :: n <= k < buf.Length ==> buf[k] == times[k]
    {
      RecentStep(times, i, cutoff);
      var t := buf[i];
      if t > cutoff {
        ghost var kept := buf[..n];
        buf[n] := t;
        n := n + 1;
        assert buf[..n] == kept + [t];
      }
    }
    assert times[..buf.Length] == times;
    assert buf[n..] == times[n..];
  }

  /** cleanup's loop: the kept times are appended to a new slice. */
  method FilterCopy(times: seq<int>, cutoff: int) returns (recent: seq<int>)
    ensures recent == Recent(times, cutoff)
  {
    recent := [];
    for i := 0 to |times|
      invariant recent == Recent(times[..i], cutoff)
    {
      RecentStep(times, i, cutoff);
      if times[i] > cutoff {
        recent := recent + [times[i]];
      }
    }
    assert times[..|times|] == times;
  }

  class Limiter {
    const limit: int
    const window: int
    var requests: Table

    constructor (limit: int, window: int)
      ensures this.limit == limit && this.window == window && requests == map[]
    {
      this.limit, this.window, requests := limit, window, map[];
    }

    /** One request of `ip` at time `now`. */
    method Allow(ip: string, now: int) returns (ok: bool)
      modifies this
      ensures requests == AfterRequest(old(requests), ip, now, limit, window)
      ensures ok <==> Decide(old(requests), ip, now, limit, window).Granted?
      ensures ok && (|old(requests)| < MAX_TRACKED_IPS || exists t :: t in Times(old(requests), ip) && t > now - window)
        ==> ip in requests && requests[ip] != [] && requests[ip][|requests[ip]| - 1] == now
    {
      var times := Times(requests, ip);
      var buf := new int[|times|](i requires 0 <= i < |times| => times[i]);
      assert buf[..] == times;
      var n := FilterInPlace(buf, now - window);
      RecentAny(times, now - window);
      var recent := buf[..n];
      if |recent| >= limit {
        requests := requests[ip := recent];
        return false;
      }
      if |recent| == 0 && |requests| >= MAX_TRACKED_IPS {
        return true;
      }
      requests := requests[ip := recent + [now]];
      return true;
    }

    /** One round of the cleanup goroutine. */
    method Cleanup(now: int)
      modifies this
      ensures requests == AfterCleanup(old(requests), now, window)
    {
      ghost var before, cutoff := requests, now - window;
      var rest := requests.Keys;
      while rest != {}
        invariant PartlyClean(requests, before, rest, cutoff)
        decreases rest
      {
        ghost var t := requests;
        var ip :| ip in rest;
        var recent := FilterCopy(requests[ip], now - window);
        CleanOne(t, before, rest, ip, cutoff, recent);
        rest := rest - {ip};
        if |recent| == 0 {
          requests := requests - {ip};
          assert recent == [] && requests == t - {ip};
        } else {
          requests := requests[ip := recent];
          assert recent != [] && requests == t[ip := recent];
        }
      }
      CleanAll(requests, before, now, window);
    }
  }

  /** The ips outside `rest` have been cleaned. */
  ghost predicate PartlyClean(t: Table, before: Table, rest: set<string>, cutoff: int) {
    && rest <= t.Keys
    && (forall ip :: ip in t <==> ip in before && (ip in rest || Recent(before[ip], cutoff) != []))
    && (forall ip :: ip in t ==> t[ip] == if ip in rest then before[ip] else Recent(before[ip], cutoff))
  }

  lemma CleanOne(t: Table, before: Table, rest: set<string>, ip: string, cutoff: int, recent: seq<int>)
    requires ip in rest && PartlyClean(t, before, rest, cutoff) && recent == Recent(t[ip], cutoff)
    ensures recent == [] ==> PartlyClean(t - {ip}, before, rest - {ip}, cutoff)
    ensures recent != [] ==> PartlyClean(t[ip := recent], before, rest - {ip}, cutoff)
  {
    assert t[ip] == before[ip];
  }

  lemma CleanAll(t: Table, before: Table, now: int, window: int)
    requires PartlyClean(t, before, {}, now - window)
    ensures t == AfterCleanup(before, now, window)
  {
  }

  // ---------- laws of the filter ----------

  lemma {:induction false} RecentTwice(times: seq<int>, c: int, d: int)
    requires c <= d
    ensures Recent(Recent(times, c), d) == Recent(times, d)
  {
    if times != [] {
      RecentTwice(times[..|times| - 1], c, d);
      var last := times[|times| - 1];
      if last > c {
        RecentSnoc(Recent(times[..|times| - 1], c), last, d);
      }
    }
  }

  lemma RecentSnoc(times: seq<int>, t: int, c: int)
    ensures Recent(times + [t], c) == if t > c then Recent(times, c) + [t] else Recent(times, c)
  {
    assert (times + [t])[..|times|] == times;
  }

  /** The filter keeps exactly the later times, each as often as it occurs. */
  lemma {:induction false} RecentMeaning(times: seq<int>, c: int, t: int)
    ensures multiset(Recent(times, c))[t] == if t > c then multiset(times)[t] else 0
  {
    if times != [] {
      RecentMeaning(times[..|times| - 1], c, t);
      assert times == times[..|times| - 1] + [times[|times| - 1]];
    }
  }

  /** After a cleanup exactly the ips with a time in the window are left, with the times in the window. */
  lemma CleanupMeaning(t: Table, now: int, window: int, ip: string, at: int)
    ensures var t' := AfterCleanup(t, now, window);
      && (ip in t' <==> exists x :: x in Times(t, ip) && x > now - window)
      && multiset(Times(t', ip))[at] == if at > now - window then multiset(Times(t, ip))[at] else 0
  {
    RecentAny(Times(t, ip), now - window);
    RecentMeaning(Times(t, ip), now - window, at);
  }

  /** After a request its ip has the times in the window, and the new one if it is recorded; no other ip changes. */
  lemma RequestMeaning(t: Table, ip: string, now: int, limit: int, window: int, other: string)
    ensures var t' := AfterRequest(t, ip, now, limit, window);
      match Decide(t, ip, now, limit, window)
      case Denied => Times(t', ip) == Recent(Times(t, ip), now - window)
      case Granted(true) => Times(t', ip) == Recent(Times(t, ip), now - window) + [now]
      case Granted(false) => t' == t
    ensures other != ip ==> Times(AfterRequest(t, ip, now, limit, window), other) == Times(t, other)
  {
  }

  // ---------- whole runs against the full history ----------

  /** `history` records every grant that was stored, for good; `now` is the time of the last event. */
  datatype State = State(table: Table, history: Table, now: int)

  datatype Event = Request(ip: string, at: int) | Cleanup(at: int)

  function Step(s: State, e: Event, limit: int, window: int): State {
    match e
    case Request(ip, at) =>
      State(AfterRequest(s.table, ip, at, limit, window),
            (if Decide(s.table, ip, at, limit, window) == Granted(true)
             then s.history[ip := Times(s.history, ip) + [at]] else s.history),
            at)
    case Cleanup(at) => State(AfterCleanup(s.table, at, window), s.history, at)
  }

  function Run(start: int, events: seq<Event>, limit: int, window: int): State {
    if events == [] then State(map[], map[], start)
    else Step(Run(start, events[..|events| - 1], limit, window), events[|events| - 1], limit, window)
  }

  /** Time does not run backwards. */
  ghost predicate InOrder(start: int, events: seq<Event>) {
    events == [] ||
    (InOrder(start, events[..|events| - 1]) &&
     (if |events| == 1 then start else events[|events| - 2].at) <= events[|events| - 1].at)
  }

  /** The table knows as much as the history about every window from now on. */
  ghost predicate Agree(s: State, ip: string, window: int) {
    && (forall c :: c >= s.now - window ==> Recent(Times(s.table, ip), c) == Recent(Times(s.history, ip), c))
    && (forall k :: 0 <= k < |Times(s.history, ip)| ==> Times(s.history, ip)[k] <= s.now)
  }

  /** The times of one ip are left alone, filtered, or filtered and extended together with the history. */
  predicate Evolved(times: seq<int>, history: seq<int>, times': seq<int>, history': seq<int>, recent: seq<int>, at: int)
  {
    || (times' == times && history' == history)
    || (times' == recent && history' == history)
    || (times' == recent + [at] && history' == history + [at])
  }

  /** What one event does to the times of one ip, in the table and in the history. */
  lemma NewTimes(s: State, e: Event, ip: string, limit: int, window: int)
    ensures var s', recent := Step(s, e, limit, window), Recent(Times(s.table, ip), e.at - window);
      && Evolved(Times(s.table, ip), Times(s.history, ip), Times(s'.table, ip), Times(s'.history, ip), recent, e.at)
      && (|recent| >= limit ==> Times(s'.history, ip) == Times(s.history, ip))
  {
  }

  lemma StepAgrees(s: State, e: Event, ip: string, limit: int, window: int)
    requires Agree(s, ip, window) && s.now <= e.at
    ensures Agree(Step(s, e, limit, window), ip, window)
  {
    var s' := Step(s, e, limit, window);
    var cutoff := e.at - window;
    var times, history := Times(s.table, ip), Times(s.history, ip);
    var times', history' := Times(s'.table, ip), Times(s'.history, ip);
    NewTimes(s, e, ip, limit, window);
    forall c | c >= cutoff ensures Recent(times', c) == Recent(history', c) {
      assert Recent(times, c) == Recent(history, c);
      SameRecent(times, history, times', history', cutoff, e.at, c);
    }
    assert forall k :: 0 <= k < |history'| ==> history'[k] <= e.at;
  }

  lemma SameRecent(times: seq<int>, history: seq<int>, times': seq<int>, history': seq<int>, cutoff: int, at: int,
                   c: int)
    requires c >= cutoff && Recent(times, c) == Recent(history, c)
    requires Evolved(times, history, times', history', Recent(times, cutoff), at)
    ensures Recent(times', c) == Recent(history', c)
  {
    RecentTwice(times, cutoff, c);
    RecentSnoc(Recent(times, cutoff), at, c);
    RecentSnoc(history, at, c);
  }

  // ---------- what the limiter guarantees ----------

  /** How many of the times lie in (x, x + window]. */
  function Count(times: seq<int>, x: int, window: int): nat {
    if times == [] then 0
    else Count(times[..|times| - 1], x, window) + if x < times[|times| - 1] <= x + window then 1 else 0
  }

  lemma CountSnoc(times: seq<int>, t: int, x: int, window: int)
    ensures Count(times + [t], x, window) == Count(times, x, window) + if x < t <= x + window then 1 else 0
  {
    assert (times + [t])[..|times|] == times;
  }

  /** When no time is later than the window's end, the window holds what the filter keeps. */
  lemma {:induction false} CountRecent(times: seq<int>, x: int, window: int)
    requires forall k :: 0 <= k < |times| ==> times[k] <= x + window
    ensures Count(times, x, window) == |Recent(times, x)|
  {
    if times != [] {
      CountRecent(times[..|times| - 1], x, window);
    }
  }

  lemma {:induction false} CountNarrow(times: seq<int>, x: int, window: int, c: int)
    requires x >= c
    ensures Count(times, x, window) <= |Recent(times, c)|
  {
    if times != [] {
      CountNarrow(times[..|times| - 1], x, window, c);
    }
  }

  /** No window of this length holds more recorded grants than the limit. */
  ghost predicate WithinLimit(history: seq<int>, limit: int, window: int) {
    forall x :: Count(history, x, window) <= limit
  }

  lemma StepWithinLimit(s: State, e: Event, ip: string, limit: int, window: int)
    requires Agree(s, ip, window) && s.now <= e.at && WithinLimit(Times(s.history, ip), limit, window)
    ensures WithinLimit(Times(Step(s, e, limit, window).history, ip), limit, window)
  {
    var history, s' := Times(s.history, ip), Step(s, e, limit, window);
    NewTimes(s, e, ip, limit, window);
    if Times(s'.history, ip) != history {
      assert Recent(Times(s.table, ip), e.at - window) == Recent(history, e.at - window);
      assert Times(s'.history, ip) == history + [e.at];
      GrantWithinLimit(history, e.at, limit, window);
    }
  }

  lemma GrantWithinLimit(history: seq<int>, at: int, limit: int, window: int)
    requires WithinLimit(history, limit, window) && |Recent(history, at - window)| < limit
    ensures WithinLimit(history + [at], limit, window)
  {
    forall x ensures Count(history + [at], x, window) <= limit {
      CountSnoc(history, at, x, window);
      if x < at <= x + window {
        CountNarrow(history, x, window, at - window);
      }
    }
  }

  lemma {:induction false} RunAgrees(start: int, events: seq<Event>, ip: string, limit: int, window: int)
    requires InOrder(start, events) && limit >= 0
    ensures var s := Run(start, events, limit, window);
      && Agree(s, ip, window) && WithinLimit(Times(s.history, ip), limit, window)
      && s.now == if events == [] then start else events[|events| - 1].at
  {
    if events != [] {
      var init := events[..|events| - 1];
      RunAgrees(start, init, ip, limit, window);
      StepAgrees(Run(start, init, limit, window), events[|events| - 1], ip, limit, window);
      StepWithinLimit(Run(start, init, limit, window), events[|events| - 1], ip, limit, window);
    }
  }

  /**
   After any run of requests and cleanups a request is denied exactly when at least `limit` of the
   grants ever recorded for its ip lie in the window that ends now; and no window anywhere holds
   more than `limit` of them.
   */
  lemma DeniedIff(start: int, events: seq<Event>, ip: string, now: int, limit: int, window: int)
    requires limit >= 0 && InOrder(start, events + [Request(ip, now)])
    ensures var s := Run(start, events, limit, window);
      && (Decide(s.table, ip, now, limit, window) == Denied <==>
          Count(Times(s.history, ip), now - window, window) >= limit)
      && WithinLimit(Times(s.history, ip), limit, window)
  {
    LastInOrder(start, events, Request(ip, now));
    RunAgrees(start, events, ip, limit, window);
    DeniedNow(Run(start, events, limit, window), ip, now, limit, window);
  }

  lemma LastInOrder(start: int, events: seq<Event>, e: Event)
    requires InOrder(start, events + [e])
    ensures InOrder(start, events) && (if events == [] then start else events[|events| - 1].at) <= e.at
  {
    assert (events + [e])[..|events|] == events;
  }

  lemma DeniedNow(s: State, ip: string, now: int, limit: int, window: int)
    requires limit >= 0 && Agree(s, ip, window) && s.now <= now
    ensures Decide(s.table, ip, now, limit, window) == Denied <==>
              Count(Times(s.history, ip), now - window, window) >= limit
  {
    var history, cutoff := Times(s.history, ip), now - window;
    assert Recent(Times(s.table, ip), cutoff) == Recent(history, cutoff);
    CountRecent(history, cutoff, window);
  }

  // ---------- all grants, recorded or not ----------

  /** The times at which requests of this ip were granted. */
  function Grants(start: int, events: seq<Event>, ip: string, limit: int, window: int): seq<int> {
    if events == [] then []
    else
      var before, e := events[..|events| - 1], events[|events| - 1];
      var granted := Grants(start, before, ip, limit, window);
      if e.Request? && e.ip == ip && Decide(Run(start, before, limit, window).table, ip, e.at, limit, window).Granted?
      then granted + [e.at] else granted
  }

  /** The limiter as it is meant: it remembers every grant, and grants while the window that ends now has room. */
  function Meant(events: seq<Event>, ip: string, limit: int, window: int): seq<int> {
    if events == [] then []
    else
      var e, granted := events[|events| - 1], Meant(events[..|events| - 1], ip, limit, window);
      if e.Request? && e.ip == ip && Count(granted, e.at - window, window) < limit then granted + [e.at] else granted
  }

  /** A request finds the table full and nothing of its ip in the window. */
  ghost predicate Overflows(t: Table, e: Event, window: int) {
    && e.Request? && |t| >= MAX_TRACKED_IPS
    && forall k :: 0 <= k < |Times(t, e.ip)| ==> Times(t, e.ip)[k] <= e.at - window
  }

  /** Some request of this ip overflowed the table. */
  ghost predicate Overflowed(start: int, events: seq<Event>, ip: string, limit: int, window: int) {
    events != [] &&
    var before, e := events[..|events| - 1], events[|events| - 1];
    || Overflowed(start, before, ip, limit, window)
    || (e.Request? && e.ip == ip && Overflows(Run(start, before, limit, window).table, e, window))
  }

  /** A grant goes unrecorded exactly when the request overflows the table, which then stays as it is. */
  lemma UnrecordedIff(t: Table, e: Event, limit: int, window: int)
    requires limit >= 1 && e.Request?
    ensures Decide(t, e.ip, e.at, limit, window) == Granted(false) <==> Overflows(t, e, window)
    ensures Overflows(t, e, window) ==> AfterRequest(t, e.ip, e.at, limit, window) == t
  {
    var times := Times(t, e.ip);
    RecentAny(times, e.at - window);
    if Recent(times, e.at - window) == [] {
      forall k | 0 <= k < |times| ensures times[k] <= e.at - window {
        assert times[k] in times;
      }
    }
  }

  /** The history has every grant of an ip exactly when none of its requests overflowed the table. */
  lemma {:induction false} AllRecordedIff(start: int, events: seq<Event>, ip: string, limit: int, window: int)
    requires limit >= 1
    ensures var history, grants := Times(Run(start, events, limit, window).history, ip),
                                   Grants(start, events, ip, limit, window);
      && |history| <= |grants|
      && (history == grants <==> !Overflowed(start, events, ip, limit, window))
  {
    if events != [] {
      var before, e := events[..|events| - 1], events[|events| - 1];
      var s := Run(start, before, limit, window);
      AllRecordedIff(start, before, ip, limit, window);
      HistoryStep(s, e, ip, limit, window);
      if e.Request? && e.ip == ip {
        UnrecordedIff(s.table, e, limit, window);
        SnocSame(Times(s.history, ip), Grants(start, before, ip, limit, window), e.at);
      }
    }
  }

  lemma HistoryStep(s: State, e: Event, ip: string, limit: int, window: int)
    ensures Times(Step(s, e, limit, window).history, ip) ==
            if e.Request? && e.ip == ip && Decide(s.table, ip, e.at, limit, window) == Granted(true)
            then Times(s.history, ip) + [e.at] else Times(s.history, ip)
  {
  }

  lemma SnocSame(a: seq<int>, b: seq<int>, t: int)
    ensures a + [t] == b + [t] <==> a == b
    ensures |a| <= |b| ==> a != b + [t]
  {
    assert (a + [t])[..|a|] == a && (b + [t])[..|b|] == b;
  }

  lemma GrantedIff(start: int, before: seq<Event>, ip: string, at: int, limit: int, window: int)
    requires limit >= 1 && InOrder(start, before) && (if before == [] then start else before[|before| - 1].at) <= at
    ensures var s := Run(start, before, limit, window);
      Decide(s.table, ip, at, limit, window).Granted? <==> Count(Times(s.history, ip), at - window, window) < limit
  {
    RunAgrees(start, before, ip, limit, window);
    DeniedNow(Run(start, before, limit, window), ip, at, limit, window);
  }

  lemma {:induction false} SameGrants(start: int, events: seq<Event>, ip: string, limit: int, window: int)
    requires limit >= 1 && InOrder(start, events) && !Overflowed(start, events, ip, limit, window)
    ensures Grants(start, events, ip, limit, window) == Meant(events, ip, limit, window)
  {
    if events != [] {
      var before, e := events[..|events| - 1], events[|events| - 1];
      assert InOrder(start, before) && !Overflowed(start, before, ip, limit, window);
      SameGrants(start, before, ip, limit, window);
      AllRecordedIff(start, before, ip, limit, window);
      if e.Request? && e.ip == ip {
        assert before != [] ==> before[|before| - 1] == events[|events| - 2];
        GrantedIff(start, before, ip, e.at, limit, window);
      }
    }
  }

  /**
   As long as no request of an ip overflows the table, the limiter grants exactly what one would that remembers every
   grant, and no window holds more than `limit` of them.
   */
  lemma GrantsAsMeant(start: int, events: seq<Event>, ip: string, limit: int, window: int)
    requires limit >= 1 && InOrder(start, events) && !Overflowed(start, events, ip, limit, window)
    ensures Grants(start, events, ip, limit, window) == Meant(events, ip, limit, window)
    ensures WithinLimit(Grants(start, events, ip, limit, window), limit, window)
  {
    SameGrants(start, events, ip, limit, window);
    AllRecordedIff(start, events, ip, limit, window);
    RunAgrees(start, events, ip, limit, window);
  }

  /** In particular as long as the table has room. */
  lemma {:induction false} RoomNoOverflow(start: int, events: seq<Event>, ip: string, limit: int, window: int)
    requires forall k :: 0 <= k < |events| ==> |Run(start, events[..k], limit, window).table| < MAX_TRACKED_IPS
    ensures !Overflowed(start, events, ip, limit, window)
  {
    if events != [] {
      var before := events[..|events| - 1];
      forall k | 0 <= k < |before| ensures |Run(start, before[..k], limit, window).table| < MAX_TRACKED_IPS {
        assert before[..k] == events[..k];
      }
      RoomNoOverflow(start, before, ip, limit, window);
    }
  }

  /** Bounded memory: few ips, short lists. */
  ghost predicate Small(t: Table, limit: int) {
    |t| <= MAX_TRACKED_IPS && forall ip :: ip in t ==> |t[ip]| <= limit
  }

  lemma StepSmall(s: State, e: Event, limit: int, window: int)
    requires Small(s.table, limit) && limit >= 1
    ensures Small(Step(s, e, limit, window).table, limit)
  {
    var t' := Step(s, e, limit, window).table;
    if e.Cleanup? {
      assert t'.Keys <= s.table.Keys;
      SubsetFull(t'.Keys, s.table.Keys);
      assert |t'| == |t'.Keys| && |s.table| == |s.table.Keys|;
    }
  }

  lemma {:induction false} RunSmall(start: int, events: seq<Event>, limit: int, window: int)
    requires limit >= 1
    ensures Small(Run(start, events, limit, window).table, limit)
  {
    if events != [] {
      RunSmall(start, events[..|events| - 1], limit, window);
      StepSmall(Run(start, events[..|events| - 1], limit, window), events[|events| - 1], limit, window);
    }
  }

  /** Without a positive limit the cap on tracked ips does not hold: every new ip is filed. */
  lemma NoLimitGrows(t: Table, ip: string, now: int, limit: int, window: int)
    requires ip !in t
    ensures |AfterRequest(t, ip, now, limit, window)| == |t| + 1 <==> limit <= 0 || |t| < MAX_TRACKED_IPS
  {
  }
}
