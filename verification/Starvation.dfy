/** Exactly which regions can starve: endless runs in which a watched and due region is never polled,
    and bounded overtaking for all the others. */
module Starvation {
  import opened ByteStrings
  import opened Catalog
  import opened Sessions
  import opened Scheduler
  import opened PollLoop

  const POLL_TICK_INTERVAL: int := 10 * SECOND

  /** Seven regions served in rotation while target waits: klang-valley leads, and penang either
      follows it or is the one that waits. */
  predicate Rotation(order: seq<Bytes>, target: Bytes) {
    && |order| == 7 && NoDuplicates(order) && target !in order
    && (forall r :: r in order ==> KnownRegion(r)) && KnownRegion(target) && target != KLANG_VALLEY
    && order[0] == KLANG_VALLEY
    && (order[1] == PENANG || target == PENANG)
    && (forall k :: 2 <= k < 7 ==> order[k] != PENANG)
  }

  /** Every poll takes some time, less than a tick. */
  ghost predicate QuickPolls(dur: nat -> int) {
    forall n :: 0 < dur(n) < POLL_TICK_INTERVAL
  }

  function TickTime(start: int, n: nat): int {
    start + n * POLL_TICK_INTERVAL
  }

  /** Whose turn tick n is. */
  function Turn(order: seq<Bytes>, n: nat): Bytes
    requires |order| == 7
  {
    order[n % 7]
  }

  lemma TurnPeriodic(order: seq<Bytes>, n: nat)
    requires |order| == 7
    ensures Turn(order, n + 7) == Turn(order, n)
    ensures Turn(order, n) in order
  {
  }

  lemma TurnDistinct(order: seq<Bytes>, a: nat, b: nat)
    requires |order| == 7 && NoDuplicates(order)
    ensures a < b < a + 7 ==> Turn(order, a) != Turn(order, b)
  {
  }

  lemma TurnOfMember(order: seq<Bytes>, o: Bytes, n: nat) returns (m: nat)
    requires |order| == 7 && o in order && n >= 7
    ensures n - 7 <= m < n && Turn(order, m) == o
  {
    var k :| 0 <= k < 7 && order[k] == o;
    m := n - 1 - (n - 1 - k) % 7;
    assert m % 7 == k;
  }

  lemma PenangFollows(order: seq<Bytes>, target: Bytes, n: nat)
    requires Rotation(order, target) && Turn(order, n) == PENANG
    ensures n > 0 && Turn(order, n - 1) == KLANG_VALLEY
  {
  }

  /** One browser a region, all having just reported. */
  function Watching(regions: set<Bytes>, now: int): View {
    View(map r | r in regions :: Session(r, DEFAULT_POLL_SECONDS, now), map r | r in regions :: 1)
  }

  /** One viewer moves along the rotation; from the eighth tick everything is watched. */
  function WatchedAt(order: seq<Bytes>, target: Bytes, n: nat): set<Bytes>
    requires |order| == 7
  {
    if n < 7 then {Turn(order, n)} else (set r | r in order) + {target}
  }

  function EventAt(order: seq<Bytes>, target: Bytes, dur: nat -> int, start: int, n: nat): Event
    requires |order| == 7
  {
    var t := TickTime(start, n);
    Tick(Watching(WatchedAt(order, target, n), t), t, t + dur(n), Stored)
  }

  function EventsFrom(order: seq<Bytes>, target: Bytes, dur: nat -> int, start: int, k: nat, n: nat): seq<Event>
    requires |order| == 7 && k <= n
    decreases n - k
  {
    if k == n then []
    else [EventAt(order, target, dur, start, k)] + EventsFrom(order, target, dur, start, k + 1, n)
  }

  lemma WatchingIsLive(regions: set<Bytes>, now: int)
    requires (forall r :: r in regions ==> KnownRegion(r)) && now > 0
    ensures ValidView(Watching(regions, now))
    ensures LiveRegions(Watching(regions, now), now) == regions
  {
    var v := Watching(regions, now);
    forall r | r in regions ensures r in LiveRegions(v, now) {
      assert Watches(v, r, now) && v.sessions[r].region == r;
      RegionHasFeeds(r);
    }
  }

  /** All polls so far are at least 60 seconds old. */
  predicate LongAgo(c: Coordinator, start: int) {
    forall r :: r in c.lastPoll ==> c.lastPoll[r] <= start - 2 * UPSTREAM_REFRESH_INTERVAL
  }

  /** After n ticks the last seven polls are those of the last seven ticks, in rotation; what else was
      polled was polled long before the start, and of the target's polls only penang's may exist. */
  ghost predicate Rotated(s: Loop, order: seq<Bytes>, target: Bytes, dur: nat -> int, start: int, n: nat)
    requires |order| == 7
  {
    && !s.stopped
    && (target in s.c.lastPoll ==> target == PENANG)
    && (forall m: nat :: n - 7 <= m < n ==>
          Turn(order, m) in s.c.lastPoll && s.c.lastPoll[Turn(order, m)] == TickTime(start, m) + dur(m))
    && (forall r :: r in s.c.lastPoll ==>
          || s.c.lastPoll[r] <= start - 2 * UPSTREAM_REFRESH_INTERVAL
          || exists m: nat :: n - 7 <= m < n && Turn(order, m) == r)
  }

  /** At tick n the region polled seven ticks ago has waited over 60 seconds, the others less and
      from later on; klang-valley is fresh when it is penang's turn. */
  lemma WindowTimes(s: Loop, order: seq<Bytes>, target: Bytes, dur: nat -> int, start: int, n: nat, m: nat)
    requires Rotation(order, target) && QuickPolls(dur) && n >= 7 && n - 7 < m < n
    requires Rotated(s, order, target, dur, start, n)
    ensures var (x, o, now, last) := (Turn(order, n), Turn(order, m), TickTime(start, n), s.c.lastPoll);
            && x in last && now - last[x] > 2 * UPSTREAM_REFRESH_INTERVAL
            && o in last && last[x] < last[o] && now - last[o] < 2 * UPSTREAM_REFRESH_INTERVAL
            && (x == PENANG && o == KLANG_VALLEY ==> now - last[o] < UPSTREAM_REFRESH_INTERVAL)
  {
    hide *;
    RotationDistinct(order, target);
    PolledAt(s, order, target, dur, start, n, n - 7);
    PolledAt(s, order, target, dur, start, n, m);
    TurnPeriodic(order, n - 7);
    if Turn(order, n) == PENANG && Turn(order, m) == KLANG_VALLEY {
      KlangPrecedesPenang(order, target, n, m);
    }
    TickSpan(start, n - 7, m);
    TickSpan(start, n - 6, n);
    TickSpan(start, m, n);
  }

  /** Ticks are ten seconds apart, so six of them span 60. */
  lemma TickSpan(start: int, a: nat, b: nat)
    requires a < b
    ensures TickTime(start, a + 1) <= TickTime(start, b)
    ensures b - a <= 6 ==> TickTime(start, b) - TickTime(start, a) <= 2 * UPSTREAM_REFRESH_INTERVAL
    ensures b - a >= 6 ==> TickTime(start, b) - TickTime(start, a) >= 2 * UPSTREAM_REFRESH_INTERVAL
    ensures b - a == 1 ==> TickTime(start, b) - TickTime(start, a) < UPSTREAM_REFRESH_INTERVAL
  {
  }

  lemma KlangPrecedesPenang(order: seq<Bytes>, target: Bytes, n: nat, m: nat)
    requires Rotation(order, target) && n >= 7 && n - 7 < m < n
    requires Turn(order, n) == PENANG && Turn(order, m) == KLANG_VALLEY
    ensures m == n - 1
  {
    PenangFollows(order, target, n);
    hide Turn, Rotation;
    assert NoDuplicates(order) by { RotationDistinct(order, target); }
    TurnDistinct(order, m, n - 1);
  }

  lemma RotationDistinct(order: seq<Bytes>, target: Bytes)
    requires Rotation(order, target)
    ensures |order| == 7 && NoDuplicates(order)
  {
  }

  lemma PolledAt(s: Loop, order: seq<Bytes>, target: Bytes, dur: nat -> int, start: int, n: nat, m: nat)
    requires |order| == 7 && QuickPolls(dur) && Rotated(s, order, target, dur, start, n) && n - 7 <= m < n
    ensures Turn(order, m) in s.c.lastPoll
    ensures TickTime(start, m) < s.c.lastPoll[Turn(order, m)] < TickTime(start, m + 1)
  {
    hide Turn;
    assert 0 < dur(m) < POLL_TICK_INTERVAL;
  }

  /** What staleness and rank come to for a watched region. */
  lemma LiveRank(c: Coordinator, v: View, id: Bytes, now: int)
    requires ValidView(v) && id in LiveRegions(v, now)
    ensures Stale(c, v, id, now) <==> id !in c.lastPoll || now - c.lastPoll[id] >= UPSTREAM_REFRESH_INTERVAL
    ensures EffectivePriority(c, v, id, now) ==
            if id == KLANG_VALLEY then 0 else if id == PENANG then 1
            else if id in c.lastPoll && now - c.lastPoll[id] >= 2 * UPSTREAM_REFRESH_INTERVAL then 0 else 2
  {
    LiveIntervalIsFloor(c, v, id, now);
  }

  /** The region polled seven ticks ago is preferred to every other due region. */
  lemma OldestIsFirst(s: Loop, order: seq<Bytes>, target: Bytes, dur: nat -> int, start: int, n: nat, v: View, o: Bytes)
    requires Rotation(order, target) && QuickPolls(dur) && n >= 7
    requires Rotated(s, order, target, dur, start, n)
    requires ValidView(v) && Turn(order, n) in LiveRegions(v, TickTime(start, n))
    requires o in LiveRegions(v, TickTime(start, n)) && (o in order || o == target) && o != Turn(order, n)
    requires Stale(s.c, v, o, TickTime(start, n))
    ensures var now := TickTime(start, n);
            PreferDueRegion(CandidateOf(s.c, v, Turn(order, n), now), CandidateOf(s.c, v, o, now))
  {
    hide EffectivePriority, Stale, LiveRegions, Rotated, Turn, QuickPolls, ValidView;
    var x, now := Turn(order, n), TickTime(start, n);
    LiveRank(s.c, v, x, now);
    LiveRank(s.c, v, o, now);
    PenangWaitsOrServed(order, target);
    TurnPeriodic(order, n);
    if o in order {
      var m := TurnOfMember(order, o, n);
      TurnPeriodic(order, n - 7);
      hide Rotation;
      assert m != n - 7;
      WindowTimes(s, order, target, dur, start, n, m);
    } else {
      WindowTimes(s, order, target, dur, start, n, n - 1);
      assert target in s.c.lastPoll ==> target == PENANG by {
        TargetPolls(s, order, target, dur, start, n);
      }
    }
  }

  lemma TargetPolls(s: Loop, order: seq<Bytes>, target: Bytes, dur: nat -> int, start: int, n: nat)
    requires |order| == 7 && Rotated(s, order, target, dur, start, n)
    ensures target in s.c.lastPoll ==> target == PENANG
  {
  }

  lemma PenangWaitsOrServed(order: seq<Bytes>, target: Bytes)
    requires Rotation(order, target)
    ensures target == PENANG <==> PENANG !in order
    ensures target != KLANG_VALLEY
  {
  }

  /** The tick's choice, at the start while one viewer moves around and ever after. */
  lemma RotationPick(s: Loop, order: seq<Bytes>, target: Bytes, dur: nat -> int, start: int, n: nat)
    requires Rotation(order, target) && QuickPolls(dur) && start > 0
    requires Rotated(s, order, target, dur, start, n)
    ensures var e := EventAt(order, target, dur, start, n);
            ValidView(e.v) && NextDue(s.c, e.v, e.now) == Turn(order, n)
  {
    var now := TickTime(start, n);
    var watched, x := WatchedAt(order, target, n), Turn(order, n);
    var v := Watching(watched, now);
    TurnPeriodic(order, n);
    WatchingIsLive(watched, now);
    hide Watching;
    TurnIsDue(s, order, target, dur, start, n, v);
    var due := DueRegions(s.c, v, now);
    assert x in due;
    forall o | o in due && o != x
      ensures PreferDueRegion(CandidateOf(s.c, v, x, now), CandidateOf(s.c, v, o, now))
    {
      assert n >= 7;
      OldestIsFirst(s, order, target, dur, start, n, v, o);
    }
    ChoiceIsTheFirst(s.c, v, now, x);
  }

  lemma TurnIsDue(s: Loop, order: seq<Bytes>, target: Bytes, dur: nat -> int, start: int, n: nat, v: View)
    requires Rotation(order, target) && QuickPolls(dur)
    requires Rotated(s, order, target, dur, start, n)
    requires ValidView(v) && Turn(order, n) in LiveRegions(v, TickTime(start, n))
    ensures Stale(s.c, v, Turn(order, n), TickTime(start, n))
  {
    hide Stale, LiveRegions, Turn, QuickPolls, Rotation, ValidView, EffectivePriority, Rotated;
    RotationDistinct(order, target);
    LiveRank(s.c, v, Turn(order, n), TickTime(start, n));
    if n >= 7 {
      WindowTimes(s, order, target, dur, start, n, n - 1);
    } else if Turn(order, n) in s.c.lastPoll {
      EarlyTurn(s, order, target, dur, start, n);
    }
  }

  /** In the first seven ticks a region is met whose last poll, if any, is from long before. */
  lemma EarlyTurn(s: Loop, order: seq<Bytes>, target: Bytes, dur: nat -> int, start: int, n: nat)
    requires |order| == 7 && NoDuplicates(order) && Rotated(s, order, target, dur, start, n) && n < 7
    requires Turn(order, n) in s.c.lastPoll
    ensures s.c.lastPoll[Turn(order, n)] <= start - 2 * UPSTREAM_REFRESH_INTERVAL
  {
    hide Turn;
    if s.c.lastPoll[Turn(order, n)] > start - 2 * UPSTREAM_REFRESH_INTERVAL {
      var m: nat :| n - 7 <= m < n && Turn(order, m) == Turn(order, n);
      TurnDistinct(order, m, n);
    }
  }

  lemma RotatedNext(s: Loop, next: Loop, order: seq<Bytes>, target: Bytes, dur: nat -> int, start: int, n: nat)
    requires |order| == 7 && NoDuplicates(order) && target !in order && Rotated(s, order, target, dur, start, n)
    requires !next.stopped && next.c.lastPoll == s.c.lastPoll[Turn(order, n) := TickTime(start, n) + dur(n)]
    ensures Rotated(next, order, target, dur, start, n + 1)
  {
    RotatedTimes(s, next, order, target, dur, start, n);
    RotatedRest(s, next, order, target, dur, start, n);
  }

  lemma RotatedTimes(s: Loop, next: Loop, order: seq<Bytes>, target: Bytes, dur: nat -> int, start: int, n: nat)
    requires |order| == 7 && NoDuplicates(order) && Rotated(s, order, target, dur, start, n)
    requires next.c.lastPoll == s.c.lastPoll[Turn(order, n) := TickTime(start, n) + dur(n)]
    ensures forall m: nat :: n - 6 <= m < n + 1 ==>
      Turn(order, m) in next.c.lastPoll && next.c.lastPoll[Turn(order, m)] == TickTime(start, m) + dur(m)
  {
    hide Turn, NoDuplicates, TickTime;
    forall m: nat | n - 6 <= m < n
      ensures Turn(order, m) != Turn(order, n)
    {
      TurnDistinct(order, m, n);
    }
  }

  lemma RotatedRest(s: Loop, next: Loop, order: seq<Bytes>, target: Bytes, dur: nat -> int, start: int, n: nat)
    requires |order| == 7 && Rotated(s, order, target, dur, start, n)
    requires next.c.lastPoll == s.c.lastPoll[Turn(order, n) := TickTime(start, n) + dur(n)]
    ensures forall r :: r in next.c.lastPoll ==>
      || next.c.lastPoll[r] <= start - 2 * UPSTREAM_REFRESH_INTERVAL
      || exists m: nat :: n - 6 <= m < n + 1 && Turn(order, m) == r
  {
    if n >= 7 {
      TurnPeriodic(order, n - 7);
    }
    hide Turn, TickTime;
    forall r | r in next.c.lastPoll && next.c.lastPoll[r] > start - 2 * UPSTREAM_REFRESH_INTERVAL
      ensures exists m: nat :: n - 6 <= m < n + 1 && Turn(order, m) == r
    {
      if r != Turn(order, n) {
        var m: nat :| n - 7 <= m < n && Turn(order, m) == r;
        assert m != n - 7;
      }
    }
  }

  lemma TickPlan(s: Loop, e: Event, id: Bytes)
    requires e.Tick? && !s.stopped && id == NextDue(s.c, e.v, e.now) && KnownRegion(id)
    ensures PlanOf(s, e).Fetch? && PlanOf(s, e).region == id
  {
    RegionHasFeeds(id);
    hide NextDue, FeedsForRegion;
  }

  lemma StoredTick(s: Loop, e: Event, id: Bytes)
    requires e.Tick? && e.outcome.Stored? && !s.stopped
    requires id == NextDue(s.c, e.v, e.now) && KnownRegion(id)
    ensures CompletesNow(s, e) && CompletionOf(s, e).region == id && CompletionOf(s, e).scheduled
    ensures Step(s, e).c.lastPoll == s.c.lastPoll[id := e.done] && !Step(s, e).stopped
  {
    hide NextDue, PlanOf, Marked;
    TickPlan(s, e, id);
    StepEffect(s, e);
  }

  /** The event of tick n, and what makes its region pollable. */
  lemma EventShape(s: Loop, order: seq<Bytes>, target: Bytes, dur: nat -> int, start: int, n: nat)
    requires Rotation(order, target) && QuickPolls(dur) && Rotated(s, order, target, dur, start, n)
    ensures var e := EventAt(order, target, dur, start, n);
            && e.Tick? && e.outcome.Stored? && e.now == TickTime(start, n) && e.done == e.now + dur(n)
            && e.now < e.done < TickTime(start, n + 1)
    ensures KnownRegion(Turn(order, n)) && NoDuplicates(order) && target !in order && !s.stopped
  {
  }

  /** One tick of the rotation. */
  lemma RotationTick(s: Loop, order: seq<Bytes>, target: Bytes, dur: nat -> int, start: int, n: nat)
    requires Rotation(order, target) && QuickPolls(dur) && start > 0
    requires Rotated(s, order, target, dur, start, n)
    ensures var e := EventAt(order, target, dur, start, n);
            && ValidView(e.v) && CompletesNow(s, e)
            && CompletionOf(s, e).region == Turn(order, n) && CompletionOf(s, e).scheduled
            && Rotated(Step(s, e), order, target, dur, start, n + 1)
  {
    var e := EventAt(order, target, dur, start, n);
    hide *;
    EventShape(s, order, target, dur, start, n);
    RotationPick(s, order, target, dur, start, n);
    StoredTick(s, e, Turn(order, n));
    RotatedNext(s, Step(s, e), order, target, dur, start, n);
  }

  lemma TraceCons(s: Loop, clock: int, e: Event, rest: seq<Event>)
    requires CompletesNow(s, e) && ValidView(e.v) && clock <= e.now <= e.done && Timed(e.done, rest)
    ensures Trace(s, [e] + rest) == [CompletionOf(s, e)] + Trace(Step(s, e), rest)
    ensures Timed(clock, [e] + rest)
  {
    hide CompletesNow, CompletionOf, Step, ValidView;
    assert ([e] + rest)[1..] == rest;
  }

  ghost predicate PollsInTurn(s: Loop, es: seq<Event>, order: seq<Bytes>, k: nat)
    requires |order| == 7
  {
    && |Trace(s, es)| == |es|
    && forall i :: 0 <= i < |es| ==> Trace(s, es)[i].region == Turn(order, k + i) && Trace(s, es)[i].scheduled
  }

  lemma InTurnCons(s: Loop, e: Event, rest: seq<Event>, order: seq<Bytes>, k: nat)
    requires |order| == 7 && CompletionOf(s, e).region == Turn(order, k) && CompletionOf(s, e).scheduled
    requires Trace(s, [e] + rest) == [CompletionOf(s, e)] + Trace(Step(s, e), rest)
    requires PollsInTurn(Step(s, e), rest, order, k + 1)
    ensures PollsInTurn(s, [e] + rest, order, k)
  {
    hide CompletionOf, Step, Turn, Trace;
    var t := Trace(Step(s, e), rest);
    forall i | 0 <= i < |rest| + 1
      ensures Trace(s, [e] + rest)[i].region == Turn(order, k + i) && Trace(s, [e] + rest)[i].scheduled
    {
      if i > 0 {
        assert Trace(s, [e] + rest)[i] == t[i - 1];
        assert t[i - 1].region == Turn(order, k + 1 + (i - 1)) && t[i - 1].scheduled;
      }
    }
  }

  /** Every tick of the run polls the region whose turn it is. */
  lemma {:induction false} RotationRuns(s: Loop, order: seq<Bytes>, target: Bytes, dur: nat -> int, start: int, k: nat, n: nat)
    requires Rotation(order, target) && QuickPolls(dur) && start > 0 && k <= n
    requires Rotated(s, order, target, dur, start, k)
    ensures var es := EventsFrom(order, target, dur, start, k, n);
            |es| == n - k && Timed(TickTime(start, k), es) && PollsInTurn(s, es, order, k)
    decreases n - k
  {
    if k < n {
      var e := EventAt(order, target, dur, start, k);
      var rest := EventsFrom(order, target, dur, start, k + 1, n);
      assert EventsFrom(order, target, dur, start, k, n) == [e] + rest;
      hide *;
      EventShape(s, order, target, dur, start, k);
      RotationTick(s, order, target, dur, start, k);
      RotationRuns(Step(s, e), order, target, dur, start, k + 1, n);
      LaterClock(e.done, TickTime(start, k + 1), rest);
      TraceCons(s, TickTime(start, k), e, rest);
      InTurnCons(s, e, rest, order, k);
    }
  }

  lemma LaterClock(early: int, late: int, es: seq<Event>)
    requires early <= late && Timed(late, es)
    ensures Timed(early, es)
  {
  }

  lemma {:induction false} EventsIndex(order: seq<Bytes>, target: Bytes, dur: nat -> int, start: int, k: nat, n: nat, i: nat)
    requires |order| == 7 && k <= n && i < n - k
    ensures |EventsFrom(order, target, dur, start, k, n)| == n - k
    ensures EventsFrom(order, target, dur, start, k, n)[i] == EventAt(order, target, dur, start, k + i)
    decreases n - k
  {
    if k + 1 < n {
      EventsIndex(order, target, dur, start, k + 1, n, if i > 0 then i - 1 else 0);
    }
  }

  // ------------------------------------------------------------ endless runs

  function Prefix(run: nat -> Event, n: nat): seq<Event> {
    seq(n, i requires 0 <= i < n => run(i))
  }

  /** Scheduled polls complete without end, target is watched at every tick from the eighth event on,
      and it is never polled. */
  ghost predicate PassedOver(s: Loop, run: nat -> Event, target: Bytes, start: int) {
    && (forall n: nat :: Timed(start, Prefix(run, n)) && Absent(Trace(s, Prefix(run, n)), target))
    && (forall k: nat :: 7 <= k && run(k).Tick? ==> target in LiveRegions(run(k).v, run(k).now))
    && (forall m: nat :: Reaches(s, run, m))
  }

  /** Some prefix of the run has m completed scheduled polls. */
  ghost predicate Reaches(s: Loop, run: nat -> Event, m: nat) {
    exists n: nat :: |ScheduledRegions(Trace(s, Prefix(run, n)))| >= m
  }

  ghost predicate CanStarve(s: Loop, target: Bytes, start: int) {
    exists run: nat -> Event :: PassedOver(s, run, target, start)
  }

  lemma {:induction false} AllScheduled(trace: seq<Completion>)
    requires forall i :: 0 <= i < |trace| ==> trace[i].scheduled
    ensures |ScheduledRegions(trace)| == |trace|
  {
    if |trace| > 0 {
      AllScheduled(trace[1..]);
    }
  }

  /** From any state whose polls are long past, for ever: every tick polls a region of the rotation and,
      from the eighth on, target is watched but is not the one polled. */
  lemma StarvesForever(s: Loop, order: seq<Bytes>, target: Bytes, dur: nat -> int, start: int, n: nat)
    requires Rotation(order, target) && QuickPolls(dur) && start > 0
    requires !s.stopped && LongAgo(s.c, start) && (target in s.c.lastPoll ==> target == PENANG)
    ensures var es := EventsFrom(order, target, dur, start, 0, n);
            && |es| == n && Timed(start, es) && |Trace(s, es)| == n && Absent(Trace(s, es), target)
            && |ScheduledRegions(Trace(s, es))| == n
            && forall k :: 7 <= k < n ==> target in LiveRegions(es[k].v, es[k].now)
  {
    var es := EventsFrom(order, target, dur, start, 0, n);
    assert TickTime(start, 0) == start;
    assert Rotated(s, order, target, dur, start, 0);
    RotationRuns(s, order, target, dur, start, 0, n);
    hide Trace, Timed, QuickPolls, EventsFrom, LiveRegions, Turn, Rotated, ScheduledRegions, LongAgo;
    AllScheduled(Trace(s, es));
    forall i: nat | i < n ensures Turn(order, i) != target {
      TurnPeriodic(order, i);
    }
    forall k | 7 <= k < n
      ensures target in LiveRegions(es[k].v, es[k].now)
    {
      TargetWatched(order, target, dur, start, n, k);
    }
  }

  lemma WatchedLater(order: seq<Bytes>, target: Bytes, dur: nat -> int, start: int, k: nat)
    requires Rotation(order, target) && start > 0 && 7 <= k
    ensures var e := EventAt(order, target, dur, start, k); target in LiveRegions(e.v, e.now)
  {
    WatchingIsLive(WatchedAt(order, target, k), TickTime(start, k));
  }

  lemma TargetWatched(order: seq<Bytes>, target: Bytes, dur: nat -> int, start: int, n: nat, k: nat)
    requires Rotation(order, target) && start > 0 && 7 <= k < n
    ensures |EventsFrom(order, target, dur, start, 0, n)| == n
    ensures var e := EventsFrom(order, target, dur, start, 0, n)[k]; target in LiveRegions(e.v, e.now)
  {
    hide *;
    RotationDistinct(order, target);
    EventsIndex(order, target, dur, start, 0, n, k);
    WatchedLater(order, target, dur, start, k);
  }

  lemma PrefixIs(order: seq<Bytes>, target: Bytes, dur: nat -> int, start: int, run: nat -> Event, n: nat)
    requires |order| == 7 && forall i: nat :: run(i) == EventAt(order, target, dur, start, i)
    ensures Prefix(run, n) == EventsFrom(order, target, dur, start, 0, n)
  {
    hide EventAt;
    if n > 0 {
      EventsIndex(order, target, dur, start, 0, n, 0);
    }
    forall i | 0 <= i < n
      ensures i < |EventsFrom(order, target, dur, start, 0, n)|
      ensures Prefix(run, n)[i] == EventsFrom(order, target, dur, start, 0, n)[i]
    {
      EventsIndex(order, target, dur, start, 0, n, i);
    }
  }

  /** Every poll takes one nanosecond. */
  function Briefly(): nat -> int {
    _ => 1
  }

  /** The run of a rotation. */
  function RotationRun(order: seq<Bytes>, target: Bytes, start: int): nat -> Event
    requires |order| == 7
  {
    (n: nat) => EventAt(order, target, Briefly(), start, n)
  }

  lemma RunPrefix(s: Loop, order: seq<Bytes>, target: Bytes, start: int, n: nat)
    requires Rotation(order, target) && start > 0
    requires !s.stopped && LongAgo(s.c, start) && (target in s.c.lastPoll ==> target == PENANG)
    ensures var es := Prefix(RotationRun(order, target, start), n);
            Timed(start, es) && Absent(Trace(s, es), target) && |ScheduledRegions(Trace(s, es))| == n
    ensures var e := RotationRun(order, target, start)(n);
            7 <= n ==> target in LiveRegions(e.v, e.now)
  {
    assert |order| == 7 && QuickPolls(Briefly());
    hide EventAt, Briefly, QuickPolls, Rotation, LongAgo, Timed, Absent, Trace, ScheduledRegions, LiveRegions, Prefix;
    PrefixIs(order, target, Briefly(), start, RotationRun(order, target, start), n);
    StarvesForever(s, order, target, Briefly(), start, n);
    if 7 <= n {
      WatchedLater(order, target, Briefly(), start, n);
    }
  }

  lemma RotationStarves(s: Loop, order: seq<Bytes>, target: Bytes, start: int)
    requires Rotation(order, target) && start > 0
    requires !s.stopped && LongAgo(s.c, start) && (target in s.c.lastPoll ==> target == PENANG)
    ensures CanStarve(s, target, start)
  {
    assert |order| == 7;
    var run := RotationRun(order, target, start);
    hide Timed, Absent, Trace, ScheduledRegions, LiveRegions, Rotation, Prefix, RotationRun, LongAgo;
    forall n: nat
      ensures Timed(start, Prefix(run, n)) && Absent(Trace(s, Prefix(run, n)), target)
      ensures |ScheduledRegions(Trace(s, Prefix(run, n)))| == n
      ensures 7 <= n ==> target in LiveRegions(run(n).v, run(n).now)
    {
      RunPrefix(s, order, target, start, n);
    }
    forall m: nat ensures Reaches(s, run, m) {
      assert |ScheduledRegions(Trace(s, Prefix(run, m)))| >= m;
    }
    assert PassedOver(s, run, target, start);
  }

  // ----------------------------------------------------- who can starve

  function Catalogue(): seq<Bytes> {
    [KLANG_VALLEY, PENANG, "central", "east-coast", "johor", "national", "northern", "sarawak"]
  }

  lemma CatalogueIsAll(target: Bytes)
    ensures NoDuplicates(Catalogue()) && |Catalogue()| == 8
    ensures KnownRegion(target) <==> target in Catalogue()
  {
  }

  /** Every region but klang-valley can be the one left out of a rotation. */
  lemma RotationWithout(target: Bytes) returns (order: seq<Bytes>)
    requires KnownRegion(target) && target != KLANG_VALLEY
    ensures Rotation(order, target)
  {
    CatalogueIsAll(target);
    var all := Catalogue();
    assert all[0] == KLANG_VALLEY && all[1] == PENANG;
    forall r | r in all ensures KnownRegion(r) {
      CatalogueIsAll(r);
    }
    hide Catalogue, KnownRegion;
    var i :| 0 <= i < 8 && all[i] == target;
    order := all[..i] + all[i + 1..];
    assert forall k :: 0 <= k < 7 ==> order[k] == all[if k < i then k else k + 1];
  }

  lemma {:induction false} TraceSplit(s: Loop, a: seq<Event>, b: seq<Event>)
    ensures Trace(s, a + b) == Trace(s, a) + Trace(RunLoop(s, a), b)
    decreases a
  {
    hide Step, CompletesNow, CompletionOf;
    if |a| == 0 {
      assert a + b == b;
    } else {
      assert (a + b)[1..] == a[1..] + b;
      TraceSplit(Step(s, a[0]), a[1..], b);
    }
  }

  lemma {:induction false} ScheduledSplit(a: seq<Completion>, b: seq<Completion>)
    ensures ScheduledRegions(a + b) == ScheduledRegions(a) + ScheduledRegions(b)
    ensures |ScheduledRegions(a)| <= |a|
  {
    if |a| == 0 {
      assert a + b == b;
    } else {
      assert (a + b)[1..] == a[1..] + b;
      ScheduledSplit(a[1..], b);
    }
  }

  lemma {:induction false} TraceShort(s: Loop, es: seq<Event>)
    ensures |Trace(s, es)| <= |es|
    decreases es
  {
    hide Step, CompletesNow, CompletionOf;
    if |es| > 0 {
      TraceShort(Step(s, es[0]), es[1..]);
    }
  }

  function Clock(start: int, es: seq<Event>): int {
    if |es| == 0 then start else es[|es| - 1].done
  }

  lemma {:induction false} TimedSplit(start: int, a: seq<Event>, b: seq<Event>)
    requires Timed(start, a + b)
    ensures start <= Clock(start, a) && Timed(Clock(start, a), b)
    decreases a
  {
    hide ValidView;
    if |a| == 0 {
      assert a + b == b;
    } else {
      assert (a + b)[1..] == a[1..] + b;
      TimedSplit((a + b)[0].done, a[1..], b);
    }
  }

  /** A region that is not polled keeps its last poll. */
  lemma {:induction false} UnpolledStays(s: Loop, es: seq<Event>, region: Bytes)
    requires Absent(Trace(s, es), region)
    ensures var (c, d) := (s.c, RunLoop(s, es).c);
            (region in c.lastPoll <==> region in d.lastPoll)
            && (region in c.lastPoll ==> c.lastPoll[region] == d.lastPoll[region])
    decreases es
  {
    if |es| > 0 {
      AbsentSplits(s, es, region);
      StepEffect(s, es[0]);
      hide Step, CompletesNow, PlanOf, Trace, Absent;
      UnpolledStays(Step(s, es[0]), es[1..], region);
    }
  }

  lemma EligibleLater(c: Coordinator, d: Coordinator, region: Bytes, now: int, later: int)
    requires Eligible(c, region, now) && now <= later
    requires region in c.lastPoll <==> region in d.lastPoll
    requires region in c.lastPoll ==> c.lastPoll[region] == d.lastPoll[region]
    ensures Eligible(d, region, later)
  {
  }

  lemma AbsentParts(a: seq<Completion>, b: seq<Completion>, region: Bytes)
    requires Absent(a + b, region)
    ensures Absent(a, region) && Absent(b, region)
  {
    assert forall i :: 0 <= i < |a| ==> a[i] == (a + b)[i];
    assert forall i :: 0 <= i < |b| ==> b[i] == (a + b)[|a| + i];
  }

  /** A region eligible at the start is polled once it is watched from the eighth event on and fifteen
      scheduled polls complete. */
  lemma EligibleIsServed(s: Loop, es: seq<Event>, target: Bytes, start: int)
    requires Timed(start, es) && Eligible(s.c, target, start) && KnownRegion(target) && |es| >= 7
    requires LiveThroughout(es[7..], target)
    requires |ScheduledRegions(Trace(s, es))| >= 15
    ensures !Absent(Trace(s, es), target)
  {
    var a, b := es[..7], es[7..];
    var mid := RunLoop(s, a);
    assert es == a + b;
    TraceSplit(s, a, b);
    hide Trace, RunLoop, Timed, Eligible, LiveThroughout, KnownRegion, ScheduledRegions, Absent;
    if Absent(Trace(s, es), target) {
      AbsentParts(Trace(s, a), Trace(mid, b), target);
      ScheduledSplit(Trace(s, a), Trace(mid, b));
      TraceShort(s, a);
      TimedSplit(start, a, b);
      UnpolledStays(s, a, target);
      EligibleLater(s.c, mid.c, target, start, Clock(start, a));
      BoundedOvertaking(mid, Clock(start, a), b, target);
      assert false;
    }
  }

  lemma EligibleCannotStarve(s: Loop, run: nat -> Event, target: Bytes, start: int)
    requires Eligible(s.c, target, start) && KnownRegion(target)
    ensures !PassedOver(s, run, target, start)
  {
    hide Eligible, KnownRegion, Timed, Absent, Trace, LiveRegions, ScheduledRegions;
    if PassedOver(s, run, target, start) {
      assert Reaches(s, run, 15);
      var n: nat :| |ScheduledRegions(Trace(s, Prefix(run, n)))| >= 15;
      var es := Prefix(run, n);
      TraceShort(s, es);
      ScheduledSplit(Trace(s, es), []);
      forall i | 0 <= i < n - 7 && es[7..][i].Tick?
        ensures target in LiveRegions(es[7..][i].v, es[7..][i].now)
      {
        assert es[7..][i] == run(7 + i);
      }
      EligibleIsServed(s, es, target, start);
      assert false;
    }
  }

  /** Who can starve, exactly: from any state whose polls are all at least 60 seconds old, a catalog
      region watched from the eighth event on can be passed over for ever if and only if it is not
      klang-valley and it is penang or was never polled. */
  lemma CanStarveIff(s: Loop, target: Bytes, start: int)
    requires !s.stopped && start > 0 && LongAgo(s.c, start) && KnownRegion(target)
    ensures CanStarve(s, target, start)
        <==> target != KLANG_VALLEY && (target == PENANG || target !in s.c.lastPoll)
  {
    if target != KLANG_VALLEY && (target == PENANG || target !in s.c.lastPoll) {
      var order := RotationWithout(target);
      RotationStarves(s, order, target, start);
    } else {
      assert Eligible(s.c, target, start);
      forall run: nat -> Event ensures !PassedOver(s, run, target, start) {
        EligibleCannotStarve(s, run, target, start);
      }
    }
  }

  /** A region never polled is never promoted: any but klang-valley can wait for ever. */
  lemma NeverPolledStarves(s: Loop, target: Bytes, start: int)
    requires !s.stopped && start > 0 && LongAgo(s.c, start) && KnownRegion(target)
    requires target != KLANG_VALLEY && target !in s.c.lastPoll
    ensures CanStarve(s, target, start)
  {
    CanStarveIff(s, target, start);
  }

  /** Penang is never promoted, however long ago it was polled: the seven others can keep it waiting. */
  lemma PenangStarves(s: Loop, start: int)
    requires !s.stopped && start > 0 && LongAgo(s.c, start)
    ensures CanStarve(s, PENANG, start)
  {
    CanStarveIff(s, PENANG, start);
  }
}
