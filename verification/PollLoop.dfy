/** The poll loop as a step relation, and what holds of every run of it. */
module PollLoop {
  import opened ByteStrings
  import opened Catalog
  import opened Sessions
  import opened Scheduler

  const DEFAULT_WRITE_HEALTH_THRESHOLD: int := 3

  /** Consecutive write failures against the threshold that makes the process unhealthy. */
  datatype Health = Health(threshold: int, failures: int)

  predicate IsHealthy(h: Health) {
    h.failures < h.threshold
  }

  /** How one poll ended. A terminal error is one after which the writer can never succeed. */
  datatype Outcome =
    | Cancelled
    | NoPositions
    | WriteFailed(terminal: bool)
    | FlushFailed(terminal: bool)
    | Stored

  predicate Failure(o: Outcome) {
    o.WriteFailed? || o.FlushFailed?
  }

  /** Polls that reach MarkPolled. */
  predicate Completes(o: Outcome) {
    o.Stored? || o.NoPositions?
  }

  datatype Loop = Loop(c: Coordinator, health: Health, stopped: bool)

  /** One turn of the loop: the sessions it sees, when it plans and when its poll ends. */
  datatype Event =
    | Tick(v: View, now: int, done: int, outcome: Outcome)
    | Switch(v: View, region: Bytes, now: int, done: int, outcome: Outcome)

  ghost function PlanOf(s: Loop, e: Event): Planned {
    if s.stopped then Idle
    else match e
      case Tick(v, now, _, _) => PlanScheduled(s.c, v, now)
      case Switch(v, region, now, _, _) => PlanSwitch(s.c, v, region, now)
  }

  function AfterPoll(s: Loop, region: Bytes, done: int, outcome: Outcome): Loop {
    match outcome
    case Cancelled => s
    case NoPositions => s.(c := Marked(s.c, [region], done))
    case Stored => s.(c := Marked(s.c, [region], done), health := s.health.(failures := 0))
    case WriteFailed(terminal) => s.(health := s.health.(failures := s.health.failures + 1), stopped := terminal)
    case FlushFailed(terminal) => s.(health := s.health.(failures := s.health.failures + 1), stopped := terminal)
  }

  ghost predicate Polls(s: Loop, e: Event) {
    PlanOf(s, e).Fetch?
  }

  ghost function Step(s: Loop, e: Event): Loop {
    if Polls(s, e) then AfterPoll(s, PlanOf(s, e).region, e.done, e.outcome) else s
  }

  ghost function RunLoop(s: Loop, es: seq<Event>): Loop
    decreases es
  {
    if |es| == 0 then s else RunLoop(Step(s, es[0]), es[1..])
  }

  /** A completed poll: when it was planned, when it was recorded, and by which path. */
  datatype Completion = Completion(region: Bytes, planned: int, at: int, scheduled: bool)

  ghost predicate CompletesNow(s: Loop, e: Event) {
    Polls(s, e) && Completes(e.outcome)
  }

  ghost function RegionOf(plan: Planned): Bytes {
    if plan.Fetch? then plan.region else ""
  }

  ghost function CompletionOf(s: Loop, e: Event): Completion {
    Completion(RegionOf(PlanOf(s, e)), e.now, e.done, e.Tick?)
  }

  /** The completed polls of a run, in order. */
  ghost function Trace(s: Loop, es: seq<Event>): seq<Completion>
    decreases es
  {
    if |es| == 0 then []
    else (if CompletesNow(s, es[0]) then [CompletionOf(s, es[0])] else []) + Trace(Step(s, es[0]), es[1..])
  }

  /** Events follow one another on a clock that never runs backwards. */
  predicate Timed(clock: int, es: seq<Event>)
    decreases es
  {
    |es| == 0 || (clock <= es[0].now <= es[0].done && ValidView(es[0].v) && Timed(es[0].done, es[1..]))
  }

  lemma PlannedRegionKnown(s: Loop, e: Event)
    requires Polls(s, e)
    ensures KnownRegion(PlanOf(s, e).region)
  {
    var r := PlanOf(s, e).region;
    RegionHasFeeds(r);
  }

  lemma StepEffect(s: Loop, e: Event)
    ensures CompletesNow(s, e) ==> Step(s, e).c.lastPoll == s.c.lastPoll[PlanOf(s, e).region := e.done]
    ensures !CompletesNow(s, e) ==> Step(s, e).c == s.c
    ensures Step(s, e).c.interval == s.c.interval
  {
    hide PlanOf;
    if CompletesNow(s, e) {
      var r := PlanOf(s, e).region;
      assert Stamps([r], e.done) == map[r := e.done];
    }
  }

  // ---------------------------------------------------------------- one step

  /** What a poll leaves behind: stored positions and no positions stamp the region, stored ones clear the
      failures, a failed write or flush counts, a terminal one stops the loop, and a cancelled poll leaves
      nothing. */
  lemma PollLeaves(s: Loop, e: Event, r: Bytes)
    requires Polls(s, e)
    ensures var region, t, o := PlanOf(s, e).region, Step(s, e), e.outcome;
            && (o in {Stored, NoPositions} ==> region in t.c.lastPoll && t.c.lastPoll[region] == e.done)
            && (r != region || o !in {Stored, NoPositions} ==>
                  (r in t.c.lastPoll <==> r in s.c.lastPoll)
                  && (r in t.c.lastPoll ==> t.c.lastPoll[r] == s.c.lastPoll[r]))
            && t.health.threshold == s.health.threshold
            && t.health.failures == (if o.Stored? then 0
                                     else if o.WriteFailed? || o.FlushFailed? then s.health.failures + 1
                                     else s.health.failures)
            && (t.stopped <==> o in {WriteFailed(true), FlushFailed(true)})
  {
    hide PlanOf, Marked;
    NotStopped(s, e);
    MarkedIs(s.c, [PlanOf(s, e).region], e.done, r);
    MarkedIs(s.c, [PlanOf(s, e).region], e.done, PlanOf(s, e).region);
  }

  lemma NotStopped(s: Loop, e: Event)
    requires Polls(s, e)
    ensures !s.stopped
  {
  }

  lemma {:induction false} StoppedForGood(s: Loop, es: seq<Event>)
    requires s.stopped
    ensures RunLoop(s, es) == s && Trace(s, es) == [] && Outcomes(s, es) == []
    decreases es
  {
    if |es| > 0 {
      StoppedForGood(s, es[1..]);
    }
  }

  /** A terminal failure ends polling: it is the last outcome of the run. */
  lemma TerminalEndsPolling(s: Loop, e: Event, rest: seq<Event>)
    requires Polls(s, e) && e.outcome in {WriteFailed(true), FlushFailed(true)}
    ensures Outcomes(s, [e] + rest) == [e.outcome] && Trace(s, [e] + rest) == []
    ensures RunLoop(s, [e] + rest).stopped
  {
    hide PlanOf;
    assert ([e] + rest)[1..] == rest && ([e] + rest)[0] == e;
    StoppedForGood(Step(s, e), rest);
  }

  // ---------------------------------------------------------------- the rate

  lemma PlanIsStale(s: Loop, e: Event)
    requires Polls(s, e) && ValidView(e.v)
    ensures var r := PlanOf(s, e).region;
            r in s.c.lastPoll ==> e.now - s.c.lastPoll[r] >= UPSTREAM_REFRESH_INTERVAL
  {
    LiveIntervalIsFloor(s.c, e.v, PlanOf(s, e).region, e.now);
  }

  lemma {:induction false} RateSince(s: Loop, clock: int, es: seq<Event>, j: nat)
    requires Timed(clock, es) && j < |Trace(s, es)|
    ensures var x := Trace(s, es)[j];
            x.region in s.c.lastPoll ==> x.planned - s.c.lastPoll[x.region] >= UPSTREAM_REFRESH_INTERVAL
    decreases es
  {
    hide PlanOf, Step, ValidView;
    var e := es[0];
    StepEffect(s, e);
    if CompletesNow(s, e) {
      PlanIsStale(s, e);
      if j > 0 {
        RateSince(Step(s, e), e.done, es[1..], j - 1);
      }
    } else {
      RateSince(Step(s, e), e.done, es[1..], j);
    }
  }

  /** In every run, whatever viewers choose and however scheduled and region-switch polls mix,
      a region is not even planned again until 30 seconds after its last completed poll. */
  lemma {:induction false} UpstreamRateBound(s: Loop, clock: int, es: seq<Event>, i: nat, j: nat)
    requires Timed(clock, es)
    requires i < j < |Trace(s, es)| && Trace(s, es)[i].region == Trace(s, es)[j].region
    ensures Trace(s, es)[j].planned - Trace(s, es)[i].at >= 30_000_000_000
    ensures Trace(s, es)[j].at >= Trace(s, es)[j].planned
    decreases es
  {
    hide PlanOf, Step, ValidView;
    var e := es[0];
    StepEffect(s, e);
    var next, rest := Step(s, e), es[1..];
    if CompletesNow(s, e) {
      TraceTimes(next, e.done, rest, j - 1);
      if i == 0 {
        RateSince(next, e.done, rest, j - 1);
      } else {
        UpstreamRateBound(next, e.done, rest, i - 1, j - 1);
      }
    } else {
      UpstreamRateBound(next, e.done, rest, i, j);
    }
  }

  lemma {:induction false} TraceTimes(s: Loop, clock: int, es: seq<Event>, j: nat)
    requires Timed(clock, es) && j < |Trace(s, es)|
    ensures clock <= Trace(s, es)[j].planned <= Trace(s, es)[j].at
    decreases es
  {
    hide PlanOf, Step, ValidView;
    var e := es[0];
    if CompletesNow(s, e) {
      if j > 0 {
        TraceTimes(Step(s, e), e.done, es[1..], j - 1);
      }
    } else {
      TraceTimes(Step(s, e), e.done, es[1..], j);
    }
  }

  // ------------------------------------------------------ bounded overtaking

  /** A due klang-valley, or a region other than penang that was polled before and has waited
      60 seconds: the regions that compete at the top priority. */
  predicate Eligible(c: Coordinator, region: Bytes, now: int) {
    if region == KLANG_VALLEY then
      region !in c.lastPoll || now - c.lastPoll[region] >= UPSTREAM_REFRESH_INTERVAL
    else
      region != PENANG && region in c.lastPoll
      && now - c.lastPoll[region] >= 2 * UPSTREAM_REFRESH_INTERVAL
  }

  /** region is being watched at every tick of es. */
  predicate LiveThroughout(es: seq<Event>, region: Bytes) {
    forall i :: 0 <= i < |es| && es[i].Tick? ==> region in LiveRegions(es[i].v, es[i].now)
  }

  predicate Absent(trace: seq<Completion>, region: Bytes) {
    forall i :: 0 <= i < |trace| ==> trace[i].region != region
  }

  /** x was polled later than region. */
  predicate Ahead(c: Coordinator, x: Bytes, region: Bytes) {
    x in c.lastPoll && region in c.lastPoll && c.lastPoll[x] > c.lastPoll[region]
  }

  /** A tick that passes over an eligible live region picks one polled no later than it. */
  lemma OvertakerIsBehind(s: Loop, e: Event, region: Bytes)
    requires e.Tick? && Polls(s, e) && ValidView(e.v)
    requires Eligible(s.c, region, e.now) && region in LiveRegions(e.v, e.now)
    ensures PlanOf(s, e).region != region ==>
      region in s.c.lastPoll && !Ahead(s.c, PlanOf(s, e).region, region)
  {
    LiveIntervalIsFloor(s.c, e.v, region, e.now);
    assert region in DueRegions(s.c, e.v, e.now);
    var x := PlanOf(s, e).region;
    if x != region {
      assert PreferDueRegion(CandidateOf(s.c, e.v, x, e.now), CandidateOf(s.c, e.v, region, e.now));
    }
  }

  lemma AbsentTail(head: seq<Completion>, rest: seq<Completion>, region: Bytes)
    requires Absent(head + rest, region)
    ensures |head| > 0 ==> head[0].region != region
    ensures Absent(rest, region)
  {
    var whole := head + rest;
    assert |head| > 0 ==> whole[0] == head[0];
    assert forall i :: 0 <= i < |rest| ==> rest[i] == whole[|head| + i];
  }

  lemma AbsentSplits(s: Loop, es: seq<Event>, region: Bytes)
    requires |es| > 0 && Absent(Trace(s, es), region)
    ensures Absent(Trace(Step(s, es[0]), es[1..]), region)
    ensures CompletesNow(s, es[0]) ==> PlanOf(s, es[0]).region != region
  {
    var head := if CompletesNow(s, es[0]) then [CompletionOf(s, es[0])] else [];
    CompletionRegion(s, es[0]);
    hide PlanOf, Step, CompletionOf, CompletesNow;
    assert Trace(s, es) == head + Trace(Step(s, es[0]), es[1..]);
    hide *;
    AbsentTail(head, Trace(Step(s, es[0]), es[1..]), region);
  }

  lemma CompletionRegion(s: Loop, e: Event)
    ensures CompletesNow(s, e) ==> CompletionOf(s, e).region == PlanOf(s, e).region
  {
  }

  /** One turn of the window: what it keeps while region waits. */
  lemma WindowStep(s: Loop, clock: int, es: seq<Event>, region: Bytes)
    requires |es| > 0 && Timed(clock, es) && LiveThroughout(es, region)
    requires Eligible(s.c, region, clock) && Absent(Trace(s, es), region)
    ensures var next := Step(s, es[0]);
            && LiveThroughout(es[1..], region) && Eligible(next.c, region, es[0].done)
            && Absent(Trace(next, es[1..]), region)
            && (forall x :: Ahead(s.c, x, region) ==> Ahead(next.c, x, region))
            && (CompletesNow(s, es[0]) ==> PlanOf(s, es[0]).region != region)
            && (CompletesNow(s, es[0]) && es[0].Tick? ==>
                  !Ahead(s.c, PlanOf(s, es[0]).region, region) && Ahead(next.c, PlanOf(s, es[0]).region, region))
  {
    hide PlanOf, Step;
    AbsentSplits(s, es, region);
    StepEffect(s, es[0]);
    if CompletesNow(s, es[0]) && es[0].Tick? {
      OvertakerIsBehind(s, es[0], region);
    }
  }

  /** Once ahead, a region is not scheduled again while the eligible one waits. */
  lemma {:induction false} AheadNotScheduled(s: Loop, clock: int, es: seq<Event>, region: Bytes, x: Bytes, j: nat)
    requires Timed(clock, es) && LiveThroughout(es, region)
    requires Eligible(s.c, region, clock) && Absent(Trace(s, es), region)
    requires Ahead(s.c, x, region) && j < |Trace(s, es)| && Trace(s, es)[j].scheduled
    ensures Trace(s, es)[j].region != x
    decreases es
  {
    hide PlanOf, Step, ValidView, Eligible, LiveThroughout, Absent, Ahead;
    WindowStep(s, clock, es, region);
    if !CompletesNow(s, es[0]) {
      AheadNotScheduled(Step(s, es[0]), es[0].done, es[1..], region, x, j);
    } else if j > 0 {
      AheadNotScheduled(Step(s, es[0]), es[0].done, es[1..], region, x, j - 1);
    }
  }

  /** While an eligible region is watched and waits, each other region completes a scheduled
      poll at most once, whatever region-switch polls and failures come in between. */
  lemma {:induction false} OvertakenOnce(s: Loop, clock: int, es: seq<Event>, region: Bytes, i: nat, j: nat)
    requires Timed(clock, es) && LiveThroughout(es, region)
    requires Eligible(s.c, region, clock) && Absent(Trace(s, es), region)
    requires i < j < |Trace(s, es)| && Trace(s, es)[i].scheduled && Trace(s, es)[j].scheduled
    ensures Trace(s, es)[i].region != Trace(s, es)[j].region
    decreases es
  {
    hide PlanOf, Step, ValidView, Eligible, LiveThroughout, Absent, Ahead;
    WindowStep(s, clock, es, region);
    var next, rest := Step(s, es[0]), es[1..];
    if !CompletesNow(s, es[0]) {
      OvertakenOnce(next, es[0].done, rest, region, i, j);
    } else if i > 0 {
      OvertakenOnce(next, es[0].done, rest, region, i - 1, j - 1);
    } else {
      AheadNotScheduled(next, es[0].done, rest, region, Trace(s, es)[0].region, j - 1);
    }
  }

  function ScheduledRegions(trace: seq<Completion>): seq<Bytes> {
    if |trace| == 0 then []
    else (if trace[0].scheduled then [trace[0].region] else []) + ScheduledRegions(trace[1..])
  }

  lemma {:induction false} ScheduledMember(trace: seq<Completion>, r: Bytes)
    ensures r in ScheduledRegions(trace) <==>
      exists j :: 0 <= j < |trace| && trace[j].scheduled && trace[j].region == r
  {
    if |trace| > 0 {
      ScheduledMember(trace[1..], r);
      if j :| 0 <= j < |trace| && trace[j].scheduled && trace[j].region == r {
        assert j > 0 ==> trace[1..][j - 1] == trace[j];
      }
    }
  }

  lemma {:induction false} ScheduledDistinct(trace: seq<Completion>)
    requires forall i, j :: 0 <= i < j < |trace| && trace[i].scheduled && trace[j].scheduled
                            ==> trace[i].region != trace[j].region
    ensures NoDuplicates(ScheduledRegions(trace))
  {
    if |trace| > 0 {
      assert forall i :: 0 <= i < |trace| - 1 ==> trace[1..][i] == trace[i + 1];
      ScheduledDistinct(trace[1..]);
      ScheduledMember(trace[1..], trace[0].region);
    }
  }

  lemma {:induction false} DistinctFits(ids: seq<Bytes>, s: set<Bytes>)
    requires NoDuplicates(ids) && forall r :: r in ids ==> r in s
    ensures |ids| <= |s|
  {
    if |ids| > 0 {
      assert ids[0] !in ids[1..];
      DistinctFits(ids[1..], s - {ids[0]});
    }
  }

  lemma {:induction false} TraceKnown(s: Loop, es: seq<Event>, j: nat)
    requires j < |Trace(s, es)|
    ensures KnownRegion(Trace(s, es)[j].region)
    decreases es
  {
    hide PlanOf, Step;
    if CompletesNow(s, es[0]) {
      PlannedRegionKnown(s, es[0]);
      if j > 0 {
        TraceKnown(Step(s, es[0]), es[1..], j - 1);
      }
    } else {
      TraceKnown(Step(s, es[0]), es[1..], j);
    }
  }

  /** Bounded overtaking: an eligible region that stays watched is polled within eight
      completed scheduled polls, the other seven catalog regions going first once each. */
  lemma BoundedOvertaking(s: Loop, clock: int, es: seq<Event>, region: Bytes)
    requires Timed(clock, es) && LiveThroughout(es, region)
    requires Eligible(s.c, region, clock) && KnownRegion(region)
    requires |ScheduledRegions(Trace(s, es))| >= 8
    ensures !Absent(Trace(s, es), region)
  {
    var trace := Trace(s, es);
    if Absent(trace, region) {
      forall i, j | 0 <= i < j < |trace| && trace[i].scheduled && trace[j].scheduled
        ensures trace[i].region != trace[j].region
      {
        OvertakenOnce(s, clock, es, region, i, j);
      }
      ScheduledDistinct(trace);
      var ids := ScheduledRegions(trace);
      forall r | r in ids ensures r in RegionIDs() - {region} {
        ScheduledMember(trace, r);
        var j :| 0 <= j < |trace| && trace[j].scheduled && trace[j].region == r;
        TraceKnown(s, es, j);
      }
      DistinctFits(ids, RegionIDs() - {region});
      CatalogSize();
      assert false;
    }
  }

  // ---------------------------------------------------------- fault detection

  function Ticks(es: seq<Event>): nat {
    if |es| == 0 then 0 else (if es[0].Tick? then 1 else 0) + Ticks(es[1..])
  }

  /** Every write or flush fails, each time in a way that may yet recover. */
  predicate AllFail(es: seq<Event>) {
    forall i :: 0 <= i < |es| ==> es[i].outcome in {WriteFailed(false), FlushFailed(false)}
  }

  ghost predicate DueSince(c: Coordinator, region: Bytes, clock: int) {
    region in c.lastPoll ==> clock - c.lastPoll[region] >= UPSTREAM_REFRESH_INTERVAL
  }

  lemma WatchedTickPolls(s: Loop, e: Event, clock: int, region: Bytes)
    requires e.Tick? && !s.stopped && clock <= e.now && ValidView(e.v)
    requires region in LiveRegions(e.v, e.now) && DueSince(s.c, region, clock)
    ensures Polls(s, e)
  {
    LiveIntervalIsFloor(s.c, e.v, region, e.now);
    assert region in DueRegions(s.c, e.v, e.now);
    var id := NextDue(s.c, e.v, e.now);
    var sid :| sid in e.v.live && Watches(e.v, sid, e.now) && e.v.sessions[sid].region == id;
    assert KnownRegion(id);
    RegionHasFeeds(id);
  }

  /** Ticks whose poll, if they poll, is recorded. */
  function CompletingTicks(es: seq<Event>): nat {
    if |es| == 0 then 0
    else (if es[0].Tick? && Completes(es[0].outcome) then 1 else 0) + CompletingTicks(es[1..])
  }

  predicate NeverStops(es: seq<Event>) {
    forall i :: 0 <= i < |es| ==> !(Failure(es[i].outcome) && es[i].outcome.terminal)
  }

  lemma EligibleIsDue(c: Coordinator, region: Bytes, now: int)
    requires Eligible(c, region, now)
    ensures DueSince(c, region, now)
  {
  }

  /** While an eligible region is watched and waits, no completing tick is idle. */
  lemma {:induction false} CompletingTicksPoll(s: Loop, clock: int, es: seq<Event>, region: Bytes)
    requires Timed(clock, es) && LiveThroughout(es, region) && NeverStops(es) && !s.stopped
    requires Eligible(s.c, region, clock) && Absent(Trace(s, es), region)
    ensures |ScheduledRegions(Trace(s, es))| >= CompletingTicks(es)
    decreases es
  {
    if |es| > 0 {
      var e, next := es[0], Step(s, es[0]);
      EligibleIsDue(s.c, region, clock);
      assert !next.stopped;
      assert NeverStops(es[1..]);
      assert e.Tick? ==> region in LiveRegions(e.v, e.now);
      hide PlanOf, Step, Eligible, LiveThroughout, Absent, NeverStops, DueSince, LiveRegions;
      WindowStep(s, clock, es, region);
      CompletingTicksPoll(next, e.done, es[1..], region);
      if e.Tick? {
        WatchedTickPolls(s, e, clock, region);
      }
      var rest := Trace(next, es[1..]);
      assert CompletesNow(s, e) ==> ([CompletionOf(s, e)] + rest)[1..] == rest;
      assert [] + rest == rest;
    }
  }

  /** So eight completing ticks serve it, whatever else the run does short of stopping. */
  lemma ServedWithinEightTicks(s: Loop, clock: int, es: seq<Event>, region: Bytes)
    requires Timed(clock, es) && LiveThroughout(es, region) && NeverStops(es) && !s.stopped
    requires Eligible(s.c, region, clock) && KnownRegion(region)
    requires CompletingTicks(es) >= 8
    ensures !Absent(Trace(s, es), region)
  {
    if Absent(Trace(s, es), region) {
      CompletingTicksPoll(s, clock, es, region);
      BoundedOvertaking(s, clock, es, region);
    }
  }

  /** A failed poll never advances the last poll, so while a due region is watched every tick
      polls again and every failure is counted. */
  lemma {:induction false} FailuresAccumulate(s: Loop, clock: int, es: seq<Event>, region: Bytes)
    requires Timed(clock, es) && LiveThroughout(es, region) && AllFail(es)
    requires !s.stopped && DueSince(s.c, region, clock)
    ensures RunLoop(s, es).c == s.c && !RunLoop(s, es).stopped
    ensures RunLoop(s, es).health.threshold == s.health.threshold
    ensures RunLoop(s, es).health.failures >= s.health.failures + Ticks(es)
    decreases es
  {
    hide PlanOf, LiveRegions;
    if |es| > 0 {
      var e := es[0];
      if e.Tick? {
        WatchedTickPolls(s, e, clock, region);
      }
      FailuresAccumulate(Step(s, e), e.done, es[1..], region);
    }
  }

  /** Bounded detection: a threshold's worth of ticks on a broken store makes health fail. */
  lemma FaultDetected(s: Loop, clock: int, es: seq<Event>, region: Bytes)
    requires Timed(clock, es) && LiveThroughout(es, region) && AllFail(es)
    requires !s.stopped && DueSince(s.c, region, clock) && s.health.failures >= 0
    requires Ticks(es) >= s.health.threshold
    ensures !IsHealthy(RunLoop(s, es).health)
  {
    FailuresAccumulate(s, clock, es, region);
  }

  /** The outcomes of the polls a run makes, in order. */
  ghost function Outcomes(s: Loop, es: seq<Event>): seq<Outcome>
    decreases es
  {
    if |es| == 0 then []
    else (if Polls(s, es[0]) then [es[0].outcome] else []) + Outcomes(Step(s, es[0]), es[1..])
  }

  /** Failures since the last stored poll; other outcomes neither count nor reset. */
  function TrailingFailures(os: seq<Outcome>, initial: int): int {
    if |os| == 0 then initial
    else
      var last := os[|os| - 1];
      if last.Stored? then 0
      else TrailingFailures(os[..|os| - 1], initial) + (if Failure(last) then 1 else 0)
  }

  lemma {:induction false} TrailingPrepend(o: Outcome, os: seq<Outcome>, initial: int)
    ensures TrailingFailures([o] + os, initial) ==
      TrailingFailures(os, if o.Stored? then 0 else if Failure(o) then initial + 1 else initial)
  {
    var all := [o] + os;
    if |os| > 0 {
      assert all[..|all| - 1] == [o] + os[..|os| - 1];
      TrailingPrepend(o, os[..|os| - 1], initial);
    } else {
      assert all[..0] == [];
    }
  }

  /** The health report is exact over every run: unhealthy if and only if the failures since
      the last stored poll reach the threshold. */
  lemma {:induction false} HealthIsExact(s: Loop, es: seq<Event>)
    ensures IsHealthy(RunLoop(s, es).health) <==>
      TrailingFailures(Outcomes(s, es), s.health.failures) < s.health.threshold
    ensures RunLoop(s, es).health == s.health.(failures := TrailingFailures(Outcomes(s, es), s.health.failures))
    decreases es
  {
    hide PlanOf, Marked;
    if |es| > 0 {
      var e, next := es[0], Step(s, es[0]);
      var rest := Outcomes(next, es[1..]);
      HealthIsExact(next, es[1..]);
      if Polls(s, e) {
        assert Outcomes(s, es) == [e.outcome] + rest;
        TrailingPrepend(e.outcome, rest, s.health.failures);
      } else {
        assert Outcomes(s, es) == [] + rest == rest;
      }
    }
  }

  // ------------------------------------------------------------- the objects

  class WriteHealth {
    const threshold: int
    var consecutiveFailures: int
    var lastErr: Option<Outcome>

    constructor (threshold: int)
      ensures Value() == Health(if threshold <= 0 then 3 else threshold, 0)
      ensures lastErr == None
    {
      this.threshold := if threshold <= 0 then DEFAULT_WRITE_HEALTH_THRESHOLD else threshold;
      consecutiveFailures := 0;
      lastErr := None;
    }

    ghost function Value(): Health
      reads this
    {
      Health(threshold, consecutiveFailures)
    }

    method RecordSuccess()
      modifies this
      ensures Value() == old(Value()).(failures := 0) && lastErr == None
    {
      consecutiveFailures := 0;
      lastErr := None;
    }

    method RecordFailure(err: Outcome)
      modifies this
      ensures Value() == old(Value()).(failures := old(Value()).failures + 1) && lastErr == Some(err)
    {
      consecutiveFailures := consecutiveFailures + 1;
      lastErr := Some(err);
    }

    method Healthy() returns (healthy: bool)
      ensures healthy <==> IsHealthy(Value())
    {
      return consecutiveFailures < threshold;
    }
  }

  /** The loop's closures over the coordinator, the health tracker and the stop signal, with what they
      tell the pipeline: the agencies last polled, the last poll's time and how often it notified. */
  class Poller {
    const coordinator: PollCoordinator
    const health: WriteHealth
    var stopped: bool
    var lastPolled: seq<Bytes>
    var lastPollAt: int
    var notified: nat

    constructor (coordinator: PollCoordinator, health: WriteHealth)
      ensures this.coordinator == coordinator && this.health == health && !stopped
      ensures lastPolled == [] && lastPollAt == 0 && notified == 0
    {
      this.coordinator := coordinator;
      this.health := health;
      stopped := false;
      lastPolled, lastPollAt, notified := [], 0, 0;
    }

    ghost function State(): Loop
      reads this, coordinator, health
    {
      Loop(coordinator.Value(), health.Value(), stopped)
    }

    method RunPoll(feeds: seq<Bytes>, region: Bytes, done: int, outcome: Outcome)
      requires !stopped
      modifies this, coordinator`lastPoll, health
      ensures State() == if |feeds| == 0 then old(State()) else AfterPoll(old(State()), region, done, outcome)
      ensures lastPolled == if |feeds| == 0 then old(lastPolled) else feeds
      ensures lastPollAt == if |feeds| > 0 && Completes(outcome) then done else old(lastPollAt)
      ensures notified == old(notified) + if |feeds| > 0 && outcome.Stored? then 1 else 0
      ensures health.lastErr == if |feeds| > 0 && Failure(outcome) then Some(outcome)
                                else if |feeds| > 0 && outcome.Stored? then None else old(health.lastErr)
    {
      if |feeds| == 0 {
        return;
      }
      lastPolled := feeds;
      if outcome.Cancelled? {
        return;
      }
      if outcome.WriteFailed? || outcome.FlushFailed? {
        health.RecordFailure(outcome);
        if outcome.terminal {
          stopped := true;
        }
        return;
      }
      if outcome.Stored? {
        health.RecordSuccess();
      }
      lastPollAt := done;
      coordinator.MarkPolled([region], done);
      if outcome.Stored? {
        notified := notified + 1;
      }
    }

    method Scheduled(now: int, done: int, outcome: Outcome)
      requires !stopped
      modifies this, coordinator`lastPoll, coordinator.sessions`sessions, health
      ensures State() == Step(old(State()), Tick(old(coordinator.sessions.ViewOf()), now, done, outcome))
    {
      var plan := coordinator.FeedsForScheduledPoll(now);
      match plan {
        case UnknownRegion =>
        case Idle =>
        case Fetch(feeds, region) =>
          RegionHasFeeds(region);
          RunPoll(feeds, region, done, outcome);
      }
    }

    method ForRegion(region: Bytes, now: int, done: int, outcome: Outcome)
      requires !stopped
      modifies this, coordinator`lastPoll, coordinator.sessions`sessions, health
      ensures State() == Step(old(State()), Switch(old(coordinator.sessions.ViewOf()), region, now, done, outcome))
    {
      var plan := coordinator.FeedsForRegionSwitch(now, region);
      match plan {
        case UnknownRegion =>
        case Idle =>
        case Fetch(feeds, chosen) =>
          RegionHasFeeds(chosen);
          RunPoll(feeds, chosen, done, outcome);
      }
    }
  }
}
