/** The poll coordinator: which region, if any, a scheduler tick fetches. */
module Scheduler {
  import opened ByteStrings
  import opened Catalog
  import opened Sessions

  const UPSTREAM_REFRESH_INTERVAL: int := 30 * SECOND
  const DEFAULT_POLL_INTERVAL: int := DEFAULT_POLL_SECONDS * SECOND

  /** The coordinator as a value: the fallback interval and the last completed poll by region. */
  datatype Coordinator = Coordinator(interval: int, lastPoll: map<Bytes, int>)

  // -------------------------------------------------------------- intervals

  ghost function FetchInterval(c: Coordinator, v: View, region: Bytes, now: int): int {
    var chosen := MinInterval(v, region, now);
    var interval := if chosen <= 0 then c.interval else chosen;
    if interval < UPSTREAM_REFRESH_INTERVAL then UPSTREAM_REFRESH_INTERVAL else interval
  }

  /** Whatever viewers choose, a live region is fetched every 30 seconds exactly, so its
      anti-starvation promotion comes at 60; no region at all has a shorter interval. */
  lemma LiveIntervalIsFloor(c: Coordinator, v: View, region: Bytes, now: int)
    requires ValidView(v)
    ensures region in LiveRegions(v, now) ==> FetchInterval(c, v, region, now) == 30_000_000_000
    ensures region !in LiveRegions(v, now) ==>
      FetchInterval(c, v, region, now) == if c.interval < 30_000_000_000 then 30_000_000_000 else c.interval
  {
    LiveIffInterval(v, region, now);
  }

  ghost predicate Stale(c: Coordinator, v: View, region: Bytes, now: int) {
    region !in c.lastPoll || now - c.lastPoll[region] >= FetchInterval(c, v, region, now)
  }

  // --------------------------------------------------------------- the order

  const KLANG_VALLEY_PRIORITY: int := 0
  const PENANG_PRIORITY: int := 1
  const OTHER_PRIORITY: int := 2

  function RegionPollPriority(region: Bytes): int {
    if region == KLANG_VALLEY then KLANG_VALLEY_PRIORITY
    else if region == PENANG then PENANG_PRIORITY
    else OTHER_PRIORITY
  }

  ghost function EffectivePriority(c: Coordinator, v: View, region: Bytes, now: int): int {
    var pri := RegionPollPriority(region);
    if pri < OTHER_PRIORITY then pri
    else if region in c.lastPoll && now - c.lastPoll[region] >= 2 * FetchInterval(c, v, region, now)
    then KLANG_VALLEY_PRIORITY
    else pri
  }

  /** What the tick knows of a region; `last` is the zero time when it was never polled. */
  datatype Candidate = Candidate(id: Bytes, last: int, seen: bool, pri: int)

  predicate PreferDueRegion(c: Candidate, best: Candidate) {
    if c.pri != best.pri then c.pri < best.pri
    else if !c.seen && best.seen then true
    else if c.seen && !best.seen then false
    else if !c.seen && !best.seen then Less(c.id, best.id)
    else if c.last == best.last then Less(c.id, best.id)
    else c.last < best.last
  }

  /** The four-level comparison is a strict total order on candidates with distinct ids. */
  lemma PreferTotal(a: Candidate, b: Candidate)
    ensures !(PreferDueRegion(a, b) && PreferDueRegion(b, a))
    ensures a.id != b.id ==> PreferDueRegion(a, b) || PreferDueRegion(b, a)
    ensures !PreferDueRegion(a, a)
  {
    LessTotal(a.id, b.id);
    LessIrreflexive(a.id);
  }

  lemma PreferTransitive(a: Candidate, b: Candidate, c: Candidate)
    requires PreferDueRegion(a, b) && PreferDueRegion(b, c)
    ensures PreferDueRegion(a, c)
  {
    if Less(a.id, b.id) && Less(b.id, c.id) {
      LessTransitive(a.id, b.id, c.id);
    }
  }

  function LastPoll(c: Coordinator, id: Bytes): int {
    if id in c.lastPoll then c.lastPoll[id] else 0
  }

  ghost function CandidateOf(c: Coordinator, v: View, id: Bytes, now: int): Candidate {
    Candidate(id, LastPoll(c, id), id in c.lastPoll, EffectivePriority(c, v, id, now))
  }

  // --------------------------------------------------------------- the choice

  ghost function DueRegions(c: Coordinator, v: View, now: int): set<Bytes> {
    set id | id in LiveRegions(v, now) && Stale(c, v, id, now)
  }

  ghost function DueAmong(c: Coordinator, v: View, now: int, ids: seq<Bytes>): set<Bytes> {
    set id | id in ids && Stale(c, v, id, now)
  }

  /** id beats every other region of s. */
  ghost predicate IsFirst(c: Coordinator, v: View, now: int, s: set<Bytes>, id: Bytes) {
    && id in s
    && forall o :: o in s && o != id ==> PreferDueRegion(CandidateOf(c, v, id, now), CandidateOf(c, v, o, now))
  }

  /** One comparison of the running-best loop. */
  lemma FirstExtends(c: Coordinator, v: View, now: int, s: set<Bytes>, best: Bytes, id: Bytes)
    requires IsFirst(c, v, now, s, best) && id !in s
    ensures IsFirst(c, v, now, s + {id},
                    if PreferDueRegion(CandidateOf(c, v, id, now), CandidateOf(c, v, best, now)) then id else best)
  {
    var a, b := CandidateOf(c, v, id, now), CandidateOf(c, v, best, now);
    PreferTotal(a, b);
    if PreferDueRegion(a, b) {
      forall o | o in s && o != best ensures PreferDueRegion(a, CandidateOf(c, v, o, now)) {
        PreferTransitive(a, b, CandidateOf(c, v, o, now));
      }
    }
  }

  lemma {:induction false} FirstExists(c: Coordinator, v: View, now: int, s: set<Bytes>) returns (id: Bytes)
    requires exists x :: x in s
    ensures IsFirst(c, v, now, s, id)
  {
    id :| id in s;
    var others := s - {id};
    assert s == others + {id};
    if exists x :: x in others {
      var rest := FirstExists(c, v, now, others);
      FirstExtends(c, v, now, others, rest, id);
      if !PreferDueRegion(CandidateOf(c, v, id, now), CandidateOf(c, v, rest, now)) {
        id := rest;
      }
    }
  }

  lemma FirstUnique(c: Coordinator, v: View, now: int, s: set<Bytes>, a: Bytes, b: Bytes)
    requires IsFirst(c, v, now, s, a) && IsFirst(c, v, now, s, b)
    ensures a == b
  {
    PreferTotal(CandidateOf(c, v, a, now), CandidateOf(c, v, b, now));
  }

  /** The loop's state after some candidates: the best of the due ones among them. */
  ghost predicate BestSoFar(c: Coordinator, v: View, now: int, ids: seq<Bytes>, scanned: set<Bytes>,
                            best: Bytes, bestOf: Candidate)
  {
    && scanned == DueAmong(c, v, now, ids)
    && (best == "" <==> scanned == {})
    && (best != "" ==> bestOf == CandidateOf(c, v, best, now) && IsFirst(c, v, now, scanned, best))
  }

  lemma BestSoFarStep(c: Coordinator, v: View, now: int, ids: seq<Bytes>, i: nat, scanned: set<Bytes>,
                      best: Bytes, bestOf: Candidate)
    requires i < |ids| && NoDuplicates(ids) && (set id | id in ids) == LiveRegions(v, now)
    requires BestSoFar(c, v, now, ids[..i], scanned, best, bestOf)
    ensures var id := ids[i];
            var here := CandidateOf(c, v, id, now);
            if !Stale(c, v, id, now) then BestSoFar(c, v, now, ids[..i + 1], scanned, best, bestOf)
            else if best == "" || PreferDueRegion(here, bestOf)
            then BestSoFar(c, v, now, ids[..i + 1], scanned + {id}, id, here)
            else BestSoFar(c, v, now, ids[..i + 1], scanned + {id}, best, bestOf)
  {
    var id := ids[i];
    assert ids[..i + 1] == ids[..i] + [id];
    assert id in (set x | x in ids);
    assert id !in ids[..i];
    if best != "" {
      FirstExtends(c, v, now, scanned, best, id);
    }
  }

  lemma BestAtEnd(c: Coordinator, v: View, now: int, ids: seq<Bytes>, scanned: set<Bytes>,
                  best: Bytes, bestOf: Candidate)
    requires (set id | id in ids) == LiveRegions(v, now)
    requires BestSoFar(c, v, now, ids[..|ids|], scanned, best, bestOf)
    ensures best == NextDue(c, v, now)
  {
    assert ids[..|ids|] == ids;
    forall id ensures id in scanned <==> id in DueRegions(c, v, now) {
      assert id in ids <==> id in (set x | x in ids);
    }
    if best != "" {
      FirstUnique(c, v, now, scanned, best, NextDue(c, v, now));
    }
  }

  /** The region of this tick; the empty id when none is due. */
  ghost function NextDue(c: Coordinator, v: View, now: int): (id: Bytes)
    ensures DueRegions(c, v, now) == {} <==> id == ""
    ensures id != "" ==> IsFirst(c, v, now, DueRegions(c, v, now), id)
  {
    var due := DueRegions(c, v, now);
    if exists x :: x in due then
      assert exists x :: IsFirst(c, v, now, due, x) by {
        var x := FirstExists(c, v, now, due);
      }
      var x: Bytes :| x in due && IsFirst(c, v, now, due, x);
      x
    else
      ""
  }

  /** The choice is determined: no iteration order of the live regions can change it. */
  lemma ChoiceIsTheFirst(c: Coordinator, v: View, now: int, id: Bytes)
    ensures id != "" && id == NextDue(c, v, now) <==> IsFirst(c, v, now, DueRegions(c, v, now), id)
  {
    if IsFirst(c, v, now, DueRegions(c, v, now), id) {
      FirstUnique(c, v, now, DueRegions(c, v, now), id, NextDue(c, v, now));
    }
  }

  // --------------------------------------------- the choice, in plain terms

  /** Never polled, or at least 30 seconds ago. */
  predicate DueAt(c: Coordinator, region: Bytes, now: int) {
    region in c.lastPoll ==> now - c.lastPoll[region] >= 30_000_000_000
  }

  /** Klang Valley first, then Penang, then the others; 60 seconds of waiting make one of those first. */
  function Rank(c: Coordinator, region: Bytes, now: int): int {
    if region == "klang-valley" then 0
    else if region == "penang" then 1
    else if region in c.lastPoll && now - c.lastPoll[region] >= 60_000_000_000 then 0
    else 2
  }

  lemma LiveInPlainTerms(c: Coordinator, v: View, region: Bytes, now: int)
    requires ValidView(v) && region in LiveRegions(v, now)
    ensures Stale(c, v, region, now) <==> DueAt(c, region, now)
    ensures EffectivePriority(c, v, region, now) == Rank(c, region, now)
  {
    LiveIntervalIsFloor(c, v, region, now);
  }

  /** What a tick chooses: nothing when no watched region is due, and otherwise the watched due region
      that ranks first, was never polled or was polled longest ago, and comes first by id. */
  lemma NextDueIs(c: Coordinator, v: View, now: int)
    requires ValidView(v)
    ensures var id := NextDue(c, v, now);
            && (id == "" <==> forall o :: o in LiveRegions(v, now) ==> !DueAt(c, o, now))
            && (id != "" ==> id in LiveRegions(v, now) && DueAt(c, id, now))
            && forall o :: id != "" && o in LiveRegions(v, now) && DueAt(c, o, now) && o != id ==>
                 || Rank(c, id, now) < Rank(c, o, now)
                 || (Rank(c, id, now) == Rank(c, o, now)
                     && ((id !in c.lastPoll && o in c.lastPoll)
                         || (id !in c.lastPoll && o !in c.lastPoll && Less(id, o))
                         || (id in c.lastPoll && o in c.lastPoll && c.lastPoll[id] < c.lastPoll[o])
                         || (id in c.lastPoll && o in c.lastPoll && c.lastPoll[id] == c.lastPoll[o] && Less(id, o))))
  {
    hide LiveRegions, Stale, EffectivePriority, ValidView;
    forall o | o in LiveRegions(v, now)
      ensures o in DueRegions(c, v, now) <==> DueAt(c, o, now)
      ensures EffectivePriority(c, v, o, now) == Rank(c, o, now)
    {
      LiveInPlainTerms(c, v, o, now);
    }
  }

  // ------------------------------------------------ pruning does not matter

  lemma PrunedChoices(c: Coordinator, v: View, now: int, id: Bytes)
    ensures FetchInterval(c, Pruned(v, now), id, now) == FetchInterval(c, v, id, now)
  {
    assert forall sid :: Watches(Pruned(v, now), sid, now) <==> Watches(v, sid, now);
    assert Choices(Pruned(v, now), id, now) == Choices(v, id, now);
  }

  lemma PrunedIrrelevant(c: Coordinator, v: View, now: int)
    ensures Pruned(Pruned(v, now), now) == Pruned(v, now)
    ensures forall id :: Stale(c, Pruned(v, now), id, now) == Stale(c, v, id, now)
    ensures forall id :: EffectivePriority(c, Pruned(v, now), id, now) == EffectivePriority(c, v, id, now)
  {
    var w := Pruned(v, now);
    forall id ensures Stale(c, w, id, now) == Stale(c, v, id, now)
                      && EffectivePriority(c, w, id, now) == EffectivePriority(c, v, id, now) {
      PrunedChoices(c, v, now, id);
    }
  }

  // -------------------------------------------------------- the coordinator

  /** What a planning call asks the loop to do. */
  datatype Planned = Idle | UnknownRegion | Fetch(feeds: seq<Bytes>, region: Bytes)

  function PlanRegion(region: Bytes): Planned {
    match FeedsForRegion(region)
    case None => UnknownRegion
    case Some(feeds) => Fetch(feeds, region)
  }

  ghost function PlanScheduled(c: Coordinator, v: View, now: int): Planned {
    var id := NextDue(c, v, now);
    if id == "" then Idle else PlanRegion(id)
  }

  ghost function PlanSwitch(c: Coordinator, v: View, region: Bytes, now: int): Planned {
    if region == "" then PlanScheduled(c, v, now)
    else if !Stale(c, v, region, now) then Idle
    else PlanRegion(region)
  }

  /** What a tick plans: the feeds of the chosen region. */
  lemma ScheduledPlanIs(c: Coordinator, v: View, now: int)
    requires ValidView(v)
    ensures NextDue(c, v, now) == "" ==> PlanScheduled(c, v, now) == Idle
    ensures NextDue(c, v, now) != "" ==>
      && KnownRegion(NextDue(c, v, now)) && FeedsForRegion(NextDue(c, v, now)).Some?
      && PlanScheduled(c, v, now) == Fetch(FeedsForRegion(NextDue(c, v, now)).value, NextDue(c, v, now))
  {
    var id := NextDue(c, v, now);
    RegionHasFeeds(id);
    hide FeedsForRegion, NextDue;
    if id != "" {
      NextDueIs(c, v, now);
      var sid :| sid in v.live && Watches(v, sid, now) && v.sessions[sid].region == id;
    }
  }

  /** What a region switch plans: nothing for a region polled within its interval, which is 30 seconds
      when it is watched; an error for an unknown region; the region's feeds otherwise. */
  lemma SwitchPlanIs(c: Coordinator, v: View, region: Bytes, now: int)
    requires ValidView(v) && region != ""
    ensures var recent := region in c.lastPoll && now - c.lastPoll[region] <
              (if region in LiveRegions(v, now) || c.interval < 30_000_000_000 then 30_000_000_000 else c.interval);
            && (recent ==> PlanSwitch(c, v, region, now) == Idle)
            && (!recent && !KnownRegion(region) ==> PlanSwitch(c, v, region, now) == UnknownRegion)
            && (!recent && KnownRegion(region) ==>
                  FeedsForRegion(region).Some?
                  && PlanSwitch(c, v, region, now) == Fetch(FeedsForRegion(region).value, region))
    ensures PlanSwitch(c, v, "", now) == PlanScheduled(c, v, now)
  {
    LiveIntervalIsFloor(c, v, region, now);
    RegionHasFeeds(region);
    hide FetchInterval, LiveRegions, FeedsForRegion, KnownRegion;
  }

  /** Marking stamps the listed regions and leaves the others. */
  lemma MarkedIs(c: Coordinator, regions: seq<Bytes>, at: int, r: Bytes)
    ensures var m := Marked(c, regions, at).lastPoll;
            && (r in regions ==> r in m && m[r] == at)
            && (r !in regions ==> (r in m <==> r in c.lastPoll) && (r in m ==> m[r] == c.lastPoll[r]))
    ensures Marked(c, regions, at).interval == c.interval
  {
  }

  function Marked(c: Coordinator, regions: seq<Bytes>, at: int): Coordinator {
    c.(lastPoll := c.lastPoll + Stamps(regions, at))
  }

  function Stamps(regions: seq<Bytes>, at: int): map<Bytes, int> {
    map r | r in regions :: at
  }

  lemma StampOne(m: map<Bytes, int>, regions: seq<Bytes>, i: nat, at: int)
    requires i < |regions|
    ensures (m + Stamps(regions[..i], at))[regions[i] := at] == m + Stamps(regions[..i + 1], at)
  {
  }

  class PollCoordinator {
    const sessions: SessionStore
    const interval: int
    var lastPoll: map<Bytes, int>

    constructor (sessions: SessionStore, interval: int)
      ensures this.sessions == sessions
      ensures Value() == Coordinator(if interval <= 0 then 10_000_000_000 else interval, map[])
    {
      this.sessions := sessions;
      this.interval := if interval <= 0 then DEFAULT_POLL_INTERVAL else interval;
      lastPoll := map[];
    }

    ghost function Value(): Coordinator
      reads this
    {
      Coordinator(interval, lastPoll)
    }

    method MarkPolled(regionIDs: seq<Bytes>, at: int)
      modifies this`lastPoll
      ensures Value() == Marked(old(Value()), regionIDs, at)
    {
      var i := 0;
      while i < |regionIDs|
        invariant 0 <= i <= |regionIDs|
        invariant lastPoll == old(lastPoll) + Stamps(regionIDs[..i], at)
      {
        StampOne(old(lastPoll), regionIDs, i, at);
        lastPoll := lastPoll[regionIDs[i] := at];
        i := i + 1;
      }
      assert regionIDs[..i] == regionIDs;
    }

    method Interval(region: Bytes, now: int) returns (interval: int)
      modifies sessions`sessions
      ensures sessions.ViewOf() == Pruned(old(sessions.ViewOf()), now)
      ensures interval == FetchInterval(Value(), old(sessions.ViewOf()), region, now)
    {
      interval := sessions.MinPollIntervalForRegion(region, now);
      if interval <= 0 {
        interval := this.interval;
      }
      if interval < UPSTREAM_REFRESH_INTERVAL {
        return UPSTREAM_REFRESH_INTERVAL;
      }
    }

    method IsStale(region: Bytes, now: int) returns (stale: bool)
      modifies sessions`sessions
      ensures sessions.ViewOf() == old(sessions.ViewOf()) || sessions.ViewOf() == Pruned(old(sessions.ViewOf()), now)
      ensures stale == Stale(Value(), old(sessions.ViewOf()), region, now)
    {
      if region !in lastPoll {
        return true;
      }
      var interval := Interval(region, now);
      return now - lastPoll[region] >= interval;
    }

    method Priority(region: Bytes, now: int) returns (pri: int)
      modifies sessions`sessions
      ensures sessions.ViewOf() == old(sessions.ViewOf()) || sessions.ViewOf() == Pruned(old(sessions.ViewOf()), now)
      ensures pri == EffectivePriority(Value(), old(sessions.ViewOf()), region, now)
    {
      pri := RegionPollPriority(region);
      if pri < OTHER_PRIORITY {
        return;
      }
      if region in lastPoll {
        var interval := Interval(region, now);
        if now - lastPoll[region] >= 2 * interval {
          return KLANG_VALLEY_PRIORITY;
        }
      }
    }

    /** What the loop learns about one candidate. */
    method Assess(id: Bytes, now: int, ghost v: View) returns (stale: bool, here: Candidate)
      requires sessions.ViewOf() == Pruned(v, now)
      modifies sessions`sessions
      ensures sessions.ViewOf() == Pruned(v, now)
      ensures stale == Stale(Value(), v, id, now)
      ensures here == CandidateOf(Value(), v, id, now)
    {
      PrunedIrrelevant(Value(), v, now);
      stale := IsStale(id, now);
      var pri := Priority(id, now);
      here := Candidate(id, if id in lastPoll then lastPoll[id] else 0, id in lastPoll, pri);
    }

    /** The running-best loop finds the unique first due region in whatever order the live
        regions come. */
    method NextDueRegion(now: int) returns (best: Bytes)
      modifies sessions`sessions
      ensures sessions.ViewOf() == Pruned(old(sessions.ViewOf()), now)
      ensures best == NextDue(Value(), old(sessions.ViewOf()), now)
    {
      ghost var v, c := sessions.ViewOf(), Value();
      var candidates := sessions.LiveRegionIDs(now);
      best := "";
      var bestOf := Candidate("", 0, false, 0);
      ghost var scanned: set<Bytes> := {};
      var i := 0;
      while i < |candidates|
        invariant 0 <= i <= |candidates|
        invariant sessions.ViewOf() == Pruned(v, now)
        invariant BestSoFar(c, v, now, candidates[..i], scanned, best, bestOf)
      {
        var id := candidates[i];
        var stale, here := Assess(id, now, v);
        BestSoFarStep(c, v, now, candidates, i, scanned, best, bestOf);
        if stale {
          scanned := scanned + {id};
          if best == "" {
            best, bestOf := id, here;
          } else if PreferDueRegion(here, bestOf) {
            best, bestOf := id, here;
          }
        }
        i := i + 1;
      }
      BestAtEnd(c, v, now, candidates, scanned, best, bestOf);
    }

    method FeedsForScheduledPoll(now: int) returns (plan: Planned)
      modifies sessions`sessions
      ensures sessions.ViewOf() == Pruned(old(sessions.ViewOf()), now)
      ensures plan == PlanScheduled(Value(), old(sessions.ViewOf()), now)
    {
      var id := NextDueRegion(now);
      if id == "" {
        return Idle;
      }
      return PlanRegion(id);
    }

    method FeedsForRegionSwitch(now: int, region: Bytes) returns (plan: Planned)
      modifies sessions`sessions
      ensures sessions.ViewOf() == old(sessions.ViewOf()) || sessions.ViewOf() == Pruned(old(sessions.ViewOf()), now)
      ensures plan == PlanSwitch(Value(), old(sessions.ViewOf()), region, now)
    {
      if region == "" {
        plan := FeedsForScheduledPoll(now);
        return;
      }
      var stale := IsStale(region, now);
      if !stale {
        return Idle;
      }
      return PlanRegion(region);
    }
  }
}
