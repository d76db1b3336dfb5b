/** Browser sessions: region and interval choice, idle expiry, and live stream counts. */
module Sessions {
  import opened ByteStrings
  import opened Catalog

  const SESSION_IDLE_TTL: int := 300 * SECOND
  const DEFAULT_POLL_SECONDS: int := 10
  const ALLOWED_POLL_SECONDS: seq<int> := [10, 20, 30]

  datatype Session = Session(region: Bytes, pollSeconds: int, lastSeen: int)

  /** The store as a value: sessions by id, and live stream counts by session id. */
  datatype View = View(sessions: map<Bytes, Session>, live: map<Bytes, int>)

  function NormalizePollSeconds(seconds: int): Option<int> {
    if seconds in ALLOWED_POLL_SECONDS then Some(seconds) else None
  }

  function StoredPollSeconds(n: int): int {
    match NormalizePollSeconds(n)
    case Some(v) => v
    case None => DEFAULT_POLL_SECONDS
  }

  predicate Expired(st: Session, now: int) {
    st.lastSeen == 0 || now - st.lastSeen >= SESSION_IDLE_TTL
  }

  function Pruned(v: View, now: int): View {
    v.(sessions := map sid | sid in v.sessions && !Expired(v.sessions[sid], now) :: v.sessions[sid])
  }

  function DefaultState(now: int): Session {
    Session(KLANG_VALLEY, DEFAULT_POLL_SECONDS, now)
  }

  function StateOf(v: View, sid: Bytes, now: int): Session {
    if sid in v.sessions then
      var st := v.sessions[sid];
      if st.pollSeconds == 0 then st.(pollSeconds := DEFAULT_POLL_SECONDS) else st
    else DefaultState(now)
  }

  // ------------------------------------------------- operations, on values

  /** One call on the store; every read of the store prunes expired sessions first. */
  datatype Op =
    | Touch(sid: Bytes, now: int)
    | Acquire(sid: Bytes)
    | Release(sid: Bytes)
    | SetRegion(sid: Bytes, region: Bytes, now: int)
    | SetPollSeconds(sid: Bytes, seconds: int, now: int)
    | Read(now: int)

  function Stored(v: View, sid: Bytes, st: Session, now: int): View {
    Pruned(v.(sessions := v.sessions[sid := st.(lastSeen := now)]), now)
  }

  function LiveCount(v: View, sid: Bytes): int {
    if sid in v.live then v.live[sid] else 0
  }

  function Apply(v: View, op: Op): View {
    match op
    case Touch(sid, now) =>
      if sid == "" then v
      else Stored(v, sid, if sid in v.sessions then v.sessions[sid] else DefaultState(now), now)
    case Acquire(sid) =>
      if sid == "" then v else v.(live := v.live[sid := LiveCount(v, sid) + 1])
    case Release(sid) =>
      if sid == "" then v
      else if LiveCount(v, sid) - 1 <= 0 then v.(live := v.live - {sid})
      else v.(live := v.live[sid := LiveCount(v, sid) - 1])
    case SetRegion(sid, region, now) =>
      if !KnownRegion(region) then v
      else Stored(v, sid, StateOf(v, sid, now).(region := region), now)
    case SetPollSeconds(sid, seconds, now) =>
      if NormalizePollSeconds(seconds).None? then v
      else Stored(v, sid, StateOf(v, sid, now).(pollSeconds := seconds), now)
    case Read(now) => Pruned(v, now)
  }

  function Run(v: View, ops: seq<Op>): View
    decreases ops
  {
    if |ops| == 0 then v else Run(Apply(v, ops[0]), ops[1..])
  }

  // -------------------------------------------------------- derived views

  predicate Watches(v: View, sid: Bytes, now: int) {
    && sid in v.live && v.live[sid] > 0
    && sid in v.sessions && !Expired(v.sessions[sid], now)
  }

  /** Regions with at least one connected, unexpired viewer. */
  function LiveRegions(v: View, now: int): (regions: set<Bytes>)
    ensures "" !in regions
  {
    set sid | sid in v.live && Watches(v, sid, now) && v.sessions[sid].region != "" :: v.sessions[sid].region
  }

  /** The intervals asked for by the live viewers of a region. */
  function Choices(v: View, region: Bytes, now: int): set<int> {
    set sid | sid in v.live && Watches(v, sid, now) && v.sessions[sid].region == region
      :: StoredPollSeconds(v.sessions[sid].pollSeconds) * SECOND
  }

  predicate IsLeast(m: int, s: set<int>) {
    m in s && forall x :: x in s ==> m <= x
  }

  lemma {:induction false} LeastExists(s: set<int>) returns (m: int)
    requires exists x :: x in s
    ensures IsLeast(m, s)
  {
    m :| m in s;
    var others := s - {m};
    assert s == others + {m};
    if exists x :: x in others {
      var rest := LeastExists(others);
      if rest < m {
        m := rest;
      }
    }
  }

  /** The fastest interval asked for in a region, 0 when nobody watches it. */
  ghost function MinInterval(v: View, region: Bytes, now: int): (d: int)
    ensures Choices(v, region, now) == {} ==> d == 0
    ensures Choices(v, region, now) != {} ==> IsLeast(d, Choices(v, region, now))
  {
    var s := Choices(v, region, now);
    if exists x :: x in s then
      assert exists m :: IsLeast(m, s) by {
        var m := LeastExists(s);
      }
      var m :| IsLeast(m, s);
      m
    else
      0
  }

  /** What every reachable store satisfies. */
  predicate ValidView(v: View) {
    && (forall sid :: sid in v.sessions ==>
          KnownRegion(v.sessions[sid].region) && v.sessions[sid].pollSeconds in ALLOWED_POLL_SECONDS)
    && (forall sid :: sid in v.live ==> v.live[sid] > 0)
  }

  lemma ApplyValid(v: View, op: Op)
    requires ValidView(v)
    ensures ValidView(Apply(v, op))
  {
  }

  /** Whatever clients do, sessions name catalog regions and allowed intervals. */
  lemma {:induction false} RunValid(v: View, ops: seq<Op>)
    requires ValidView(v)
    ensures ValidView(Run(v, ops))
    decreases ops
  {
    if |ops| > 0 {
      ApplyValid(v, ops[0]);
      RunValid(Apply(v, ops[0]), ops[1..]);
    }
  }

  /** The two read-outs the scheduler combines agree: a region is listed as live exactly when
      its interval is non-zero, and then the interval is its fastest viewer's choice. */
  lemma LiveIffInterval(v: View, region: Bytes, now: int)
    requires ValidView(v)
    ensures region in LiveRegions(v, now) <==> MinInterval(v, region, now) != 0
    ensures region in LiveRegions(v, now) ==>
      MinInterval(v, region, now) in {10 * SECOND, 20 * SECOND, 30 * SECOND}
    ensures forall sid :: Watches(v, sid, now) && v.sessions[sid].region == region ==>
      MinInterval(v, region, now) <= v.sessions[sid].pollSeconds * 1_000_000_000
    ensures region in LiveRegions(v, now) ==>
      exists sid :: Watches(v, sid, now) && v.sessions[sid].region == region
                    && MinInterval(v, region, now) == v.sessions[sid].pollSeconds * 1_000_000_000
  {
    var s := Choices(v, region, now);
    assert forall x :: x in s ==> x in {10 * SECOND, 20 * SECOND, 30 * SECOND};
    if region in LiveRegions(v, now) {
      var sid :| sid in v.live && Watches(v, sid, now) && v.sessions[sid].region == region;
      assert StoredPollSeconds(v.sessions[sid].pollSeconds) * SECOND in s;
    }
    if s != {} {
      var x :| x in s;
      var sid :| sid in v.live && Watches(v, sid, now) && v.sessions[sid].region == region
        && x == StoredPollSeconds(v.sessions[sid].pollSeconds) * SECOND;
      assert v.sessions[sid].region in LiveRegions(v, now);
    }
    forall sid | Watches(v, sid, now) && v.sessions[sid].region == region
      ensures MinInterval(v, region, now) <= v.sessions[sid].pollSeconds * SECOND
    {
      assert StoredPollSeconds(v.sessions[sid].pollSeconds) * SECOND in s;
    }
  }

  /** A connected session on the region that reported less than five minutes ago. */
  predicate ViewerOf(v: View, sid: Bytes, region: Bytes, now: int) {
    && sid in v.live && v.live[sid] > 0
    && sid in v.sessions && v.sessions[sid].region == region
    && v.sessions[sid].lastSeen != 0 && now - v.sessions[sid].lastSeen < 300_000_000_000
  }

  /** A region is live if and only if it has such a viewer. */
  lemma LiveRegionsAre(v: View, now: int, region: Bytes)
    ensures region in LiveRegions(v, now) <==> region != "" && exists sid :: ViewerOf(v, sid, region, now)
  {
    if sid :| ViewerOf(v, sid, region, now) {
      assert Watches(v, sid, now);
    }
    if region in LiveRegions(v, now) {
      var sid :| sid in v.live && Watches(v, sid, now) && v.sessions[sid].region == region;
      assert ViewerOf(v, sid, region, now);
    }
  }

  predicate Holds(v: View, sid: Bytes, st: Session) {
    sid in v.sessions && v.sessions[sid] == st
  }

  /** A session first heard of starts on klang-valley at 10 seconds, but for what it sets itself. */
  lemma FreshSession(v: View, sid: Bytes, region: Bytes, seconds: int, now: int)
    requires sid !in v.sessions && sid != "" && now != 0
    ensures Holds(Apply(v, Touch(sid, now)), sid, Session("klang-valley", 10, now))
    ensures KnownRegion(region) ==> Holds(Apply(v, SetRegion(sid, region, now)), sid, Session(region, 10, now))
    ensures seconds in {10, 20, 30} ==>
      Holds(Apply(v, SetPollSeconds(sid, seconds, now)), sid, Session("klang-valley", seconds, now))
  {
  }

  /** Calls that change nothing: those for the empty id, refused settings, and a release without a stream. */
  lemma NothingChanges(v: View, sid: Bytes, region: Bytes, seconds: int, now: int)
    ensures Apply(v, Touch("", now)) == Apply(v, Acquire("")) == Apply(v, Release("")) == v
    ensures !KnownRegion(region) ==> Apply(v, SetRegion(sid, region, now)) == v
    ensures seconds !in {10, 20, 30} ==> Apply(v, SetPollSeconds(sid, seconds, now)) == v
    ensures sid !in v.live ==> Apply(v, Release(sid)) == v
  {
    assert sid !in v.live ==> v.live - {sid} == v.live;
  }

  // ------------------------------------------------------------- isolation

  predicate Refreshes(op: Op, sid: Bytes) {
    || (op.Touch? && op.sid == sid && sid != "")
    || (op.SetRegion? && op.sid == sid && KnownRegion(op.region))
    || (op.SetPollSeconds? && op.sid == sid && NormalizePollSeconds(op.seconds).Some?)
  }

  /** Every timed operation comes less than the idle limit after the session last reported. */
  predicate Attentive(ops: seq<Op>, sid: Bytes, last: int) {
    |ops| == 0 || (
      var op := ops[0];
      if op.Acquire? || op.Release? then Attentive(ops[1..], sid, last)
      else
        && op.now - last < SESSION_IDLE_TTL
        && (Refreshes(op, sid) ==> op.now != 0)
        && Attentive(ops[1..], sid, if Refreshes(op, sid) then op.now else last))
  }

  /** The region a session last chose itself. */
  function ChosenRegion(ops: seq<Op>, sid: Bytes, initial: Bytes): Bytes {
    if |ops| == 0 then initial
    else ChosenRegion(ops[1..], sid,
                      if ops[0].SetRegion? && Refreshes(ops[0], sid) then ops[0].region else initial)
  }

  function ChosenPollSeconds(ops: seq<Op>, sid: Bytes, initial: int): int {
    if |ops| == 0 then initial
    else ChosenPollSeconds(ops[1..], sid,
                           if ops[0].SetPollSeconds? && Refreshes(ops[0], sid) then ops[0].seconds else initial)
  }

  /** One operation, of whatever session, less than the idle limit after sid last reported. */
  lemma StepIsolated(v: View, op: Op, sid: Bytes)
    requires ValidView(v) && sid in v.sessions && v.sessions[sid].lastSeen != 0
    requires op.Acquire? || op.Release? || op.now - v.sessions[sid].lastSeen < SESSION_IDLE_TTL
    requires Refreshes(op, sid) ==> op.now != 0
    ensures var (was, w) := (v.sessions[sid], Apply(v, op).sessions);
            && sid in w
            && w[sid] == Session(
                           if op.SetRegion? && Refreshes(op, sid) then op.region else was.region,
                           if op.SetPollSeconds? && Refreshes(op, sid) then op.seconds else was.pollSeconds,
                           if Refreshes(op, sid) then op.now else was.lastSeen)
  {
  }

  /** A session that keeps reporting keeps its own choices, whatever all other sessions do. */
  lemma {:induction false} SessionIsolated(v: View, ops: seq<Op>, sid: Bytes)
    requires ValidView(v) && sid in v.sessions && v.sessions[sid].lastSeen != 0
    requires Attentive(ops, sid, v.sessions[sid].lastSeen)
    ensures var w := Run(v, ops);
            && sid in w.sessions
            && w.sessions[sid].region == ChosenRegion(ops, sid, v.sessions[sid].region)
            && w.sessions[sid].pollSeconds == ChosenPollSeconds(ops, sid, v.sessions[sid].pollSeconds)
    decreases ops
  {
    if |ops| > 0 {
      hide Apply, ValidView;
      ApplyValid(v, ops[0]);
      AttentiveNow(ops, sid, v.sessions[sid].lastSeen);
      StepIsolated(v, ops[0], sid);
      hide Refreshes;
      SessionIsolated(Apply(v, ops[0]), ops[1..], sid);
    }
  }

  lemma AttentiveNow(ops: seq<Op>, sid: Bytes, last: int)
    requires |ops| > 0 && Attentive(ops, sid, last)
    ensures var op := ops[0];
            && (op.Acquire? || op.Release? || op.now - last < SESSION_IDLE_TTL)
            && (Refreshes(op, sid) ==> op.now != 0)
            && Attentive(ops[1..], sid, if Refreshes(op, sid) then op.now else last)
  {
  }

  /** The limit is exact: a read keeps a session, as it is, if and only if it has reported and has been
      silent for less than five minutes. */
  lemma IdleSessionDropped(v: View, sid: Bytes, now: int)
    requires sid in v.sessions
    ensures var w := Apply(v, Read(now)).sessions;
            && (sid in w <==> v.sessions[sid].lastSeen != 0 && now - v.sessions[sid].lastSeen < 300_000_000_000)
            && (sid in w ==> w[sid] == v.sessions[sid])
  {
  }

  // ----------------------------------------------------------- live counts

  /** Streams open after ops, when each stream acquires once and releases once after that. */
  function OpenStreams(ops: seq<Op>, sid: Bytes, open: int): int {
    if |ops| == 0 then open
    else OpenStreams(ops[1..], sid, open + Delta(ops[0], sid))
  }

  function Delta(op: Op, sid: Bytes): int {
    if op.Acquire? && op.sid == sid then 1 else if op.Release? && op.sid == sid then -1 else 0
  }

  /** No stream releases before it acquired. */
  predicate Matched(ops: seq<Op>, sid: Bytes, open: int) {
    |ops| == 0 || (open + Delta(ops[0], sid) >= 0 && Matched(ops[1..], sid, open + Delta(ops[0], sid)))
  }

  /** The reference count is the number of open streams, never stored when it is zero. */
  lemma {:induction false} LiveCountsStreams(v: View, ops: seq<Op>, sid: Bytes)
    requires ValidView(v) && sid != ""
    requires Matched(ops, sid, LiveCount(v, sid))
    ensures LiveCount(Run(v, ops), sid) == OpenStreams(ops, sid, LiveCount(v, sid))
    ensures sid in Run(v, ops).live <==> OpenStreams(ops, sid, LiveCount(v, sid)) > 0
    decreases ops
  {
    if |ops| > 0 {
      ApplyValid(v, ops[0]);
      assert LiveCount(Apply(v, ops[0]), sid) == LiveCount(v, sid) + Delta(ops[0], sid);
      LiveCountsStreams(Apply(v, ops[0]), ops[1..], sid);
    }
  }

  // -------------------------------------------------------------- the store

  class SessionStore {
    var sessions: map<Bytes, Session>
    var live: map<Bytes, int>

    constructor ()
      ensures ViewOf() == View(map[], map[])
    {
      sessions := map[];
      live := map[];
    }

    ghost function ViewOf(): View
      reads this
    {
      View(sessions, live)
    }

    method PruneExpired(now: int) returns (removed: bool)
      modifies this`sessions
      ensures ViewOf() == Pruned(old(ViewOf()), now)
      ensures removed <==> exists sid :: sid in old(sessions) && Expired(old(sessions)[sid], now)
    {
      removed := false;
      ghost var was := sessions;
      var todo := sessions.Keys;
      while todo != {}
        invariant todo <= was.Keys
        invariant sessions == map sid | sid in was && (sid in todo || !Expired(was[sid], now)) :: was[sid]
        invariant removed <==> exists sid :: sid in was && sid !in todo && Expired(was[sid], now)
      {
        var sid :| sid in todo;
        if Expired(sessions[sid], now) {
          sessions := sessions - {sid};
          removed := true;
        }
        todo := todo - {sid};
      }
    }

    method TouchSession(sid: Bytes, now: int)
      modifies this`sessions
      ensures ViewOf() == Apply(old(ViewOf()), Touch(sid, now))
    {
      if sid == "" {
        return;
      }
      var st := if sid in sessions then sessions[sid] else DefaultState(now);
      sessions := sessions[sid := st.(lastSeen := now)];
      var _ := PruneExpired(now);
    }

    method AcquireLive(sid: Bytes)
      modifies this`live
      ensures ViewOf() == Apply(old(ViewOf()), Acquire(sid))
    {
      if sid == "" {
        return;
      }
      live := live[sid := (if sid in live then live[sid] else 0) + 1];
    }

    method ReleaseLive(sid: Bytes)
      modifies this`live
      ensures ViewOf() == Apply(old(ViewOf()), Release(sid))
    {
      if sid == "" {
        return;
      }
      var n := (if sid in live then live[sid] else 0) - 1;
      if n <= 0 {
        live := live - {sid};
        return;
      }
      live := live[sid := n];
    }

    /** The error result is true for an unknown region, and then nothing changes, and for a store that
        cannot be persisted, which is changed all the same. */
    method ChooseRegion(sid: Bytes, region: Bytes, now: int, persists: bool) returns (err: bool)
      modifies this`sessions
      ensures ViewOf() == Apply(old(ViewOf()), SetRegion(sid, region, now))
      ensures err <==> !KnownRegion(region) || !persists
    {
      if !KnownRegion(region) {
        return true;
      }
      var st := ReadState(sid, now);
      sessions := sessions[sid := st.(region := region, lastSeen := now)];
      var _ := PruneExpired(now);
      return !persists;
    }

    method ChoosePollSeconds(sid: Bytes, seconds: int, now: int, persists: bool) returns (err: bool)
      modifies this`sessions
      ensures ViewOf() == Apply(old(ViewOf()), SetPollSeconds(sid, seconds, now))
      ensures err <==> seconds !in {10, 20, 30} || !persists
    {
      var n := NormalizePollSeconds(seconds);
      if n.None? {
        return true;
      }
      var st := ReadState(sid, now);
      sessions := sessions[sid := st.(pollSeconds := n.value, lastSeen := now)];
      var _ := PruneExpired(now);
      return !persists;
    }

    method ReadState(sid: Bytes, now: int) returns (st: Session)
      ensures st == StateOf(ViewOf(), sid, now)
    {
      if sid in sessions {
        st := sessions[sid];
        if st.pollSeconds == 0 {
          st := st.(pollSeconds := DEFAULT_POLL_SECONDS);
        }
        return;
      }
      st := DefaultState(now);
    }

    /** The live regions, each once, in the arbitrary order of the map iteration. */
    method LiveRegionIDs(now: int) returns (ids: seq<Bytes>)
      modifies this`sessions
      ensures ViewOf() == Apply(old(ViewOf()), Read(now))
      ensures NoDuplicates(ids)
      ensures (set id | id in ids) == LiveRegions(old(ViewOf()), now)
    {
      ghost var before := ViewOf();
      var _ := PruneExpired(now);
      var seen: set<Bytes> := {};
      ids := [];
      var todo := live.Keys;
      while todo != {}
        invariant todo <= live.Keys
        invariant NoDuplicates(ids) && seen == set id | id in ids
        invariant seen == set sid | sid in live && sid !in todo && Watches(before, sid, now)
                                    && before.sessions[sid].region != "" :: before.sessions[sid].region
      {
        var sid :| sid in todo;
        todo := todo - {sid};
        if live[sid] > 0 && sid in sessions {
          var st := sessions[sid];
          if st.region != "" && !Expired(st, now) && st.region !in seen {
            seen := seen + {st.region};
            ids := ids + [st.region];
          }
        }
      }
    }

    method MinPollIntervalForRegion(region: Bytes, now: int) returns (min: int)
      modifies this`sessions
      ensures ViewOf() == Apply(old(ViewOf()), Read(now))
      ensures min == MinInterval(old(ViewOf()), region, now)
    {
      ghost var before := ViewOf();
      var _ := PruneExpired(now);
      min := 0;
      ghost var done: set<int> := {};
      var todo := live.Keys;
      while todo != {}
        invariant todo <= live.Keys
        invariant done == set sid | sid in live && sid !in todo && Watches(before, sid, now)
                                    && before.sessions[sid].region == region
                                    :: StoredPollSeconds(before.sessions[sid].pollSeconds) * SECOND
        invariant done == {} ==> min == 0
        invariant done != {} ==> IsLeast(min, done) && min > 0
      {
        var sid :| sid in todo;
        todo := todo - {sid};
        if live[sid] > 0 && sid in sessions {
          var st := sessions[sid];
          if st.region == region {
            var d := StoredPollSeconds(st.pollSeconds) * SECOND;
            done := done + {d};
            if min == 0 || d < min {
              min := d;
            }
          }
        }
      }
      assert done == Choices(before, region, now);
    }
  }
}
