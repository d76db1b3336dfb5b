/** One write log, three views: the in-memory index, the durable scan and the replay. */
module Views {
  import opened ByteStrings
  import opened Catalog
  import opened Keys
  import opened Positions
  import opened Pipeline
  import opened Replay

  /** The databases after the writes of log, all flushed. */
  function Databases(agencies: set<Bytes>, log: seq<Position>): map<Bytes, DB> {
    map a | a in agencies :: DB(OfAgency(log, a), |OfAgency(log, a)|)
  }

  /** A log the pipeline accepts: known, colon-free agencies. */
  predicate Accepted(agencies: set<Bytes>, log: seq<Position>) {
    && (forall a :: a in agencies ==> ColonFree(a))
    && (forall i :: 0 <= i < |log| ==> log[i].agency in agencies)
  }

  predicate SameVehicle(p: Position, q: Position) {
    p.agency == q.agency && p.vehicleID == q.vehicleID
  }

  /** Within an agency no two vehicle ids agree up to their first colon; colon-free ids never do. */
  ghost predicate DistinctHeads(log: seq<Position>) {
    forall p, q :: p in log && q in log && SameHead(p, q) ==> p.vehicleID == q.vehicleID
  }

  /** No vehicle reports two times whose nanosecond counts wrap to the same int64. */
  ghost predicate NoWrap(log: seq<Position>) {
    forall p, q :: p in log && q in log && SameVehicle(p, q) && UnixNano(p.timestamp) == UnixNano(q.timestamp)
                   ==> p.timestamp == q.timestamp
  }

  /** Same vehicle, same key. */
  predicate Twin(p: Position, q: Position) {
    SameVehicle(p, q) && UnixNano(p.timestamp) == UnixNano(q.timestamp)
  }

  /** i is the last write of p's vehicle whose nanosecond count wraps to p's. */
  predicate LastTwin(log: seq<Position>, p: Position, i: int) {
    && 0 <= i < |log| && Twin(p, log[i])
    && forall j :: i < j < |log| ==> !Twin(p, log[j])
  }

  /** p is no older than any other position of its vehicle. */
  predicate Newest(log: seq<Position>, p: Position) {
    p in log && forall q :: q in log && SameVehicle(p, q) ==> q.timestamp <= p.timestamp
  }

  /** No vehicle's newest time is overwritten by a write whose nanosecond count wraps to the same int64. */
  predicate NewestSurvive(log: seq<Position>) {
    forall p, i :: p in log && 0 <= i < |log| && Newest(log, p) && LastTwin(log, p, i)
      ==> log[i].timestamp == p.timestamp
  }

  /** In particular when no two times of a vehicle wrap to one count. */
  lemma NoWrapSurvives(log: seq<Position>)
    requires NoWrap(log)
    ensures NewestSurvive(log)
  {
  }

  lemma ColonFreeIDsAreDistinct(log: seq<Position>)
    requires forall p :: p in log ==> ColonFree(p.vehicleID)
    ensures DistinctHeads(log)
  {
  }

  /** Times an int64 of nanoseconds can hold never wrap. */
  lemma RepresentableTimesDoNotWrap(log: seq<Position>)
    requires forall p :: p in log ==> MIN_INT64 <= p.timestamp - UNIX_EPOCH <= MAX_INT64
    ensures NoWrap(log)
  {
    hide UnixNano, SameVehicle;
    forall p | p in log ensures UnixNano(p.timestamp) == p.timestamp - UNIX_EPOCH {
      UnixNanoRange(p.timestamp);
    }
  }

  const YEAR_0: int := -366 * 86_400 * SECOND
  const YEAR_10000: int := 315_537_897_600 * SECOND

  /** Whole seconds of the years JSON can carry, 0 to 9999, never wrap either. */
  lemma WholeSecondsDoNotWrap(log: seq<Position>)
    requires forall p :: p in log ==> p.timestamp % SECOND == 0 && YEAR_0 <= p.timestamp < YEAR_10000
    ensures NoWrap(log)
  {
    hide UnixNano, SameVehicle;
    forall p, q | p in log && q in log && UnixNano(p.timestamp) == UnixNano(q.timestamp)
      ensures p.timestamp == q.timestamp
    {
      WholeSecondsWrap(p.timestamp, q.timestamp);
    }
  }

  /** Equal nanosecond counts are a multiple of 2^64 apart. */
  lemma WrapDistance(s: int, t: int) returns (k: int)
    requires UnixNano(s) == UnixNano(t)
    ensures s - t == k * TWO_TO_64
  {
    k := (s - UNIX_EPOCH) / TWO_TO_64 - (t - UNIX_EPOCH) / TWO_TO_64;
  }

  lemma WholeSecondsWrap(s: int, t: int)
    requires s % SECOND == 0 && t % SECOND == 0
    requires YEAR_0 <= s < YEAR_10000 && YEAR_0 <= t < YEAR_10000
    requires UnixNano(s) == UnixNano(t)
    ensures s == t
  {
    var k := WrapDistance(s, t);
    hide UnixNano;
    assert -18 < k < 18;
    assert s - t == (s / SECOND - t / SECOND) * SECOND;
  }

  lemma DatabasesWellFormed(agencies: set<Bytes>, log: seq<Position>)
    requires Accepted(agencies, log)
    ensures WellFormed(Databases(agencies, log))
  {
    forall a, i | a in agencies && 0 <= i < |OfAgency(log, a)|
      ensures OfAgency(log, a)[i].agency == a
    {
      OfAgencyMember(log, a, OfAgency(log, a)[i]);
    }
  }

  /** What readers can see of the log once it is flushed. */
  ghost function VisibleSet(agencies: set<Bytes>, log: seq<Position>): set<Position> {
    set a, p | a in agencies && p in Contents(OfAgency(log, a)).Values :: p
  }

  /** A result the durable scan, or hydration, may have over the flushed log. */
  ghost predicate ScanOf(agencies: set<Bytes>, log: seq<Position>, scan: Vehicles) {
    OnePerHead(scan, VisibleSet(agencies, log))
  }

  lemma ScanOfPipeline(agencies: set<Bytes>, log: seq<Position>)
    requires Accepted(agencies, log)
    ensures WellFormed(Databases(agencies, log)) && Databases(agencies, log).Keys == agencies
    ensures AllVisible(Databases(agencies, log), agencies) == VisibleSet(agencies, log)
  {
    DatabasesWellFormed(agencies, log);
    var dbs := Databases(agencies, log);
    forall a | a in agencies ensures Visible(dbs[a]) == Contents(OfAgency(log, a)).Values {
      assert dbs[a].Feed() == OfAgency(log, a);
    }
  }

  ghost predicate HasTwin(ps: set<Position>, p: Position) {
    exists q :: q in ps && Twin(p, q)
  }

  /** ps is part of the log and has every vehicle at every time it reported. */
  ghost predicate Faithful(log: seq<Position>, ps: set<Position>) {
    && (forall q :: q in ps ==> q in log)
    && (forall p :: p in log ==> HasTwin(ps, p))
  }

  lemma VisibleFaithful(agencies: set<Bytes>, log: seq<Position>)
    requires Accepted(agencies, log)
    ensures Faithful(log, VisibleSet(agencies, log))
  {
    var ps := VisibleSet(agencies, log);
    forall q | q in ps ensures q in log {
      var a :| a in agencies && q in Contents(OfAgency(log, a)).Values;
      var k :| k in Contents(OfAgency(log, a)) && Contents(OfAgency(log, a))[k] == q;
      ContentsMeaning(OfAgency(log, a), k);
      OfAgencyMember(log, a, q);
    }
    forall p | p in log ensures HasTwin(ps, p) {
      var q := VisibleTwin(agencies, log, p);
    }
  }

  lemma VisibleTwin(agencies: set<Bytes>, log: seq<Position>, p: Position) returns (q: Position)
    requires Accepted(agencies, log) && p in log
    ensures q in VisibleSet(agencies, log) && Twin(p, q)
  {
    var a := p.agency;
    var mine := OfAgency(log, a);
    OfAgencyMember(log, a, p);
    var k := KeyOf(p);
    ContentsMeaning(mine, k);
    var j :| LastUnder(mine, k, j) && Contents(mine)[k] == mine[j];
    q := mine[j];
    OfAgencyMember(log, a, q);
    assert Contents(mine)[k] in Contents(mine).Values;
    PositionKeyInjectiveInAgency(a, p.vehicleID, UnixNano(p.timestamp), q.vehicleID, UnixNano(q.timestamp));
  }

  lemma ValueIff(log: seq<Position>, q: Position)
    ensures q in Contents(log).Values <==> KeyOf(q) in Contents(log) && Contents(log)[KeyOf(q)] == q
  {
    hide KeyOf;
    forall k | k in Contents(log) ensures KeyOf(Contents(log)[k]) == k {
      ContentsMeaning(log, k);
    }
    hide Contents;
  }

  lemma VisibleMember(agencies: set<Bytes>, log: seq<Position>, q: Position)
    ensures q in VisibleSet(agencies, log) <==>
      var kv := Contents(OfAgency(log, q.agency));
      q.agency in agencies && KeyOf(q) in kv && kv[KeyOf(q)] == q
  {
    hide KeyOf, Contents, OfAgency;
    ValueIff(OfAgency(log, q.agency), q);
    if q in VisibleSet(agencies, log) {
      var a :| a in agencies && q in Contents(OfAgency(log, a)).Values;
      ValueIff(OfAgency(log, a), q);
      ContentsMeaning(OfAgency(log, a), KeyOf(q));
      OfAgencyMember(log, a, q);
    }
  }

  lemma TwinKeys(p: Position, q: Position)
    requires p.agency == q.agency
    ensures KeyOf(p) == KeyOf(q) <==> Twin(p, q)
  {
    if KeyOf(p) == KeyOf(q) {
      PositionKeyInjectiveInAgency(p.agency, p.vehicleID, UnixNano(p.timestamp), q.vehicleID, UnixNano(q.timestamp));
    }
  }

  lemma ContentsSnoc(front: seq<Position>, p: Position, a: Bytes)
    ensures Contents(OfAgency(front + [p], a)) ==
      if p.agency == a then Contents(OfAgency(front, a))[KeyOf(p) := p] else Contents(OfAgency(front, a))
  {
    hide KeyOf;
    var all, mine := front + [p], OfAgency(front, a);
    assert all[..|all| - 1] == front && all[|all| - 1] == p;
    assert OfAgency(all, a) == mine + (if p.agency == a then [p] else []);
    if p.agency == a {
      assert (mine + [p])[..|mine + [p]| - 1] == mine;
    } else {
      assert mine + [] == mine;
    }
  }

  /** A write hides its twin and nothing else. */
  lemma VisibleSnoc(agencies: set<Bytes>, front: seq<Position>, p: Position, q: Position)
    requires p.agency in agencies
    ensures q in VisibleSet(agencies, front + [p]) <==> q == p || (q in VisibleSet(agencies, front) && !Twin(p, q))
  {
    hide KeyOf, Contents, OfAgency, VisibleSet;
    VisibleMember(agencies, front + [p], q);
    VisibleMember(agencies, front, q);
    ContentsSnoc(front, p, q.agency);
    if p.agency == q.agency {
      TwinKeys(p, q);
    }
  }

  lemma {:induction false} VisibleIsLast(agencies: set<Bytes>, log: seq<Position>, q: Position)
    requires Accepted(agencies, log)
    ensures q in VisibleSet(agencies, log) <==> exists i :: LastTwin(log, q, i) && log[i] == q
  {
    if |log| == 0 {
      assert OfAgency(log, q.agency) == [];
      VisibleMember(agencies, log, q);
    } else {
      var n := |log| - 1;
      var front, p := log[..n], log[n];
      assert log == front + [p];
      VisibleIsLast(agencies, front, q);
      VisibleSnoc(agencies, front, p, q);
      hide VisibleSet, UnixNano;
      if i :| LastTwin(front, q, i) && front[i] == q && !Twin(p, q) {
        assert LastTwin(log, q, i) && log[i] == q;
      }
      if q == p {
        assert LastTwin(log, q, n);
      }
      if i :| LastTwin(log, q, i) && log[i] == q {
        assert i < n ==> LastTwin(front, q, i) && front[i] == q;
      }
    }
  }

  /** The last of p's twins. */
  lemma {:induction false} LastTwinOf(log: seq<Position>, p: Position) returns (i: int)
    requires p in log
    ensures LastTwin(log, p, i)
  {
    var n := |log| - 1;
    hide UnixNano;
    if Twin(p, log[n]) {
      i := n;
    } else {
      assert p in log[..n];
      i := LastTwinOf(log[..n], p);
    }
  }

  lemma TwinOfTwin(log: seq<Position>, p: Position, q: Position, i: int)
    requires Twin(p, q)
    ensures LastTwin(log, p, i) <==> LastTwin(log, q, i)
  {
    hide UnixNano;
  }

  // ------------------------------------------------------- scan and index

  lemma CoverOf(m: Vehicles, p: Position) returns (k: Bytes)
    requires Covers(m, p)
    ensures k in m && SameHead(m[k], p) && p.timestamp <= m[k].timestamp
  {
    k :| k in m && SameHead(m[k], p) && p.timestamp <= m[k].timestamp;
  }

  lemma TwinOf(ps: set<Position>, p: Position) returns (q: Position)
    requires HasTwin(ps, p)
    ensures q in ps && Twin(p, q)
  {
    q :| q in ps && Twin(p, q);
  }

  /** With distinct heads the scan has each vehicle of the log under its own key. */
  lemma ScanHas(log: seq<Position>, scan: Vehicles, ps: set<Position>, p: Position)
    requires Faithful(log, ps) && OnePerHead(scan, ps) && DistinctHeads(log) && p in log
    ensures VehicleKey(p) in scan && SameVehicle(scan[VehicleKey(p)], p) && scan[VehicleKey(p)] in log
    ensures p in ps ==> p.timestamp <= scan[VehicleKey(p)].timestamp
  {
    hide HasTwin, Covers, UnixNano, Head, DistinctHeads;
    var q := p;
    if p !in ps {
      q := TwinOf(ps, p);
    }
    var k := CoverOf(scan, q);
    assert scan[k] in log && q in log;
    HeadsDecide(log, scan[k], q);
    assert VehicleKey(scan[k]) == k == VehicleKey(p);
  }

  lemma HeadsDecide(log: seq<Position>, p: Position, q: Position)
    requires DistinctHeads(log) && p in log && q in log && SameHead(p, q)
    ensures SameVehicle(p, q)
  {
  }

  /** Two ids that agree up to their first colon cannot both be in the scan. */
  lemma ScanTellsApart(log: seq<Position>, scan: Vehicles, ps: set<Position>, p: Position, q: Position)
    requires OnePerHead(scan, ps) && Faithful(log, ps)
    requires forall r :: r in log ==> ColonFree(r.agency)
    requires p in log && q in log && SameHead(p, q) && VehicleKey(p) in scan && VehicleKey(q) in scan
    ensures p.vehicleID == q.vehicleID
  {
    hide HasTwin, Covers, Head;
    var k, l := VehicleKey(p), VehicleKey(q);
    assert scan[k] in log && scan[l] in log;
    VehicleKeyInjective(scan[k], p);
    VehicleKeyInjective(scan[l], q);
    assert SameHead(scan[k], scan[l]);
    VehicleKeyInjective(p, q);
  }

  lemma SeenMember(log: seq<Position>, k: Bytes)
    requires k in Seen(map[], log)
    ensures Seen(map[], log)[k] in log && VehicleKey(Seen(map[], log)[k]) == k
  {
  }

  lemma SeenCovers(log: seq<Position>, p: Position)
    requires p in log
    ensures var seen := Seen(map[], log);
            VehicleKey(p) in seen && p.timestamp <= seen[VehicleKey(p)].timestamp
  {
  }

  lemma ScanMember(agencies: set<Bytes>, log: seq<Position>, scan: Vehicles, k: Bytes)
    requires Accepted(agencies, log) && ScanOf(agencies, log, scan) && k in scan
    ensures scan[k] in log && VehicleKey(scan[k]) == k
  {
    VisibleFaithful(agencies, log);
    hide VisibleSet, HasTwin, Covers, VehicleKey;
  }

  lemma VehiclesAgree(agencies: set<Bytes>, log: seq<Position>, scan: Vehicles)
    requires Accepted(agencies, log) && ScanOf(agencies, log, scan) && DistinctHeads(log)
    ensures scan.Keys == Seen(map[], log).Keys
  {
    var seen := Seen(map[], log);
    forall k ensures k in scan <==> k in seen {
      hide Seen, VehicleKey, Accepted, DistinctHeads, VisibleSet, OnePerHead;
      if k in seen {
        SeenMember(log, k);
        VisibleFaithful(agencies, log);
        ScanHas(log, scan, VisibleSet(agencies, log), seen[k]);
      }
      if k in scan {
        ScanMember(agencies, log, scan, k);
        SeenCovers(log, scan[k]);
      }
    }
  }

  /** The durable scan knows the vehicles the index knows exactly when no two ids of an agency
      agree up to their first colon. */
  lemma ScanVehiclesIff(agencies: set<Bytes>, log: seq<Position>, scan: Vehicles)
    requires Accepted(agencies, log) && ScanOf(agencies, log, scan)
    ensures scan.Keys == Seen(map[], log).Keys <==> DistinctHeads(log)
  {
    if DistinctHeads(log) {
      VehiclesAgree(agencies, log, scan);
    }
    if scan.Keys == Seen(map[], log).Keys {
      forall p, q | p in log && q in log && SameHead(p, q) ensures p.vehicleID == q.vehicleID {
        assert forall r :: r in log ==> ColonFree(r.agency);
        VisibleFaithful(agencies, log);
        hide Seen, VehicleKey, VisibleSet, OnePerHead, SameHead, ColonFree, DistinctHeads, Faithful;
        SeenCovers(log, p);
        SeenCovers(log, q);
        assert VehicleKey(p) in scan.Keys && VehicleKey(q) in scan.Keys;
        ScanTellsApart(log, scan, VisibleSet(agencies, log), p, q);
      }
    }
  }

  /** With distinct heads and surviving newest times the scan holds a latest position of every vehicle. */
  lemma ScanAgreesWithIndex(agencies: set<Bytes>, log: seq<Position>, scan: Vehicles)
    requires Accepted(agencies, log) && ScanOf(agencies, log, scan)
    requires DistinctHeads(log) && NewestSurvive(log)
    ensures LatestOf(scan, Elements(log))
    ensures TimesAgree(scan, Seen(map[], log))
  {
    forall p | p in log
      ensures VehicleKey(p) in scan && p.timestamp <= scan[VehicleKey(p)].timestamp
    {
      hide *;
      ScanHasLog(agencies, log, scan, p);
    }
    forall k | k in scan ensures scan[k] in log && VehicleKey(scan[k]) == k {
      hide *;
      ScanMember(agencies, log, scan, k);
    }
    LatestFromParts(scan, log);
    SeenIsLatest(log);
    hide *;
    LatestAgree(scan, Seen(map[], log), Elements(log));
  }

  /** The index's position of a vehicle is one of its newest. */
  lemma SeenIsNewest(agencies: set<Bytes>, log: seq<Position>, p: Position)
    requires Accepted(agencies, log) && p in log
    ensures var k := VehicleKey(p);
            && k in Seen(map[], log) && Newest(log, Seen(map[], log)[k]) && SameVehicle(p, Seen(map[], log)[k])
            && p.timestamp <= Seen(map[], log)[k].timestamp
  {
    var k, seen := VehicleKey(p), Seen(map[], log);
    SeenCovers(log, p);
    SeenMember(log, k);
    hide Seen;
    assert forall q :: q in log ==> ColonFree(q.agency);
    VehicleKeyInjective(p, seen[k]);
    forall q | q in log && SameVehicle(seen[k], q) ensures q.timestamp <= seen[k].timestamp {
      SeenCovers(log, q);
    }
  }

  lemma ScanHasLog(agencies: set<Bytes>, log: seq<Position>, scan: Vehicles, p: Position)
    requires Accepted(agencies, log) && ScanOf(agencies, log, scan)
    requires DistinctHeads(log) && NewestSurvive(log) && p in log
    ensures VehicleKey(p) in scan && p.timestamp <= scan[VehicleKey(p)].timestamp
  {
    SeenIsNewest(agencies, log, p);
    VisibleFaithful(agencies, log);
    var newest := Seen(map[], log)[VehicleKey(p)];
    hide Seen, VisibleSet, DistinctHeads, OnePerHead, Faithful, Accepted, UnixNano, Newest;
    var i := LastTwinOf(log, newest);
    TwinOfTwin(log, newest, log[i], i);
    VisibleIsLast(agencies, log, log[i]);
    ScanHas(log, scan, VisibleSet(agencies, log), log[i]);
  }

  lemma AgreementSurvives(agencies: set<Bytes>, log: seq<Position>, scan: Vehicles, p: Position, i: int)
    requires Accepted(agencies, log) && ScanOf(agencies, log, scan) && TimesAgree(scan, Seen(map[], log))
    requires p in log && Newest(log, p) && LastTwin(log, p, i)
    ensures log[i].timestamp == p.timestamp
  {
    var k := VehicleKey(p);
    SeenIsNewest(agencies, log, p);
    ScanMember(agencies, log, scan, k);
    assert scan[k] in VisibleSet(agencies, log);
    hide Seen, VisibleSet, OnePerHead, UnixNano;
    assert ColonFree(p.agency) && ColonFree(scan[k].agency);
    VehicleKeyInjective(p, scan[k]);
    assert scan[k].timestamp == p.timestamp && Twin(p, scan[k]);
    VisibleIsLast(agencies, log, scan[k]);
    var j :| LastTwin(log, scan[k], j) && log[j] == scan[k];
    TwinOfTwin(log, p, scan[k], j);
    assert !(i < j) && !(j < i);
  }

  /** The scan agrees with the index on vehicles and timestamps if and only if heads are distinct and no
      vehicle's newest time is overwritten by one that wraps to the same key. */
  lemma ScanTimesIff(agencies: set<Bytes>, log: seq<Position>, scan: Vehicles)
    requires Accepted(agencies, log) && ScanOf(agencies, log, scan)
    ensures TimesAgree(scan, Seen(map[], log)) <==> DistinctHeads(log) && NewestSurvive(log)
  {
    ScanVehiclesIff(agencies, log, scan);
    if DistinctHeads(log) && NewestSurvive(log) {
      ScanAgreesWithIndex(agencies, log, scan);
    }
    if TimesAgree(scan, Seen(map[], log)) {
      hide ScanOf, DistinctHeads, Newest, LastTwin, Seen, Accepted;
      forall p, i | p in log && 0 <= i < |log| && Newest(log, p) && LastTwin(log, p, i)
        ensures log[i].timestamp == p.timestamp
      {
        AgreementSurvives(agencies, log, scan, p, i);
      }
    }
  }

  lemma LatestFromParts(m: Vehicles, log: seq<Position>)
    requires forall p :: p in log ==> VehicleKey(p) in m && p.timestamp <= m[VehicleKey(p)].timestamp
    requires forall k :: k in m ==> m[k] in log && VehicleKey(m[k]) == k
    ensures LatestOf(m, Elements(log))
  {
  }

  /** Two times that wrap to one key are enough for the scan to fall behind the index. */
  lemma WrappedTimesDiverge(p: Position, q: Position, scan: Vehicles)
    requires ColonFree(p.agency) && SameVehicle(p, q)
    requires q.timestamp < p.timestamp && UnixNano(p.timestamp) == UnixNano(q.timestamp)
    requires ScanOf({p.agency}, [p, q], scan)
    ensures !TimesAgree(scan, Seen(map[], [p, q]))
  {
    var log := [p, q];
    SeenIsLatest(log);
    assert log[0] == p && log[1] == q;
    OnlyLastVisible(p, q);
    var k := VehicleKey(p);
    if k in scan {
      assert scan[k] == q;
    }
    assert p in Elements(log);
  }

  /** A time in the year 1500; 2^64 nanoseconds later is in the year 2084. */
  const IN_1500: int := 47_304_000_000 * SECOND

  /** Both years pass through JSON, and writing the later time first loses it: the scan shows 1500. */
  lemma YearsCanWrap(p: Position, q: Position, scan: Vehicles)
    requires ColonFree(p.agency) && SameVehicle(p, q)
    requires q.timestamp == IN_1500 && p.timestamp == IN_1500 + TWO_TO_64
    requires ScanOf({p.agency}, [p, q], scan)
    ensures 0 <= q.timestamp < p.timestamp < YEAR_10000
    ensures !TimesAgree(scan, Seen(map[], [p, q]))
  {
    WrappedTimesDiverge(p, q, scan);
  }

  lemma OnlyLastVisible(p: Position, q: Position)
    requires SameVehicle(p, q) && UnixNano(p.timestamp) == UnixNano(q.timestamp)
    ensures VisibleSet({p.agency}, [p, q]) == {q}
  {
    var log, a := [p, q], p.agency;
    assert log[..1] == [p] && [p][..0] == [];
    assert OfAgency([p], a) == [] + [p] == [p];
    assert OfAgency(log, a) == [p] + [q] == log;
    OverwrittenContents(p, q);
  }

  /** A second put under the same key leaves only itself. */
  lemma OverwrittenContents(p: Position, q: Position)
    requires KeyOf(p) == KeyOf(q)
    ensures Contents([p, q]).Values == {q}
  {
    var log, m := [p, q], Contents([p, q]);
    hide KeyOf;
    assert [p][..0] == [];
    assert Contents([p]) == map[KeyOf(p) := p];
    assert log[..|log| - 1] == [p] && log[|log| - 1] == q;
    assert m == Contents([p])[KeyOf(q) := q];
    assert m == map[KeyOf(q) := q];
    assert m[KeyOf(q)] == q;
  }

  // ---------------------------------------------------------------- restart

  /** Flushing, restarting from the scan and writing on gives the vehicles and timestamps of never
      restarting, whatever orders the maps are met in. */
  lemma RestartTransparent(agencies: set<Bytes>, before: seq<Position>, hydrated: Vehicles, more: seq<Position>)
    requires Accepted(agencies, before) && DistinctHeads(before) && NewestSurvive(before)
    requires ScanOf(agencies, before, hydrated)
    ensures TimesAgree(Seen(hydrated, more), Seen(map[], before + more))
  {
    ScanAgreesWithIndex(agencies, before, hydrated);
    SeenKeepsAgreement(hydrated, Seen(map[], before), more);
    SeenAppend(map[], before, more);
  }

  /** The condition is exact: a restart goes unnoticed whatever is written after it if and only if the
      scan agreed with the index before it. */
  lemma RestartTransparentIff(agencies: set<Bytes>, before: seq<Position>, hydrated: Vehicles)
    requires Accepted(agencies, before) && ScanOf(agencies, before, hydrated)
    ensures (forall more :: TimesAgree(Seen(hydrated, more), Seen(map[], before + more)))
        <==> DistinctHeads(before) && NewestSurvive(before)
  {
    ScanTimesIff(agencies, before, hydrated);
    hide TimesAgree, Accepted, ScanOf, DistinctHeads, NewestSurvive;
    if DistinctHeads(before) && NewestSurvive(before) {
      forall more ensures TimesAgree(Seen(hydrated, more), Seen(map[], before + more)) {
        RestartTransparent(agencies, before, hydrated, more);
      }
    } else {
      assert before + [] == before && Seen(hydrated, []) == hydrated;
    }
  }

  function EmptyDatabases(agencies: set<Bytes>): map<Bytes, DB> {
    map a | a in agencies :: DB([], 0)
  }

  /** Writing a log to empty databases and flushing them gives the databases the laws speak of. */
  lemma FlushedWritesAre(agencies: set<Bytes>, log: seq<Position>, s: State, s': State)
    requires s.agencies == EmptyDatabases(agencies) && Wrote(s, s', log)
    ensures (map a | a in s'.agencies :: Flushed(s'.agencies[a])) == Databases(agencies, log)
  {
    forall a | a in agencies ensures s'.agencies[a].log == OfAgency(log, a) {
      assert [] + OfAgency(log, a) == OfAgency(log, a);
    }
  }

  lemma EmptyIsWellFormed(agencies: set<Bytes>)
    requires Accepted(agencies, [])
    ensures WellFormed(EmptyDatabases(agencies)) && EmptyDatabases(agencies).Keys == agencies
    ensures AllVisible(EmptyDatabases(agencies), agencies) == {}
  {
  }

  lemma EmptyIndex(m: Vehicles)
    requires OnePerHead(m, {})
    ensures m == map[]
  {
  }

  lemma AcceptedParts(agencies: set<Bytes>, before: seq<Position>, more: seq<Position>)
    requires Accepted(agencies, before + more)
    ensures Accepted(agencies, before) && Accepted(agencies, more) && Accepted(agencies, [])
  {
    assert forall i :: 0 <= i < |before| ==> before[i] == (before + more)[i];
    assert forall i :: 0 <= i < |more| ==> more[i] == (before + more)[|before| + i];
  }

  /** Two processes one after the other: the first writes, flushes and scans, the second hydrates and
      writes on. The first one's scan knows its index's vehicles exactly when the id heads are distinct,
      and their times exactly when newest times survive as well; then the second one's index has the
      vehicles and times of one process that wrote everything. */
  method Restarted(agencies: set<Bytes>, before: seq<Position>, more: seq<Position>)
    returns (live: Vehicles, scan: Vehicles, seen: Vehicles)
    requires Accepted(agencies, before + more)
    ensures live == Seen(map[], before)
    ensures scan.Keys == live.Keys <==> DistinctHeads(before)
    ensures TimesAgree(scan, live) <==> DistinctHeads(before) && NewestSurvive(before)
    ensures TimesAgree(scan, live) ==> TimesAgree(seen, Seen(map[], before + more))
  {
    hide Seen, OnePerHead, AllVisible, VisibleSet, WellFormed, Databases, ColonFree, DistinctHeads, NewestSurvive,
      TimesAgree, OfAgency, LastTen;
    AcceptedParts(agencies, before, more);
    EmptyIsWellFormed(agencies);
    var first := new Pipeline(EmptyDatabases(agencies));
    EmptyIndex(first.vehicleSeen);
    ghost var start := first.Value();
    var puts, err := first.Write(before, |before|);
    assert before[..puts] == before;
    live := first.vehicleSeen;
    ghost var wrote := first.Value();
    FlushedWritesAre(agencies, before, start, wrote);
    err := first.FlushAll(_ => false);
    ScanOfPipeline(agencies, before);
    scan := first.ScanLatest();
    ScanVehiclesIff(agencies, before, scan);
    var second := new Pipeline(first.agencies);
    ghost var hydrated := second.vehicleSeen;
    puts, err := second.Write(more, |more|);
    assert more[..puts] == more;
    ScanTimesIff(agencies, before, scan);
    if DistinctHeads(before) && NewestSurvive(before) {
      RestartTransparent(agencies, before, hydrated, more);
    }
    seen := second.vehicleSeen;
  }

  // ----------------------------------------------------------------- replay

  /** The last of the positions under a vehicle key. */
  ghost predicate LastOf(m: Vehicles, ps: seq<Position>) {
    && (forall k :: k in m ==> exists i :: IsLast(ps, k, i) && m[k] == ps[i])
    && (forall p :: p in ps ==> VehicleKey(p) in m)
  }

  predicate IsLast(ps: seq<Position>, k: Bytes, i: int) {
    && 0 <= i < |ps| && VehicleKey(ps[i]) == k
    && forall j :: i < j < |ps| ==> VehicleKey(ps[j]) != k
  }

  lemma {:induction false} MergeIsLast(ps: seq<Position>)
    ensures LastOf(Merge(map[], ps), ps)
  {
    if |ps| > 0 {
      var n := |ps| - 1;
      MergeIsLast(ps[..n]);
      assert ps == ps[..n] + [ps[n]];
      LastOfSnoc(Merge(map[], ps[..n]), ps[..n], ps[n]);
    }
  }

  lemma LastOfSnoc(m: Vehicles, front: seq<Position>, p: Position)
    requires LastOf(m, front)
    ensures LastOf(m[VehicleKey(p) := p], front + [p])
  {
    hide VehicleKey;
    var all, key := front + [p], VehicleKey(p);
    assert IsLast(all, key, |front|);
    forall k | k in m && k != key ensures exists i :: IsLast(all, k, i) && m[k] == all[i] {
      var i :| IsLast(front, k, i) && m[k] == front[i];
      assert IsLast(all, k, i);
    }
  }

  lemma OrderIsTimed(mutations: seq<Position>, sorted: seq<Position>)
    requires IsReplayOrder(mutations, sorted)
    ensures TimeOrdered(sorted)
    ensures forall p :: p in sorted <==> p in mutations
  {
    hide At;
    forall i, j | 0 <= i < j < |sorted| ensures At(sorted[i]) <= At(sorted[j]) {
      assert !ReplayLess(sorted[j], sorted[i]);
    }
    forall p ensures p in sorted <==> p in mutations {
      assert p in sorted <==> p in multiset(sorted);
      assert p in mutations <==> p in multiset(mutations);
    }
  }

  lemma {:induction false} WithinAll(ps: seq<Position>)
    ensures Within(ps, 0) == ps
  {
    if |ps| > 0 {
      WithinAll(ps[..|ps| - 1]);
      assert ps == ps[..|ps| - 1] + [ps[|ps| - 1]];
    }
  }

  /** The region's mutations are the log's positions of its agencies. */
  lemma {:induction false} MutationMember(agencies: set<Bytes>, log: seq<Position>, region: seq<Bytes>, p: Position)
    requires Accepted(agencies, log)
    ensures p in Mutations(Databases(agencies, log), region, 0) <==> p in log && p.agency in region
  {
    if |region| > 0 {
      var n := |region| - 1;
      MutationMember(agencies, log, region[..n], p);
      assert region == region[..n] + [region[n]];
      if region[n] in agencies {
        var db := Databases(agencies, log)[region[n]];
        assert db.Feed() == OfAgency(log, region[n]);
        WithinAll(db.Feed());
        OfAgencyMember(log, region[n], p);
      }
    }
  }

  /** What the last frame of a full replay of a region shows. */
  function LastFrame(sorted: seq<Position>, region: seq<Bytes>): Vehicles {
    Restrict(Merge(map[], sorted), set a | a in region)
  }

  /** The last snapshot sent is that of all mutations; nothing is sent when there are none. */
  lemma LastSnapshot(sorted: seq<Position>, region: seq<Bytes>)
    ensures var all := Emission(Bucket(sorted), 0, set a | a in region);
            (|all| == 0 <==> |sorted| == 0)
            && (|all| > 0 ==> all[|all| - 1].positions == LastFrame(sorted, region))
  {
    hide Emission, Split, Bucket, Restrict, Merge;
    var frames, regions := Bucket(sorted), set a | a in region;
    BucketMeaning(sorted);
    EmissionIndex(frames, 0, regions);
    FramesOfNothing(sorted);
    if |frames| > 0 {
      SnapshotNumbered(frames, 0, regions, |frames| - 1);
      assert frames[..|frames|] == frames;
    }
  }

  lemma FramesOfNothing(sorted: seq<Position>)
    ensures |Bucket(sorted)| == 0 <==> |sorted| == 0
  {
    BucketMeaning(sorted);
  }

  lemma AtMonotone(p: Position, q: Position)
    requires p.timestamp <= q.timestamp
    ensures At(p) <= At(q)
  {
  }

  /** The last frame of a full replay, whatever the unstable sort did, shows the index's vehicles of
      the region, each at the index's time truncated to the second. */
  lemma ReplayAgreesWithIndex(agencies: set<Bytes>, log: seq<Position>, region: seq<Bytes>, sorted: seq<Position>)
    requires Accepted(agencies, log)
    requires IsReplayOrder(Mutations(Databases(agencies, log), region, 0), sorted)
    ensures var (last, seen) := (LastFrame(sorted, region), Restrict(Seen(map[], log), set a | a in region));
            && last.Keys == seen.Keys
            && forall k :: k in last ==> last[k] in log && SameVehicle(last[k], seen[k]) && At(last[k]) == At(seen[k])
  {
    var merged, seen := Merge(map[], sorted), Seen(map[], log);
    OrderIsTimed(Mutations(Databases(agencies, log), region, 0), sorted);
    forall p ensures p in sorted <==> p in log && p.agency in region {
      MutationMember(agencies, log, region, p);
    }
    hide Seen, Merge, Mutations, IsReplayOrder, Databases, At, VehicleKey;
    forall k | k in merged
      ensures k in seen && merged[k] in log && merged[k].agency in region && SameVehicle(merged[k], seen[k])
      ensures At(merged[k]) == At(seen[k])
    {
      ReplayMatch(agencies, log, region, sorted, k);
    }
    forall k | k in seen && seen[k].agency in region ensures k in merged {
      SeenMember(log, k);
      MergeIsLast(sorted);
    }
  }

  lemma ReplayMatch(agencies: set<Bytes>, log: seq<Position>, region: seq<Bytes>, sorted: seq<Position>, k: Bytes)
    requires Accepted(agencies, log) && TimeOrdered(sorted)
    requires forall p :: p in sorted <==> p in log && p.agency in region
    requires k in Merge(map[], sorted)
    ensures var (merged, seen) := (Merge(map[], sorted), Seen(map[], log));
            && k in seen && merged[k] in log && merged[k].agency in region
            && SameVehicle(merged[k], seen[k]) && At(merged[k]) == At(seen[k])
  {
    hide Seen, Merge, At, VehicleKey, ColonFree;
    var merged, seen := Merge(map[], sorted), Seen(map[], log);
    MergeIsLast(sorted);
    var i :| IsLast(sorted, k, i) && merged[k] == sorted[i];
    assert sorted[i] in sorted;
    var last := merged[k];
    SeenCovers(log, last);
    SeenMember(log, k);
    VehicleKeyInjective(last, seen[k]);
    AtMonotone(last, seen[k]);
    assert seen[k] in sorted;
    var j :| 0 <= j < |sorted| && sorted[j] == seen[k];
    assert j <= i;
    assert At(sorted[j]) <= At(sorted[i]);
  }

  predicate WrittenIn(log: seq<Position>, region: seq<Bytes>, key: Bytes) {
    exists p :: p in log && p.agency in region && Spelled(p) == key
  }

  lemma SeenInRegion(agencies: set<Bytes>, log: seq<Position>, region: seq<Bytes>, key: Bytes)
    requires Accepted(agencies, log)
    ensures (key in Seen(map[], log) && Seen(map[], log)[key].agency in region) <==> WrittenIn(log, region, key)
  {
    var seen := Seen(map[], log);
    if key in seen {
      SeenMember(log, key);
    }
    if p :| p in log && p.agency in region && Spelled(p) == key {
      SeenCovers(log, p);
      SeenMember(log, key);
      hide Seen;
      assert VehicleKey(p) == Spelled(p);
      assert forall q :: q in log ==> ColonFree(q.agency);
      VehicleKeyInjective(p, seen[key]);
    }
  }

  /** What the last snapshot of a full replay shows, whatever the unstable sort did: nothing is sent if and
      only if the region was never written; otherwise exactly the vehicles written in the region, each at
      one of its own writes of its latest second. */
  lemma LastSnapshotIs(agencies: set<Bytes>, log: seq<Position>, region: seq<Bytes>, sorted: seq<Position>, key: Bytes)
    requires Accepted(agencies, log)
    requires IsReplayOrder(Mutations(Databases(agencies, log), region, 0), sorted)
    ensures var all := Emission(Bucket(sorted), 0, set a | a in region);
            && (|all| == 0 <==> forall p :: p in log ==> p.agency !in region)
            && (|all| > 0 ==>
                  var shown := all[|all| - 1].positions;
                  && (key in shown <==> WrittenIn(log, region, key))
                  && (key in shown ==> shown[key] in log && Spelled(shown[key]) == key)
                  && forall p :: p in log && key in shown && Spelled(p) == key ==>
                       p.timestamp - p.timestamp % 1_000_000_000
                         <= shown[key].timestamp - shown[key].timestamp % 1_000_000_000)
  {
    var seen, last := Seen(map[], log), LastFrame(sorted, region);
    LastSnapshot(sorted, region);
    ReplayAgreesWithIndex(agencies, log, region, sorted);
    SeenInRegion(agencies, log, region, key);
    RegionWritten(agencies, log, region, sorted);
    assert key in Restrict(seen, set a | a in region) <==> key in seen && seen[key].agency in region;
    hide Seen, Emission, Bucket, LastFrame, IsReplayOrder, Databases, Mutations, Restrict;
    if key in last {
      forall p | p in log && Spelled(p) == key
        ensures p.timestamp - p.timestamp % 1_000_000_000 <= last[key].timestamp - last[key].timestamp % 1_000_000_000
      {
        SeenCovers(log, p);
        assert VehicleKey(p) == Spelled(p);
        AtMonotone(p, seen[key]);
      }
      LastIsSpelled(agencies, log, sorted, region, key);
    }
  }

  lemma LastIsSpelled(agencies: set<Bytes>, log: seq<Position>, sorted: seq<Position>, region: seq<Bytes>, key: Bytes)
    requires key in LastFrame(sorted, region)
    ensures Spelled(LastFrame(sorted, region)[key]) == key
  {
    MergeIsLast(sorted);
    hide Merge;
    var i :| IsLast(sorted, key, i) && Merge(map[], sorted)[key] == sorted[i];
  }

  lemma RegionWritten(agencies: set<Bytes>, log: seq<Position>, region: seq<Bytes>, sorted: seq<Position>)
    requires Accepted(agencies, log)
    requires IsReplayOrder(Mutations(Databases(agencies, log), region, 0), sorted)
    ensures |sorted| == 0 <==> forall p :: p in log ==> p.agency !in region
  {
    OrderIsTimed(Mutations(Databases(agencies, log), region, 0), sorted);
    forall p ensures p in sorted <==> p in log && p.agency in region {
      MutationMember(agencies, log, region, p);
    }
    if |sorted| > 0 {
      assert sorted[0] in sorted;
    }
  }

  // ----------------------------------------------------------- all together

  /** No vehicle has two writes in one second. */
  ghost predicate OneWriteASecond(log: seq<Position>) {
    forall i, j :: 0 <= i < j < |log| && SameVehicle(log[i], log[j]) ==> At(log[i]) != At(log[j])
  }

  lemma OneWriteSame(log: seq<Position>, p: Position, q: Position)
    requires OneWriteASecond(log) && p in log && q in log && SameVehicle(p, q) && At(p) == At(q)
    ensures p == q
  {
  }

  /** Then the replay's last frame is the index's part of the region, and the scan is the index if and
      only if heads are distinct and newest times survive: the three views hold the same positions. */
  lemma ThreeViewsAgree(agencies: set<Bytes>, log: seq<Position>, scan: Vehicles, region: seq<Bytes>, sorted: seq<Position>)
    requires Accepted(agencies, log) && OneWriteASecond(log)
    requires ScanOf(agencies, log, scan)
    requires IsReplayOrder(Mutations(Databases(agencies, log), region, 0), sorted)
    ensures LastFrame(sorted, region) == Restrict(Seen(map[], log), set a | a in region)
    ensures scan == Seen(map[], log) <==> DistinctHeads(log) && NewestSurvive(log)
  {
    var seen := Seen(map[], log);
    ScanTimesIff(agencies, log, scan);
    SeenIsLatest(log);
    ReplayAgreesWithIndex(agencies, log, region, sorted);
    assert scan == seen ==> TimesAgree(scan, seen);
    hide *;
    if DistinctHeads(log) && NewestSurvive(log) {
      ScanAgreesWithIndex(agencies, log, scan);
      ScanIsIndex(agencies, log, scan, seen);
    }
    FrameIsPart(log, LastFrame(sorted, region), seen, set a | a in region);
  }

  /** In plain terms: with one write a second, the last snapshot shows what the index shows of the region. */
  lemma LastSnapshotIsIndex(agencies: set<Bytes>, log: seq<Position>, region: seq<Bytes>, sorted: seq<Position>, key: Bytes)
    requires Accepted(agencies, log) && OneWriteASecond(log)
    requires IsReplayOrder(Mutations(Databases(agencies, log), region, 0), sorted)
    ensures var all, seen := Emission(Bucket(sorted), 0, set a | a in region), Seen(map[], log);
            |all| > 0 ==>
              var shown := all[|all| - 1].positions;
              (key in shown <==> key in seen && seen[key].agency in region)
              && (key in shown ==> shown[key] == seen[key])
  {
    var seen := Seen(map[], log);
    LastSnapshot(sorted, region);
    SeenIsLatest(log);
    ReplayAgreesWithIndex(agencies, log, region, sorted);
    assert key in Restrict(seen, set a | a in region) <==> key in seen && seen[key].agency in region;
    hide Seen, Emission, Bucket, LastFrame, IsReplayOrder, Databases, Mutations;
    FrameIsPart(log, LastFrame(sorted, region), seen, set a | a in region);
  }

  lemma FrameIsPart(log: seq<Position>, last: Vehicles, seen: Vehicles, region: set<Bytes>)
    requires OneWriteASecond(log) && LatestOf(seen, Elements(log))
    requires last.Keys == Restrict(seen, region).Keys
    requires forall k :: k in last ==>
      last[k] in log && SameVehicle(last[k], Restrict(seen, region)[k]) && At(last[k]) == At(Restrict(seen, region)[k])
    ensures last == Restrict(seen, region)
  {
  }

  lemma ScanIsIndex(agencies: set<Bytes>, log: seq<Position>, scan: Vehicles, seen: Vehicles)
    requires Accepted(agencies, log) && OneWriteASecond(log)
    requires LatestOf(scan, Elements(log)) && LatestOf(seen, Elements(log))
    ensures scan == seen
  {
    LatestAgree(scan, seen, Elements(log));
    hide ColonFree, VehicleKey, OneWriteASecond;
    forall k | k in scan ensures scan[k] == seen[k] {
      assert scan[k] in log && seen[k] in log;
      VehicleKeyInjective(scan[k], seen[k]);
      OneWriteSame(log, scan[k], seen[k]);
    }
  }
}
