/** The demo pipeline: writes, the in-memory index, restart, and the durable scan. */
module Pipeline {
  import opened ByteStrings
  import opened Keys
  import opened Positions

  const INGEST_CAP: nat := 10

  /** The pipeline as a value: databases by agency and the in-memory state. */
  datatype State = State(agencies: map<Bytes, DB>, eventCount: nat, vehicleSeen: Vehicles, ingest: seq<Position>)

  function RecordIngest(buf: seq<Position>, p: Position): seq<Position> {
    var all := [p] + buf;
    if |all| > INGEST_CAP then all[..INGEST_CAP] else all
  }

  function WriteOne(s: State, p: Position): State
    requires p.agency in s.agencies
  {
    State(s.agencies[p.agency := Put(s.agencies[p.agency], p)], s.eventCount + 1,
          KeepLatest(s.vehicleSeen, p), RecordIngest(s.ingest, p))
  }

  predicate AllKnown(agencies: map<Bytes, DB>, ps: seq<Position>) {
    forall i :: 0 <= i < |ps| ==> ps[i].agency in agencies
  }

  function OfAgency(ps: seq<Position>, agency: Bytes): seq<Position> {
    if |ps| == 0 then []
    else OfAgency(ps[..|ps| - 1], agency) + (if ps[|ps| - 1].agency == agency then [ps[|ps| - 1]] else [])
  }

  /** What a batch of accepted positions amounts to: each database gains its own positions in
      order, and the index absorbs them all. */
  ghost predicate Wrote(s: State, s': State, ps: seq<Position>) {
    && s'.agencies.Keys == s.agencies.Keys
    && (forall a :: a in s.agencies ==>
          s'.agencies[a] == s.agencies[a].(log := s.agencies[a].log + OfAgency(ps, a)))
    && s'.eventCount == s.eventCount + |ps|
    && s'.vehicleSeen == Seen(s.vehicleSeen, ps)
    && s'.ingest == LastTen(s.ingest, ps)
  }

  /** The debug buffer: the newest writes first, ten at most. */
  function LastTen(buf: seq<Position>, ps: seq<Position>): seq<Position> {
    if |ps| == 0 then buf else RecordIngest(LastTen(buf, ps[..|ps| - 1]), ps[|ps| - 1])
  }

  lemma {:induction false} IngestIsNewestFirst(ps: seq<Position>, i: nat)
    ensures |LastTen([], ps)| == if |ps| > 10 then 10 else |ps|
    ensures i < |LastTen([], ps)| ==> LastTen([], ps)[i] == ps[|ps| - 1 - i]
  {
    if |ps| > 0 {
      IngestIsNewestFirst(ps[..|ps| - 1], if i > 0 then i - 1 else 0);
    }
  }

  lemma WroteOne(s: State, s': State, ps: seq<Position>, p: Position)
    requires Wrote(s, s', ps) && p.agency in s'.agencies
    ensures p.agency in s.agencies && Wrote(s, WriteOne(s', p), ps + [p])
  {
    var all := ps + [p];
    assert all[..|all| - 1] == ps && all[|all| - 1] == p;
    hide KeepLatest, RecordIngest;
    var t := WriteOne(s', p);
    forall a | a in s.agencies
      ensures t.agencies[a] == s.agencies[a].(log := s.agencies[a].log + OfAgency(all, a))
    {
      var old_, gain := s.agencies[a].log, OfAgency(ps, a);
      if a == p.agency {
        assert (old_ + gain) + [p] == old_ + (gain + [p]);
      } else {
        assert gain + [] == gain;
      }
    }
  }

  // ------------------------------------------------------ what a scan finds

  /** A database holds positions of its own agency only. */
  ghost predicate Own(agency: Bytes, db: DB) {
    db.Valid() && forall i :: 0 <= i < |db.log| ==> db.log[i].agency == agency
  }

  ghost predicate WellFormed(agencies: map<Bytes, DB>) {
    forall a :: a in agencies ==> ColonFree(a) && Own(a, agencies[a])
  }

  /** The positions a reader of the committed contents can see. */
  ghost function Visible(db: DB): set<Position>
    requires db.Valid()
  {
    Contents(db.Feed()).Values
  }

  ghost function AllVisible(agencies: map<Bytes, DB>, among: set<Bytes>): set<Position>
    requires WellFormed(agencies) && among <= agencies.Keys
  {
    set a, p | a in among && p in Visible(agencies[a]) :: p
  }

  /** m holds, for every vehicle id up to its first colon, one of the latest positions of ps. */
  ghost predicate LatestByHead(m: map<Bytes, Position>, ps: set<Position>) {
    && (forall h :: h in m ==> m[h] in ps && Head(m[h].vehicleID) == h)
    && (forall p :: p in ps ==>
          Head(p.vehicleID) in m && p.timestamp <= m[Head(p.vehicleID)].timestamp)
  }

  predicate SameHead(p: Position, q: Position) {
    p.agency == q.agency && Head(p.vehicleID) == Head(q.vehicleID)
  }

  /** m has a position of p's agency and head, no older than p. */
  ghost predicate Covers(m: Vehicles, p: Position) {
    exists k :: k in m && SameHead(m[k], p) && p.timestamp <= m[k].timestamp
  }

  /** m has one position for each agency and head that occurs in ps, a latest one, under its own
      vehicle key. */
  ghost predicate OnePerHead(m: Vehicles, ps: set<Position>) {
    && (forall k :: k in m ==> m[k] in ps && VehicleKey(m[k]) == k)
    && (forall p :: p in ps ==> Covers(m, p))
    && (forall k, k' :: k in m && k' in m && SameHead(m[k], m[k']) ==> k == k')
  }

  lemma {:induction false} OfAgencyMember(ps: seq<Position>, agency: Bytes, p: Position)
    ensures p in OfAgency(ps, agency) <==> p in ps && p.agency == agency
  {
    if |ps| > 0 {
      assert ps == ps[..|ps| - 1] + [ps[|ps| - 1]];
      OfAgencyMember(ps[..|ps| - 1], agency, p);
    }
  }

  lemma VisibleKeys(a: Bytes, db: DB, k: Bytes)
    requires ColonFree(a) && Own(a, db) && k in Contents(db.Feed())
    ensures var p := Contents(db.Feed())[k];
            k == KeyOf(p) && p in db.log && p.agency == a && VehicleIDFromKey(k) == Head(p.vehicleID)
    ensures InRange(k, AgencyPrefix(a), UpperBound(AgencyPrefix(a)))
  {
    ContentsMeaning(db.Feed(), k);
    var p := Contents(db.Feed())[k];
    var i :| LastUnder(db.Feed(), k, i) && p == db.Feed()[i];
    assert db.Feed()[i] == db.log[i];
    VehicleIDOfKey(a, p.vehicleID, UnixNano(p.timestamp));
    AgencyScanExact(a, k);
  }

  /** Positions of one more agency collide neither with each other nor with those merged before. */
  lemma KeysApart(m: Vehicles, ps: set<Position>, done: set<Bytes>, a: Bytes, latest: map<Bytes, Position>,
                  qs: set<Position>)
    requires OnePerHead(m, ps) && LatestByHead(latest, qs) && a !in done && ColonFree(a)
    requires forall p :: p in ps ==> p.agency in done && ColonFree(p.agency)
    requires forall q :: q in qs ==> q.agency == a
    ensures forall h :: h in latest ==> VehicleKey(latest[h]) !in m
    ensures forall h, h' :: h in latest && h' in latest && VehicleKey(latest[h]) == VehicleKey(latest[h']) ==> h == h'
  {
    hide Head;
    forall h | h in latest ensures VehicleKey(latest[h]) !in m {
      var k := VehicleKey(latest[h]);
      if k in m {
        VehicleKeyInjective(m[k], latest[h]);
        assert false;
      }
    }
    forall h, h' | h in latest && h' in latest && VehicleKey(latest[h]) == VehicleKey(latest[h'])
      ensures h == h'
    {
      VehicleKeyInjective(latest[h], latest[h']);
    }
  }

  /** r is m with the positions under hs merged in, the later of two with one key winning. */
  ghost predicate MergedFrom(m: Vehicles, positions: map<Bytes, Position>, hs: set<Bytes>, r: Vehicles)
    requires hs <= positions.Keys
  {
    && (forall k :: k in m ==> k in r && m[k].timestamp <= r[k].timestamp)
    && (forall h :: h in hs ==>
          var key := VehicleKey(positions[h]);
          key in r && positions[h].timestamp <= r[key].timestamp)
    && (forall k :: k in r ==>
          || (k in m && r[k] == m[k])
          || exists h :: h in hs && VehicleKey(positions[h]) == k && r[k] == positions[h])
  }

  lemma MergedExact(m: Vehicles, latest: map<Bytes, Position>, r: Vehicles)
    requires MergedFrom(m, latest, latest.Keys, r)
    requires forall h :: h in latest ==> VehicleKey(latest[h]) !in m
    requires forall h, h' :: h in latest && h' in latest ==>
      (VehicleKey(latest[h]) == VehicleKey(latest[h']) ==> h == h')
    ensures forall k :: k in m ==> k in r && r[k] == m[k]
    ensures forall h :: h in latest ==> VehicleKey(latest[h]) in r && r[VehicleKey(latest[h])] == latest[h]
    ensures forall k :: k in r && k !in m ==>
      exists h :: h in latest && VehicleKey(latest[h]) == k && r[k] == latest[h]
  {
  }

  lemma MergeCovers(m: Vehicles, ps: set<Position>, latest: map<Bytes, Position>, qs: set<Position>, r: Vehicles,
                    p: Position)
    requires OnePerHead(m, ps) && LatestByHead(latest, qs) && p in ps + qs
    requires forall q, q' :: q in qs && q' in qs ==> q.agency == q'.agency
    requires forall k :: k in m ==> k in r && r[k] == m[k]
    requires forall h :: h in latest ==> VehicleKey(latest[h]) in r && r[VehicleKey(latest[h])] == latest[h]
    ensures Covers(r, p)
  {
  }

  /** Adding one database's result to the merge of the others. */
  lemma MergeAgency(m: Vehicles, ps: set<Position>, done: set<Bytes>, a: Bytes, latest: map<Bytes, Position>,
                    qs: set<Position>, r: Vehicles)
    requires OnePerHead(m, ps) && LatestByHead(latest, qs) && a !in done && ColonFree(a)
    requires forall p :: p in ps ==> p.agency in done && ColonFree(p.agency)
    requires forall q :: q in qs ==> q.agency == a
    requires MergedFrom(m, latest, latest.Keys, r)
    ensures OnePerHead(r, ps + qs)
  {
    KeysApart(m, ps, done, a, latest, qs);
    MergedExact(m, latest, r);
    hide VehicleKey, Head, ColonFree, SameHead, MergedFrom, Covers;
    forall p | p in ps + qs ensures Covers(r, p) {
      hide OnePerHead, LatestByHead;
      MergeCovers(m, ps, latest, qs, r, p);
    }
    MergeDistinct(m, ps, done, a, latest, qs, r);
    MergeMembers(m, ps, latest, qs, r);
  }

  lemma MergeMembers(m: Vehicles, ps: set<Position>, latest: map<Bytes, Position>, qs: set<Position>, r: Vehicles)
    requires OnePerHead(m, ps) && LatestByHead(latest, qs)
    requires forall k :: k in m ==> k in r && r[k] == m[k]
    requires forall k :: k in r && k !in m ==>
      exists h :: h in latest && VehicleKey(latest[h]) == k && r[k] == latest[h]
    ensures forall k :: k in r ==> r[k] in ps + qs && VehicleKey(r[k]) == k
  {
  }

  lemma MergeDistinct(m: Vehicles, ps: set<Position>, done: set<Bytes>, a: Bytes, latest: map<Bytes, Position>,
                      qs: set<Position>, r: Vehicles)
    requires OnePerHead(m, ps) && LatestByHead(latest, qs) && a !in done
    requires forall p :: p in ps ==> p.agency in done
    requires forall q :: q in qs ==> q.agency == a
    requires forall k :: k in m ==> k in r && r[k] == m[k]
    requires forall k :: k in r && k !in m ==>
      exists h :: h in latest && VehicleKey(latest[h]) == k && r[k] == latest[h]
    ensures forall k, k' :: k in r && k' in r && SameHead(r[k], r[k']) ==> k == k'
  {
  }

  lemma VisibleOwn(agencies: map<Bytes, DB>, among: set<Bytes>)
    requires WellFormed(agencies) && among <= agencies.Keys
    ensures forall p :: p in AllVisible(agencies, among) ==> p.agency in among && ColonFree(p.agency)
    ensures forall a, p :: a in among && p in Visible(agencies[a]) ==> p.agency == a && p in agencies[a].log
  {
    forall a, p | a in among && p in Visible(agencies[a])
      ensures p.agency == a && p in agencies[a].log
    {
      var k :| k in Contents(agencies[a].Feed()) && Contents(agencies[a].Feed())[k] == p;
      VisibleKeys(a, agencies[a], k);
    }
  }

  lemma MergeStep(agencies: map<Bytes, DB>, done: set<Bytes>, a: Bytes, m: Vehicles,
                  latest: map<Bytes, Position>, r: Vehicles)
    requires WellFormed(agencies) && done <= agencies.Keys && a in agencies && a !in done
    requires OnePerHead(m, AllVisible(agencies, done)) && LatestByHead(latest, Visible(agencies[a]))
    requires MergedFrom(m, latest, latest.Keys, r)
    ensures OnePerHead(r, AllVisible(agencies, done + {a}))
  {
    var before, here := AllVisible(agencies, done), Visible(agencies[a]);
    assert AllVisible(agencies, done + {a}) == before + here;
    VisibleOwn(agencies, agencies.Keys);
    VisibleOwn(agencies, done);
    hide AllVisible, Visible, OnePerHead, LatestByHead, MergedFrom;
    MergeAgency(m, before, done, a, latest, here, r);
  }

  lemma EmptyScan(agencies: map<Bytes, DB>)
    requires WellFormed(agencies)
    ensures OnePerHead(map[], AllVisible(agencies, {}))
  {
  }

  lemma WriteWellFormed(s: State, p: Position)
    requires WellFormed(s.agencies) && p.agency in s.agencies
    ensures WellFormed(WriteOne(s, p).agencies)
  {
  }

  /** The scan's inner loop: one database's positions join the merge, in arbitrary order. */
  method MergeInto(m: Vehicles, positions: map<Bytes, Position>) returns (merged: Vehicles)
    ensures MergedFrom(m, positions, positions.Keys, merged)
  {
    hide VehicleKey;
    merged := m;
    var todo := positions.Keys;
    while todo != {}
      invariant todo <= positions.Keys
      invariant MergedFrom(m, positions, positions.Keys - todo, merged)
    {
      var h :| h in todo;
      var pos := positions[h];
      var key := VehicleKey(pos);
      if key !in merged || pos.timestamp > merged[key].timestamp {
        merged := merged[key := pos];
      }
      todo := todo - {h};
    }
    assert positions.Keys - todo == positions.Keys;
  }

  // ----------------------------------------------------------- the pipeline

  class Pipeline {
    var agencies: map<Bytes, DB>
    var eventCount: nat
    var vehicleSeen: Vehicles
    var ingest: seq<Position>

    ghost function Value(): State
      reads this
    {
      State(agencies, eventCount, vehicleSeen, ingest)
    }

    ghost predicate Valid()
      reads this
    {
      WellFormed(agencies)
    }

    /** A process starts with the databases as it finds them and rebuilds its index from them. */
    constructor (agencies: map<Bytes, DB>)
      requires WellFormed(agencies)
      ensures Valid() && this.agencies == agencies
      ensures OnePerHead(vehicleSeen, AllVisible(agencies, agencies.Keys))
      ensures eventCount == 0 && ingest == []
    {
      this.agencies := agencies;
      eventCount := 0;
      ingest := [];
      vehicleSeen := map[];
      new;
      vehicleSeen := ScanLatest();
    }

    /** Writes until the first unknown agency or rejected put; `rejected` is the index of the
        first put the store refuses. */
    method Write(positions: seq<Position>, rejected: nat) returns (puts: nat, err: bool)
      requires Valid()
      modifies this
      ensures Valid()
      ensures puts <= |positions| && puts <= rejected
      ensures AllKnown(old(agencies), positions[..puts])
      ensures err <==> puts < |positions|
      ensures err ==> puts == rejected || positions[puts].agency !in old(agencies)
      ensures Wrote(old(Value()), Value(), positions[..puts])
    {
      puts := 0;
      ghost var was := Value();
      assert positions[..0] == [];
      assert Wrote(was, was, []);
      assert positions[..|positions|] == positions;
      hide Wrote, WellFormed, WriteOne;
      while puts < |positions|
        invariant puts <= |positions| && puts <= rejected
        invariant AllKnown(was.agencies, positions[..puts])
        invariant Wrote(was, Value(), positions[..puts])
        invariant Valid()
      {
        var pos := positions[puts];
        if pos.agency !in agencies || puts == rejected {
          return puts, true;
        }
        WroteOne(was, Value(), positions[..puts], pos);
        assert positions[..puts + 1] == positions[..puts] + [pos];
        Accept(pos);
        puts := puts + 1;
      }
      return puts, false;
    }

    /** One accepted put: the database, the counters and the index. */
    method Accept(pos: Position)
      requires Valid() && pos.agency in agencies
      modifies this
      ensures Valid()
      ensures Value() == WriteOne(old(Value()), pos)
    {
      WriteWellFormed(Value(), pos);
      agencies := agencies[pos.agency := Put(agencies[pos.agency], pos)];
      eventCount := eventCount + 1;
      var key := VehicleKey(pos);
      if key !in vehicleSeen || pos.timestamp > vehicleSeen[key].timestamp {
        vehicleSeen := vehicleSeen[key := pos];
      }
      ingest := RecordIngest(ingest, pos);
    }

    /** Commits database after database, in arbitrary order, up to the first that fails. */
    method FlushAll(flushFails: Bytes -> bool) returns (err: bool)
      requires Valid()
      modifies this`agencies
      ensures Valid()
      ensures err <==> exists a :: a in old(agencies) && flushFails(a)
      ensures !err ==> agencies == map a | a in old(agencies) :: Flushed(old(agencies)[a])
      ensures agencies.Keys == old(agencies).Keys
      ensures forall a :: a in agencies ==> agencies[a] in {old(agencies)[a], Flushed(old(agencies)[a])}
    {
      var todo := agencies.Keys;
      while todo != {}
        invariant todo <= old(agencies).Keys
        invariant forall a :: a in old(agencies) && a !in todo ==> !flushFails(a)
        invariant agencies == map a | a in old(agencies)
                                :: if a in todo then old(agencies)[a] else Flushed(old(agencies)[a])
      {
        var a: Bytes :| a in todo;
        if flushFails(a) {
          return true;
        }
        agencies := agencies[a := Flushed(agencies[a])];
        todo := todo - {a};
      }
      err := false;
    }

    /** The latest position per key segment of one database, keys met in arbitrary order. */
    method ScanAgency(a: Bytes) returns (latest: map<Bytes, Position>)
      requires Valid() && a in agencies
      ensures LatestByHead(latest, Visible(agencies[a]))
    {
      var db := agencies[a];
      var kv := Contents(db.Feed());
      var minKey := AgencyPrefix(a);
      var maxKey := PrefixUpperBound(minKey);
      latest := map[];
      var todo := set k | k in kv && InRange(k, minKey, maxKey);
      ghost var scanned: set<Position> := {};
      forall k | k in kv ensures k in todo {
        VisibleKeys(a, db, k);
      }
      while todo != {}
        invariant todo <= kv.Keys
        invariant forall k :: k in kv && k !in todo ==> kv[k] in scanned
        invariant scanned <= kv.Values
        invariant LatestByHead(latest, scanned)
      {
        var k :| k in todo;
        todo := todo - {k};
        VisibleKeys(a, db, k);
        var pos := kv[k];
        var vid := VehicleIDFromKey(k);
        if vid !in latest || pos.timestamp > latest[vid].timestamp {
          latest := latest[vid := pos];
        }
        scanned := scanned + {pos};
      }
      assert scanned == kv.Values;
    }

    /** One database's turn in the scan. */
    method ScanNext(a: Bytes, latest: Vehicles, ghost done: set<Bytes>) returns (merged: Vehicles)
      requires Valid() && a in agencies && done <= agencies.Keys && a !in done
      requires OnePerHead(latest, AllVisible(agencies, done))
      ensures OnePerHead(merged, AllVisible(agencies, done + {a}))
    {
      hide OnePerHead, AllVisible, LatestByHead, MergedFrom, WellFormed, Visible;
      var positions := ScanAgency(a);
      merged := MergeInto(latest, positions);
      MergeStep(agencies, done, a, latest, positions, merged);
    }

    /** The durable scan over all databases, in arbitrary order; also how a restart hydrates. */
    method ScanLatest() returns (latest: Vehicles)
      requires Valid()
      ensures OnePerHead(latest, AllVisible(agencies, agencies.Keys))
    {
      EmptyScan(agencies);
      hide OnePerHead, AllVisible, WellFormed, Visible;
      latest := map[];
      var todo := agencies.Keys;
      ghost var done: set<Bytes> := {};
      while todo != {}
        invariant todo <= agencies.Keys && done == agencies.Keys - todo
        invariant OnePerHead(latest, AllVisible(agencies, done))
      {
        var a :| a in todo;
        latest := ScanNext(a, latest, done);
        todo := todo - {a};
        done := done + {a};
      }
      assert done == agencies.Keys;
    }
  }
}
