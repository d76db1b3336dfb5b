/** Historical replay: frames of one second over the merged change feeds of a region. */
module Replay {
  import opened ByteStrings
  import opened Catalog
  import opened Positions
  import opened ChangeFeed

  /** Timestamp.Truncate(time.Second) */
  function At(p: Position): int {
    p.timestamp - p.timestamp % SECOND
  }

  /** The sort's comparison: second, agency, vehicle. */
  predicate ReplayLess(p: Position, q: Position) {
    if At(p) != At(q) then At(p) < At(q)
    else if p.agency != q.agency then Less(p.agency, q.agency)
    else Less(p.vehicleID, q.vehicleID)
  }

  /** The second a time lies in: the whole second at or before it. */
  lemma AtIs(p: Position)
    ensures At(p) <= p.timestamp < At(p) + 1_000_000_000 && At(p) % 1_000_000_000 == 0
  {
  }

  /** What an unstable sort may leave: any arrangement in which nothing precedes a lesser element. */
  ghost predicate IsReplayOrder(mutations: seq<Position>, sorted: seq<Position>) {
    && multiset(sorted) == multiset(mutations)
    && forall i, j :: 0 <= i < j < |sorted| ==> !ReplayLess(sorted[j], sorted[i])
  }

  /** In replay order, seconds never decrease, within a second agencies never do, and within an agency
      vehicle ids never do. */
  lemma ReplayOrderIs(mutations: seq<Position>, sorted: seq<Position>, i: nat, j: nat)
    requires IsReplayOrder(mutations, sorted) && i < j < |sorted|
    ensures var p, q := sorted[i], sorted[j];
            || At(p) < At(q)
            || (At(p) == At(q) && Less(p.agency, q.agency))
            || (At(p) == At(q) && p.agency == q.agency && !Less(q.vehicleID, p.vehicleID))
  {
    hide At;
    assert !ReplayLess(sorted[j], sorted[i]);
    LessTotal(sorted[i].agency, sorted[j].agency);
  }

  /** The mutations up to `to`; the zero time sets no limit. */
  function Within(feed: seq<Position>, to: int): seq<Position> {
    if |feed| == 0 then []
    else
      var p := feed[|feed| - 1];
      Within(feed[..|feed| - 1], to) + (if to != 0 && p.timestamp > to then [] else [p])
  }

  predicate AllValid(agencies: map<Bytes, DB>) {
    forall a :: a in agencies ==> agencies[a].Valid()
  }

  function Mutations(agencies: map<Bytes, DB>, region: seq<Bytes>, to: int): seq<Position>
    requires AllValid(agencies)
  {
    if |region| == 0 then []
    else
      var a := region[|region| - 1];
      Mutations(agencies, region[..|region| - 1], to)
      + (if a in agencies then Within(agencies[a].Feed(), to) else [])
  }

  lemma {:induction false} WithinIs(feed: seq<Position>, to: int, p: Position)
    ensures p in Within(feed, to) <==> p in feed && (to == 0 || p.timestamp <= to)
  {
    if |feed| > 0 {
      assert feed == feed[..|feed| - 1] + [feed[|feed| - 1]];
      WithinIs(feed[..|feed| - 1], to, p);
    }
  }

  /** The mutations of a region are the committed puts of its agencies up to To, or all without one. */
  lemma {:induction false} MutationsAre(agencies: map<Bytes, DB>, region: seq<Bytes>, to: int, p: Position)
    requires AllValid(agencies)
    ensures p in Mutations(agencies, region, to) <==>
      (to == 0 || p.timestamp <= to) && exists a :: a in region && a in agencies && p in agencies[a].Feed()
  {
    if |region| > 0 {
      var n := |region| - 1;
      var a := region[n];
      MutationsAre(agencies, region[..n], to, p);
      assert region == region[..n] + [a];
      if a in agencies {
        WithinIs(agencies[a].Feed(), to, p);
      }
    }
  }

  /** Gathers the region's mutations agency by agency, whatever the page breaks; a failing read fails it. */
  method CollectMutations(agencies: map<Bytes, DB>, region: seq<Bytes>, to: int, paging: Paging)
    returns (mutations: seq<Position>, err: bool)
    requires AllValid(agencies) && Progresses(paging)
    ensures !err ==> mutations == Mutations(agencies, region, to)
    ensures err ==> exists cursor :: paging.readFails(cursor)
  {
    mutations, err := [], false;
    var i := 0;
    while i < |region|
      invariant 0 <= i <= |region|
      invariant mutations == Mutations(agencies, region[..i], to)
    {
      var a := region[i];
      ghost var before := mutations;
      assert region[..i + 1][..i] == region[..i] && region[..i + 1][i] == a;
      if a in agencies {
        var feed, _, failed := DrainChangeFeed(agencies[a].Feed(), paging, _ => false);
        if failed {
          return mutations, true;
        }
        assert feed == agencies[a].Feed();
        var j := 0;
        while j < |feed|
          invariant 0 <= j <= |feed|
          invariant mutations == before + Within(feed[..j], to)
        {
          assert feed[..j + 1][..j] == feed[..j];
          if to == 0 || feed[j].timestamp <= to {
            mutations := mutations + [feed[j]];
          }
          j := j + 1;
        }
        assert feed[..j] == feed;
      }
      i := i + 1;
    }
    assert region[..i] == region;
  }

  // ------------------------------------------------------------------ frames

  datatype Frame = Frame(at: int, mutations: seq<Position>)

  /** A mutation joins the last frame when it is of its second, and opens a new one otherwise. */
  function Extend(frames: seq<Frame>, p: Position): seq<Frame> {
    var n := |frames|;
    if n > 0 && frames[n - 1].at == At(p)
    then frames[..n - 1] + [frames[n - 1].(mutations := frames[n - 1].mutations + [p])]
    else frames + [Frame(At(p), [p])]
  }

  function Bucket(sorted: seq<Position>): seq<Frame> {
    if |sorted| == 0 then [] else Extend(Bucket(sorted[..|sorted| - 1]), sorted[|sorted| - 1])
  }

  lemma BucketNext(sorted: seq<Position>, i: nat, buckets: seq<Frame>, current: Frame)
    requires i < |sorted| && Bucket(sorted[..i]) == buckets + [current]
    ensures Bucket(sorted[..i + 1]) ==
            if current.at == At(sorted[i])
            then buckets + [current.(mutations := current.mutations + [sorted[i]])]
            else buckets + [current] + [Frame(At(sorted[i]), [sorted[i]])]
  {
    assert sorted[..i + 1][..i] == sorted[..i];
    assert (buckets + [current])[..|buckets|] == buckets;
  }

  lemma BucketFirst(p: Position)
    ensures Bucket([p]) == [Frame(At(p), [p])]
  {
  }

  method BucketBySecond(sorted: seq<Position>) returns (buckets: seq<Frame>)
    ensures buckets == Bucket(sorted)
  {
    buckets := [];
    if |sorted| == 0 {
      return;
    }
    hide Bucket, At;
    var current := Frame(0, []);
    var i := 0;
    while i < |sorted|
      invariant 0 <= i <= |sorted|
      invariant i == 0 ==> buckets == [] && current.mutations == []
      invariant i > 0 ==> current.mutations != [] && Bucket(sorted[..i]) == buckets + [current]
    {
      var mut := sorted[i];
      if i > 0 {
        BucketNext(sorted, i, buckets, current);
      } else {
        assert sorted[..1] == [mut];
        BucketFirst(mut);
      }
      if |current.mutations| == 0 || current.at != At(mut) {
        if |current.mutations| > 0 {
          buckets := buckets + [current];
        }
        current := Frame(At(mut), []);
      }
      assert [] + [mut] == [mut];
      current := current.(mutations := current.mutations + [mut]);
      i := i + 1;
    }
    assert sorted[..i] == sorted;
    if |current.mutations| > 0 {
      buckets := buckets + [current];
    }
  }

  function Flatten(frames: seq<Frame>): seq<Position> {
    if |frames| == 0 then [] else Flatten(frames[..|frames| - 1]) + frames[|frames| - 1].mutations
  }

  /** The frames partition the mutations, in order, each holding those of its own second. */
  ghost predicate IsFraming(frames: seq<Frame>, sorted: seq<Position>) {
    && Flatten(frames) == sorted
    && (forall i :: 0 <= i < |frames| ==> Uniform(frames[i]))
    && (forall i :: 0 <= i < |frames| - 1 ==> frames[i].at != frames[i + 1].at)
  }

  predicate Uniform(f: Frame) {
    f.mutations != [] && forall j :: 0 <= j < |f.mutations| ==> At(f.mutations[j]) == f.at
  }

  lemma {:induction false} BucketMeaning(sorted: seq<Position>)
    ensures IsFraming(Bucket(sorted), sorted)
    ensures |sorted| > 0 ==> |Bucket(sorted)| > 0 && Bucket(sorted)[|Bucket(sorted)| - 1].at == At(sorted[|sorted| - 1])
  {
    if |sorted| > 0 {
      hide IsFraming, At;
      var front, p := sorted[..|sorted| - 1], sorted[|sorted| - 1];
      BucketMeaning(front);
      assert sorted == front + [p];
      var frames := Bucket(front);
      var n := |frames|;
      if n > 0 && frames[n - 1].at == At(p) {
        FramingExtend(frames, front, p);
      } else {
        FramingOpen(frames, front, p);
      }
    } else {
      assert Bucket(sorted) == [] && Flatten([]) == [];
    }
  }

  lemma FramingExtend(frames: seq<Frame>, front: seq<Position>, p: Position)
    requires IsFraming(frames, front) && |frames| > 0 && frames[|frames| - 1].at == At(p)
    ensures var n := |frames| - 1;
            IsFraming(frames[..n] + [frames[n].(mutations := frames[n].mutations + [p])], front + [p])
  {
  }

  lemma FramingOpen(frames: seq<Frame>, front: seq<Position>, p: Position)
    requires IsFraming(frames, front) && (|frames| > 0 ==> frames[|frames| - 1].at != At(p))
    ensures IsFraming(frames + [Frame(At(p), [p])], front + [p])
  {
  }

  ghost predicate TimeOrdered(sorted: seq<Position>) {
    forall i, j :: 0 <= i < j < |sorted| ==> At(sorted[i]) <= At(sorted[j])
  }

  /** The frames one more mutation leaves: those before, and perhaps one of its own second. */
  lemma BucketGrows(sorted: seq<Position>)
    requires |sorted| > 0
    ensures var frames, all, p := Bucket(sorted[..|sorted| - 1]), Bucket(sorted), sorted[|sorted| - 1];
            && |frames| <= |all| <= |frames| + 1
            && (forall i :: 0 <= i < |frames| ==> all[i].at == frames[i].at)
            && (|all| > |frames| ==> all[|frames|].at == At(p))
            && (|all| > |frames| > 0 ==>
                  frames[|frames| - 1].at != At(p) && |sorted| > 1 && frames[|frames| - 1].at == At(sorted[|sorted| - 2]))
  {
    hide At, IsFraming;
    BucketMeaning(sorted[..|sorted| - 1]);
  }

  /** Frame times strictly increase. */
  lemma {:induction false} FramesIncrease(sorted: seq<Position>, i: nat, j: nat)
    requires TimeOrdered(sorted)
    requires i < j < |Bucket(sorted)|
    ensures Bucket(sorted)[i].at < Bucket(sorted)[j].at
  {
    hide *;
    EmptyBucket(sorted);
    if |sorted| > 0 {
      BucketGrows(sorted);
      FrontTimeOrdered(sorted);
      var front := sorted[..|sorted| - 1];
      var n := |Bucket(front)|;
      if j < n {
        FramesIncrease(front, i, j);
      } else if i < n - 1 {
        FramesIncrease(front, i, n - 1);
      }
    }
  }

  lemma EmptyBucket(sorted: seq<Position>)
    ensures |sorted| == 0 ==> |Bucket(sorted)| == 0
  {
  }

  lemma FrontTimeOrdered(sorted: seq<Position>)
    requires TimeOrdered(sorted) && |sorted| > 0
    ensures TimeOrdered(sorted[..|sorted| - 1])
    ensures |sorted| > 1 ==> At(sorted[|sorted| - 2]) <= At(sorted[|sorted| - 1])
  {
    hide At;
  }

  // ---------------------------------------------------------------- emission

  /** The merge map: the last mutation of each vehicle wins. */
  function Merge(m: Vehicles, ps: seq<Position>): Vehicles {
    if |ps| == 0 then m
    else Merge(m, ps[..|ps| - 1])[VehicleKey(ps[|ps| - 1]) := ps[|ps| - 1]]
  }

  lemma {:induction false} MergeAppend(m: Vehicles, a: seq<Position>, b: seq<Position>)
    ensures Merge(m, a + b) == Merge(Merge(m, a), b)
  {
    if |b| == 0 {
      assert a + b == a;
    } else {
      var n := |b| - 1;
      assert (a + b)[..|a + b| - 1] == a + b[..n];
      MergeAppend(m, a, b[..n]);
    }
  }

  function Restrict(m: Vehicles, agencies: set<Bytes>): Vehicles {
    map k | k in m && m[k].agency in agencies :: m[k]
  }

  datatype Snapshot = Snapshot(positions: Vehicles, frame: nat, total: nat, at: int)

  /** How many leading frames lie before the resume point; the zero time skips none. */
  function Split(frames: seq<Frame>, from: int): (k: nat)
    ensures k <= |frames|
    ensures forall i :: 0 <= i < k ==> frames[i].at < from
    ensures k < |frames| && from != 0 ==> frames[k].at >= from
    ensures from == 0 ==> k == 0
  {
    if |frames| == 0 || from == 0 || frames[0].at >= from then 0 else 1 + Split(frames[1..], from)
  }

  /** The vehicles known after the first n frames. */
  function Known(frames: seq<Frame>, n: nat): Vehicles
    requires n <= |frames|
  {
    Merge(map[], Flatten(frames[..n]))
  }

  function SnapshotAt(frames: seq<Frame>, k: nat, i: nat, agencies: set<Bytes>): Snapshot
    requires k + i < |frames|
  {
    Snapshot(Restrict(Known(frames, k + i + 1), agencies), i + 1, |frames| - k, frames[k + i].at)
  }

  /** Everything a replay sends: one snapshot a frame from the resume point on, each holding the
      last known position of every vehicle of the region, earlier frames included. */
  function Emission(frames: seq<Frame>, from: int, agencies: set<Bytes>): seq<Snapshot> {
    var k := Split(frames, from);
    seq(|frames| - k, i requires 0 <= i < |frames| - k => SnapshotAt(frames, k, i, agencies))
  }

  method FoldFrame(m: Vehicles, frame: Frame) returns (merged: Vehicles)
    ensures merged == Merge(m, frame.mutations)
  {
    merged := m;
    var j := 0;
    while j < |frame.mutations|
      invariant 0 <= j <= |frame.mutations|
      invariant merged == Merge(m, frame.mutations[..j])
    {
      assert frame.mutations[..j + 1][..j] == frame.mutations[..j];
      merged := merged[VehicleKey(frame.mutations[j]) := frame.mutations[j]];
      j := j + 1;
    }
    assert frame.mutations[..j] == frame.mutations;
  }

  lemma KnownNext(frames: seq<Frame>, n: nat)
    requires n < |frames|
    ensures Known(frames, n + 1) == Merge(Known(frames, n), frames[n].mutations)
  {
    assert frames[..n + 1][..n] == frames[..n];
    MergeAppend(map[], Flatten(frames[..n]), frames[n].mutations);
  }

  lemma SplitStep(frames: seq<Frame>, from: int, n: nat)
    requires n <= Split(frames, from)
    ensures n < Split(frames, from) <==> n < |frames| && from != 0 && frames[n].at < from
  {
  }

  lemma EmissionIndex(frames: seq<Frame>, from: int, agencies: set<Bytes>)
    ensures var (all, k) := (Emission(frames, from, agencies), Split(frames, from));
            |all| == |frames| - k && forall i :: 0 <= i < |all| ==> all[i] == SnapshotAt(frames, k, i, agencies)
  {
  }

  /** The silent fold of the frames before the resume point. */
  method FoldPrefix(frames: seq<Frame>, from: int) returns (merged: Vehicles, split: nat)
    ensures split == Split(frames, from) && merged == Known(frames, split)
  {
    merged, split := map[], 0;
    assert frames[..0] == [];
    while split < |frames| && from != 0 && frames[split].at < from
      invariant split <= Split(frames, from)
      invariant merged == Known(frames, split)
    {
      SplitStep(frames, from, split);
      KnownNext(frames, split);
      merged := FoldFrame(merged, frames[split]);
      split := split + 1;
    }
    SplitStep(frames, from, split);
  }

  /** The region's part of the merge map, met in arbitrary order. */
  method FilterRegion(merged: Vehicles, agencies: set<Bytes>) returns (out: Vehicles)
    ensures out == Restrict(merged, agencies)
  {
    out := map[];
    var todo := merged.Keys;
    while todo != {}
      invariant todo <= merged.Keys
      invariant out == map k | k in merged && k !in todo && merged[k].agency in agencies :: merged[k]
    {
      var k :| k in todo;
      if merged[k].agency in agencies {
        out := out[k := merged[k]];
      }
      todo := todo - {k};
    }
  }

  // ------------------------------------------------ what a snapshot holds

  /** agency:vehicle, as the merge map spells it. */
  predicate OfVehicle(p: Position, key: Bytes) {
    p.agency + ":" + p.vehicleID == key
  }

  /** Mutation j of frame f is the last one of vehicle key among the first n frames. */
  predicate LastAmong(frames: seq<Frame>, n: nat, key: Bytes, f: int, j: int)
    requires n <= |frames|
  {
    && 0 <= f < n && 0 <= j < |frames[f].mutations| && OfVehicle(frames[f].mutations[j], key)
    && (forall l :: j < l < |frames[f].mutations| ==> !OfVehicle(frames[f].mutations[l], key))
    && (forall g, l :: f < g < n && 0 <= l < |frames[g].mutations| ==> !OfVehicle(frames[g].mutations[l], key))
  }

  predicate NoneAmong(frames: seq<Frame>, n: nat, key: Bytes)
    requires n <= |frames|
  {
    forall g, l :: 0 <= g < n && 0 <= l < |frames[g].mutations| ==> !OfVehicle(frames[g].mutations[l], key)
  }

  predicate LastIn(ps: seq<Position>, key: Bytes, j: int) {
    0 <= j < |ps| && OfVehicle(ps[j], key) && forall l :: j < l < |ps| ==> !OfVehicle(ps[l], key)
  }

  predicate Missing(ps: seq<Position>, key: Bytes) {
    forall l :: 0 <= l < |ps| ==> !OfVehicle(ps[l], key)
  }

  lemma {:induction false} MergeIs(m: Vehicles, ps: seq<Position>, key: Bytes)
    ensures Missing(ps, key) ==> (key in Merge(m, ps) <==> key in m) && (key in m ==> Merge(m, ps)[key] == m[key])
    ensures !Missing(ps, key) ==> key in Merge(m, ps) && exists j :: LastIn(ps, key, j) && Merge(m, ps)[key] == ps[j]
  {
    if |ps| > 0 {
      var n := |ps| - 1;
      var front, p := ps[..n], ps[n];
      assert VehicleKey(p) == key <==> OfVehicle(p, key);
      assert Merge(m, ps) == Merge(m, front)[VehicleKey(p) := p];
      MergeIs(m, front, key);
      LastInGrows(ps, key);
      hide OfVehicle, VehicleKey, Merge, Missing, LastIn;
      if !OfVehicle(p, key) && !Missing(front, key) {
        var j :| LastIn(front, key, j) && Merge(m, front)[key] == front[j];
        LastInKeeps(ps, key, j);
      }
    }
  }

  lemma LastInGrows(ps: seq<Position>, key: Bytes)
    requires |ps| > 0
    ensures var n := |ps| - 1;
            && (OfVehicle(ps[n], key) ==> LastIn(ps, key, n) && !Missing(ps, key))
            && (!OfVehicle(ps[n], key) ==> (Missing(ps, key) <==> Missing(ps[..n], key)))
  {
    hide OfVehicle;
    var n := |ps| - 1;
    assert forall l :: 0 <= l < n ==> ps[..n][l] == ps[l];
    if !OfVehicle(ps[n], key) && Missing(ps[..n], key) {
      forall l | 0 <= l < |ps| ensures !OfVehicle(ps[l], key) {
        assert l < n ==> ps[l] == ps[..n][l];
      }
    }
  }

  lemma LastInKeeps(ps: seq<Position>, key: Bytes, j: int)
    requires |ps| > 0 && LastIn(ps[..|ps| - 1], key, j) && !OfVehicle(ps[|ps| - 1], key)
    ensures LastIn(ps, key, j) && ps[j] == ps[..|ps| - 1][j]
  {
    hide OfVehicle;
    forall l | j < l < |ps| ensures !OfVehicle(ps[l], key) {
      assert l < |ps| - 1 ==> ps[l] == ps[..|ps| - 1][l];
    }
  }

  lemma LastAmongMoves(frames: seq<Frame>, n: nat, key: Bytes, j: int)
    requires 0 < n <= |frames| && LastIn(frames[n - 1].mutations, key, j)
    ensures LastAmong(frames, n, key, n - 1, j)
  {
    hide OfVehicle;
  }

  lemma LastAmongKeeps(frames: seq<Frame>, n: nat, key: Bytes, f: int, j: int)
    requires 0 < n <= |frames| && LastAmong(frames, n - 1, key, f, j)
    requires Missing(frames[n - 1].mutations, key)
    ensures LastAmong(frames, n, key, f, j)
  {
    hide OfVehicle;
  }

  lemma NoneAmongKeeps(frames: seq<Frame>, n: nat, key: Bytes)
    requires 0 < n <= |frames| && NoneAmong(frames, n - 1, key)
    requires Missing(frames[n - 1].mutations, key)
    ensures NoneAmong(frames, n, key)
  {
    hide OfVehicle;
  }

  /** A known position is the last mutation of its vehicle. */
  predicate KnownFrom(frames: seq<Frame>, n: nat, key: Bytes, f: int, j: int)
    requires n <= |frames|
  {
    LastAmong(frames, n, key, f, j)
    && key in Known(frames, n) && Known(frames, n)[key] == frames[f].mutations[j]
  }

  /** What is known after some frames: of every vehicle met, its last mutation. */
  lemma {:induction false} KnownIs(frames: seq<Frame>, n: nat, key: Bytes)
    requires n <= |frames|
    ensures key in Known(frames, n) ==> exists f, j :: KnownFrom(frames, n, key, f, j)
    ensures key !in Known(frames, n) ==> NoneAmong(frames, n, key)
  {
    if n == 0 {
      assert frames[..0] == [];
    } else {
      hide Known, Merge, OfVehicle, LastAmong, NoneAmong, LastIn, Missing;
      var ps := frames[n - 1].mutations;
      KnownIs(frames, n - 1, key);
      KnownNext(frames, n - 1);
      MergeIs(Known(frames, n - 1), ps, key);
      if !Missing(ps, key) {
        var j :| LastIn(ps, key, j) && Known(frames, n)[key] == ps[j];
        LastAmongMoves(frames, n, key, j);
        assert KnownFrom(frames, n, key, n - 1, j);
      } else if key in Known(frames, n - 1) {
        var f, j :| KnownFrom(frames, n - 1, key, f, j);
        LastAmongKeeps(frames, n, key, f, j);
        assert KnownFrom(frames, n, key, f, j);
      } else {
        NoneAmongKeeps(frames, n, key);
      }
    }
  }

  lemma LastIsOnly(frames: seq<Frame>, n: nat, key: Bytes, f: int, j: int, g: int, l: int)
    requires n <= |frames| && LastAmong(frames, n, key, f, j) && LastAmong(frames, n, key, g, l)
    ensures f == g && j == l
  {
    hide OfVehicle;
  }

  lemma LastIsKnown(frames: seq<Frame>, n: nat, key: Bytes, f: int, j: int)
    requires n <= |frames| && LastAmong(frames, n, key, f, j)
    ensures key in Known(frames, n) && Known(frames, n)[key] == frames[f].mutations[j]
  {
    hide Known;
    KnownIs(frames, n, key);
    SomeIsNotNone(frames, n, key, f, j);
    var g, l :| KnownFrom(frames, n, key, g, l);
    LastIsOnly(frames, n, key, f, j, g, l);
  }

  lemma NoneIsUnknown(frames: seq<Frame>, n: nat, key: Bytes)
    requires n <= |frames| && NoneAmong(frames, n, key)
    ensures key !in Known(frames, n)
  {
    hide Known;
    KnownIs(frames, n, key);
    if f, j :| KnownFrom(frames, n, key, f, j) {
      SomeIsNotNone(frames, n, key, f, j);
    }
  }

  /** Snapshot i is numbered, totalled and timed as its frame. */
  predicate Numbered(frames: seq<Frame>, k: nat, i: nat, snap: Snapshot) {
    k + i < |frames| && snap.frame == i + 1 && snap.total == |frames| - k && snap.at == frames[k + i].at
  }

  lemma SnapshotNumbered(frames: seq<Frame>, from: int, agencies: set<Bytes>, i: nat)
    requires i < |Emission(frames, from, agencies)|
    ensures Numbered(frames, Split(frames, from), i, Emission(frames, from, agencies)[i])
    ensures Emission(frames, from, agencies)[i].positions == Restrict(Known(frames, Split(frames, from) + i + 1), agencies)
  {
    EmissionIndex(frames, from, agencies);
    hide Emission, Known, Restrict, Split;
  }

  /** Snapshot i shows a vehicle if and only if its last mutation among the frames up to that one is of an
      agency of the region, and shows it there. */
  lemma SnapshotIs(frames: seq<Frame>, from: int, agencies: set<Bytes>, i: nat, key: Bytes)
    requires i < |Emission(frames, from, agencies)|
    ensures Numbered(frames, Split(frames, from), i, Emission(frames, from, agencies)[i])
    ensures var n, shown := Split(frames, from) + i + 1, Emission(frames, from, agencies)[i].positions;
            && (forall f, j :: LastAmong(frames, n, key, f, j) ==>
                  (key in shown <==> frames[f].mutations[j].agency in agencies)
                  && (key in shown ==> shown[key] == frames[f].mutations[j]))
            && (NoneAmong(frames, n, key) ==> key !in shown)
  {
    SnapshotNumbered(frames, from, agencies, i);
    var n := Split(frames, from) + i + 1;
    hide Emission, Split, LastAmong, NoneAmong, Known;
    forall f, j | LastAmong(frames, n, key, f, j)
      ensures key in Known(frames, n) && Known(frames, n)[key] == frames[f].mutations[j]
    {
      LastIsKnown(frames, n, key, f, j);
    }
    if NoneAmong(frames, n, key) {
      NoneIsUnknown(frames, n, key);
    }
  }

  lemma SomeIsNotNone(frames: seq<Frame>, n: nat, key: Bytes, f: int, j: int)
    requires n <= |frames| && LastAmong(frames, n, key, f, j)
    ensures !NoneAmong(frames, n, key)
  {
    hide OfVehicle;
  }

  predicate ColonFreeAgencies(frames: seq<Frame>) {
    forall f, j :: 0 <= f < |frames| && 0 <= j < |frames[f].mutations|
      ==> ':' !in frames[f].mutations[j].agency
  }

  predicate Shows(frames: seq<Frame>, n: nat, agencies: set<Bytes>, key: Bytes)
    requires n <= |frames|
  {
    exists f, j :: 0 <= f < n && 0 <= j < |frames[f].mutations|
      && OfVehicle(frames[f].mutations[j], key) && frames[f].mutations[j].agency in agencies
  }

  /** With colon-free agencies: a snapshot shows a vehicle if and only if some mutation of the frames up to
      its own is of that vehicle and of an agency of the region. */
  lemma SnapshotShowsIff(frames: seq<Frame>, from: int, agencies: set<Bytes>, i: nat, key: Bytes)
    requires i < |Emission(frames, from, agencies)| && ColonFreeAgencies(frames)
    ensures Split(frames, from) + i < |frames|
    ensures key in Emission(frames, from, agencies)[i].positions
        <==> Shows(frames, Split(frames, from) + i + 1, agencies, key)
  {
    SnapshotIs(frames, from, agencies, i, key);
    var n := Split(frames, from) + i + 1;
    KnownIs(frames, n, key);
    hide Emission, Split, Known, OfVehicle;
    if key in Known(frames, n) {
      var f, j :| KnownFrom(frames, n, key, f, j);
      forall g, l | 0 <= g < n && 0 <= l < |frames[g].mutations| && OfVehicle(frames[g].mutations[l], key)
        ensures frames[g].mutations[l].agency == frames[f].mutations[j].agency
      {
        SameAgency(frames[g].mutations[l], frames[f].mutations[j], key);
      }
    }
  }

  lemma SameAgency(p: Position, q: Position, key: Bytes)
    requires OfVehicle(p, key) && OfVehicle(q, key) && ':' !in p.agency && ':' !in q.agency
    ensures p.agency == q.agency
  {
    VehicleKeyInjective(p, q);
  }

  /** Replays until the frames end, or until the context is done before a frame, the callback refuses
      one, or the pause after one is interrupted. */
  method RunReplay(frames: seq<Frame>, from: int, agencies: set<Bytes>,
                   ctxDone: nat -> bool, refused: nat -> bool, interrupted: nat -> bool)
    returns (emitted: seq<Snapshot>, err: bool)
    ensures var all := Emission(frames, from, agencies);
            && |emitted| <= |all| && emitted == all[..|emitted|]
            && (!err ==> emitted == all)
            && (forall i :: 0 <= i < |emitted| - 1 ==> !ctxDone(i) && !refused(i) && !interrupted(i))
            && (err ==> |all| > 0)
            && (err ==> || (|emitted| < |all| && ctxDone(|emitted|))
                        || (|emitted| > 0 && refused(|emitted| - 1))
                        || (0 < |emitted| < |all| && interrupted(|emitted| - 1)))
  {
    emitted, err := [], false;
    var merged, split := FoldPrefix(frames, from);
    EmissionIndex(frames, from, agencies);
    hide Emission, Known, Split, Restrict;
    ghost var all := Emission(frames, from, agencies);
    var rest := frames[split..];
    var i := 0;
    while i < |rest|
      invariant 0 <= i <= |rest|
      invariant merged == Known(frames, split + i)
      invariant emitted == all[..i]
      invariant forall j :: 0 <= j < i ==> !ctxDone(j) && !refused(j)
      invariant forall j :: 0 <= j < i && j + 1 < |rest| ==> !interrupted(j)
    {
      if ctxDone(i) {
        return emitted, true;
      }
      KnownNext(frames, split + i);
      merged := FoldFrame(merged, rest[i]);
      var out := FilterRegion(merged, agencies);
      emitted := emitted + [Snapshot(out, i + 1, |rest|, rest[i].at)];
      if refused(i) {
        return emitted, true;
      }
      if i + 1 < |rest| && interrupted(i) {
        return emitted, true;
      }
      i := i + 1;
    }
  }

  /** some is the part lo..hi of all, numbered anew. */
  predicate IsWindow(all: seq<Snapshot>, some: seq<Snapshot>, lo: nat, hi: nat) {
    && lo <= hi <= |all| && |some| == hi - lo
    && forall i :: 0 <= i < |some| ==> some[i] == all[lo + i].(frame := i + 1, total := |some|)
  }

  lemma SnapshotShifts(frames: seq<Frame>, k: nat, i: nat, agencies: set<Bytes>)
    requires k + i < |frames|
    ensures SnapshotAt(frames, k, i, agencies)
         == SnapshotAt(frames, 0, k + i, agencies).(frame := i + 1, total := |frames| - k)
    ensures SnapshotAt(frames, k, i, agencies).at == frames[k + i].at
  {
  }

  lemma EmissionShifts(frames: seq<Frame>, from: int, agencies: set<Bytes>)
    ensures IsWindow(Emission(frames, 0, agencies), Emission(frames, from, agencies), Split(frames, from), |frames|)
  {
    var all, some, k := Emission(frames, 0, agencies), Emission(frames, from, agencies), Split(frames, from);
    EmissionIndex(frames, 0, agencies);
    EmissionIndex(frames, from, agencies);
    hide Emission, SnapshotAt;
    forall i: nat | i < |some| ensures some[i] == all[k + i].(frame := i + 1, total := |some|) {
      hide Split;
      SnapshotShifts(frames, k, i, agencies);
      assert some[i] == SnapshotAt(frames, k, i, agencies);
      assert all[k + i] == SnapshotAt(frames, 0, k + i, agencies);
    }
  }

  /** Resuming changes nothing but the numbering: the snapshots are those the full run sends from
      the first frame at or after the resume point on. */
  lemma ResumeIsSuffix(frames: seq<Frame>, from: int, agencies: set<Bytes>)
    ensures var all, k := Emission(frames, 0, agencies), Split(frames, from);
            && |all| == |frames| && IsWindow(all, Emission(frames, from, agencies), k, |all|)
            && (forall i :: 0 <= i < k ==> all[i].at < from)
            && (k < |all| && from != 0 ==> all[k].at >= from)
  {
    var all := Emission(frames, 0, agencies);
    EmissionIndex(frames, 0, agencies);
    EmissionShifts(frames, from, agencies);
    hide *;
    forall i: nat | i < |all| ensures all[i].at == frames[i].at {
      SnapshotShifts(frames, 0, i, agencies);
      assert all[i] == SnapshotAt(frames, 0, i, agencies);
    }
  }
}
