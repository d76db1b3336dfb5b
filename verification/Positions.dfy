/** Vehicle positions, their keys, and the maps that keep one position a vehicle. */
module Positions {
  import opened ByteStrings
  import opened Catalog
  import opened Keys

  /** What a reading says beyond who and when; its coordinates are never computed with. */
  datatype Fix = Fix(lat: real, lng: real, bearing: real, speed: real, route: Bytes, trip: Bytes)

  datatype Position = Position(agency: Bytes, vehicleID: Bytes, fix: Fix, timestamp: int)

  /** 1970-01-01 counted from Go's zero time. */
  const UNIX_EPOCH: int := 62_135_596_800 * SECOND

  const TWO_TO_64: int := 0x1_0000_0000_0000_0000

  /** Time.UnixNano: int64 arithmetic, so it wraps outside the years 1678 to 2262. */
  function UnixNano(t: int): int {
    var n := (t - UNIX_EPOCH) % TWO_TO_64;
    if n > MAX_INT64 then n - TWO_TO_64 else n
  }

  /** UnixNano counts from 1970 and has the int64 range. */
  lemma UnixNanoRange(t: int)
    ensures -0x8000_0000_0000_0000 <= UnixNano(t) < 0x8000_0000_0000_0000
    ensures var n := t - 62_135_596_800_000_000_000;
            (UnixNano(t) - n) % 0x1_0000_0000_0000_0000 == 0
            && (-0x8000_0000_0000_0000 <= n < 0x8000_0000_0000_0000 ==> UnixNano(t) == n)
  {
  }

  function KeyOf(p: Position): Bytes {
    PositionKey(p.agency, p.vehicleID, UnixNano(p.timestamp))
  }

  /** The in-memory key of a vehicle: agency:vehicle. */
  function VehicleKey(p: Position): Bytes {
    p.agency + [SEPARATOR] + p.vehicleID
  }

  lemma VehicleKeyInjective(p: Position, q: Position)
    requires ColonFree(p.agency) && ColonFree(q.agency)
    requires VehicleKey(p) == VehicleKey(q)
    ensures p.agency == q.agency && p.vehicleID == q.vehicleID
  {
    FirstFieldUnique(p.agency, p.vehicleID, q.agency, q.vehicleID);
  }

  type Vehicles = map<Bytes, Position>

  /** Keep the first of the positions with the greatest timestamp: strictly later ones replace. */
  function KeepLatest(m: Vehicles, p: Position): Vehicles {
    var key := VehicleKey(p);
    if key !in m || p.timestamp > m[key].timestamp then m[key := p] else m
  }

  function Seen(m: Vehicles, log: seq<Position>): Vehicles {
    if |log| == 0 then m else KeepLatest(Seen(m, log[..|log| - 1]), log[|log| - 1])
  }

  /** m has exactly the vehicles of ps, each with a position of its own of the latest time. */
  ghost predicate LatestOf(m: Vehicles, ps: set<Position>) {
    && (forall k :: k in m ==> m[k] in ps && VehicleKey(m[k]) == k)
    && (forall p :: p in ps ==> VehicleKey(p) in m && p.timestamp <= m[VehicleKey(p)].timestamp)
  }

  function Elements(log: seq<Position>): set<Position> {
    set p | p in log
  }

  lemma ElementsSnoc(log: seq<Position>)
    requires |log| > 0
    ensures Elements(log) == Elements(log[..|log| - 1]) + {log[|log| - 1]}
  {
  }

  /** The incremental index is the latest position of every vehicle ever written. */
  lemma {:induction false} SeenIsLatest(log: seq<Position>)
    ensures LatestOf(Seen(map[], log), Elements(log))
  {
    if |log| > 0 {
      SeenIsLatest(log[..|log| - 1]);
      ElementsSnoc(log);
    }
  }

  /** agency:vehicle, as the index spells it. */
  function Spelled(p: Position): Bytes {
    p.agency + ":" + p.vehicleID
  }

  /** i is the first write of the latest time of vehicle k. */
  predicate FirstOfLatest(log: seq<Position>, k: Bytes, i: int) {
    && 0 <= i < |log| && Spelled(log[i]) == k
    && (forall j :: 0 <= j < i && Spelled(log[j]) == k ==> log[j].timestamp < log[i].timestamp)
    && (forall j :: i < j < |log| && Spelled(log[j]) == k ==> log[j].timestamp <= log[i].timestamp)
  }

  lemma FirstOfLatestKeeps(front: seq<Position>, p: Position, k: Bytes, i: int)
    requires FirstOfLatest(front, k, i) && (Spelled(p) == k ==> p.timestamp <= front[i].timestamp)
    ensures FirstOfLatest(front + [p], k, i)
  {
    hide Spelled;
  }

  lemma FirstOfLatestMoves(front: seq<Position>, p: Position, k: Bytes)
    requires Spelled(p) == k
    requires forall j :: 0 <= j < |front| && Spelled(front[j]) == k ==> front[j].timestamp < p.timestamp
    ensures FirstOfLatest(front + [p], k, |front|)
  {
    hide Spelled;
  }

  /** Of equal timestamps the index keeps the first: of every vehicle that was written it holds the
      first write of the latest time. */
  lemma {:induction false} SeenIsFirstOfLatest(log: seq<Position>, k: Bytes)
    ensures k in Seen(map[], log) ==> exists i :: FirstOfLatest(log, k, i) && Seen(map[], log)[k] == log[i]
    ensures k !in Seen(map[], log) ==> forall j :: 0 <= j < |log| ==> Spelled(log[j]) != k
  {
    if |log| > 0 {
      var n := |log| - 1;
      var front, p := log[..n], log[n];
      var was := Seen(map[], front);
      assert log == front + [p] && VehicleKey(p) == Spelled(p);
      SeenIsFirstOfLatest(front, k);
      hide Spelled, VehicleKey;
      if k in was {
        var i :| FirstOfLatest(front, k, i) && was[k] == front[i];
        hide Seen;
        if Spelled(p) == k && p.timestamp > was[k].timestamp {
          forall j | 0 <= j < n && Spelled(front[j]) == k ensures front[j].timestamp < p.timestamp {
            assert j < i || j == i || i < j;
          }
          FirstOfLatestMoves(front, p, k);
        } else {
          FirstOfLatestKeeps(front, p, k, i);
        }
      } else if Spelled(p) == k {
        FirstOfLatestMoves(front, p, k);
      } else {
        forall j | 0 <= j < |log| ensures Spelled(log[j]) != k {
          assert j < n ==> log[j] == front[j];
        }
      }
    }
  }

  /** Same vehicles with the same timestamps; positions may differ where timestamps tie. */
  predicate TimesAgree(a: Vehicles, b: Vehicles) {
    a.Keys == b.Keys && forall k :: k in a ==> a[k].timestamp == b[k].timestamp
  }

  lemma LatestAgree(a: Vehicles, b: Vehicles, ps: set<Position>)
    requires LatestOf(a, ps) && LatestOf(b, ps)
    ensures TimesAgree(a, b)
  {
  }

  lemma {:induction false} SeenKeepsAgreement(a: Vehicles, b: Vehicles, log: seq<Position>)
    requires TimesAgree(a, b)
    ensures TimesAgree(Seen(a, log), Seen(b, log))
  {
    if |log| > 0 {
      SeenKeepsAgreement(a, b, log[..|log| - 1]);
    }
  }

  lemma {:induction false} SeenAppend(m: Vehicles, a: seq<Position>, b: seq<Position>)
    ensures Seen(m, a + b) == Seen(Seen(m, a), b)
  {
    if |b| == 0 {
      assert a + b == a;
    } else {
      var n := |b| - 1;
      assert (a + b)[..|a + b| - 1] == a + b[..n];
      SeenAppend(m, a, b[..n]);
    }
  }

  // ------------------------------------------------------------- databases

  /** One agency's database: every put in order, and how many of them a flush has committed. */
  datatype DB = DB(log: seq<Position>, committed: nat) {
    predicate Valid() {
      committed <= |log|
    }

    function Feed(): seq<Position>
      requires Valid()
    {
      log[..committed]
    }
  }

  function Put(db: DB, p: Position): DB {
    db.(log := db.log + [p])
  }

  function Flushed(db: DB): DB {
    db.(committed := |db.log|)
  }

  /** The key-value contents after a log of puts. */
  function Contents(log: seq<Position>): map<Bytes, Position> {
    if |log| == 0 then map[]
    else Contents(log[..|log| - 1])[KeyOf(log[|log| - 1]) := log[|log| - 1]]
  }

  /** i is the last put under key k. */
  predicate LastUnder(log: seq<Position>, k: Bytes, i: int) {
    && 0 <= i < |log| && KeyOf(log[i]) == k
    && forall j :: i < j < |log| ==> KeyOf(log[j]) != k
  }

  lemma LastUnderSnoc(front: seq<Position>, p: Position, k: Bytes, i: int)
    requires LastUnder(front, k, i) && KeyOf(p) != k
    ensures LastUnder(front + [p], k, i) && (front + [p])[i] == front[i]
  {
  }

  /** A key is present when it was put, and holds the last position put under it. */
  lemma {:induction false} ContentsMeaning(log: seq<Position>, k: Bytes)
    ensures k in Contents(log) ==> exists i :: LastUnder(log, k, i) && Contents(log)[k] == log[i]
    ensures k !in Contents(log) ==> forall i :: 0 <= i < |log| ==> KeyOf(log[i]) != k
  {
    hide KeyOf;
    if |log| > 0 {
      var n := |log| - 1;
      var front := log[..n];
      assert log == front + [log[n]];
      ContentsMeaning(front, k);
      if KeyOf(log[n]) == k {
        assert LastUnder(log, k, n);
      } else if k in Contents(front) {
        var i :| LastUnder(front, k, i) && Contents(front)[k] == front[i];
        LastUnderSnoc(front, log[n], k, i);
      } else {
        forall i | 0 <= i < |log| ensures KeyOf(log[i]) != k {
          assert i < n ==> log[i] == front[i];
        }
      }
    }
  }
}
