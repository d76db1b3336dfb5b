/** Per-tenant event stores: writing emissions, flushing, and scanning a tenant's keys in order. */
module Tenants {
  import opened ByteStrings
  import opened Keys
  import opened Generator

  /** The puts of one tenant's writer and how many of them readers and the change feed see. */
  datatype Store = Store(log: seq<Event>, committed: nat) {
    predicate Valid() {
      committed <= |log|
    }
  }

  type Stores = map<Bytes, Store>

  predicate AllValid(stores: Stores) {
    forall t :: t in stores ==> stores[t].Valid()
  }

  // ----------------------------------------------------------------- scanning

  predicate Ascending(ks: seq<Bytes>) {
    forall i, j :: 0 <= i < j < |ks| ==> Less(ks[i], ks[j])
  }

  function AddKey(k: Bytes, ks: seq<Bytes>): seq<Bytes> {
    if |ks| == 0 then [k]
    else if ks[0] == k then ks
    else if Less(k, ks[0]) then [k] + ks
    else [ks[0]] + AddKey(k, ks[1..])
  }

  /** The keys of a store, each once and in byte order. */
  function KeyList(log: seq<Event>): seq<Bytes> {
    if |log| == 0 then [] else AddKey(Key(log[|log| - 1]), KeyList(log[..|log| - 1]))
  }

  function WithinRange(ks: seq<Bytes>, lo: Bytes, hi: Bytes): seq<Bytes> {
    if |ks| == 0 then []
    else (if InRange(ks[0], lo, hi) then [ks[0]] else []) + WithinRange(ks[1..], lo, hi)
  }

  function ScanKeys(store: Store, tenant: Bytes): seq<Bytes>
    requires store.Valid()
  {
    WithinRange(KeyList(store.log[..store.committed]), AgencyPrefix(tenant), UpperBound(AgencyPrefix(tenant)))
  }

  lemma {:induction false} AddKeyKeeps(k: Bytes, ks: seq<Bytes>)
    requires Ascending(ks)
    ensures Ascending(AddKey(k, ks))
    ensures forall x :: x in AddKey(k, ks) <==> x == k || x in ks
  {
    if |ks| > 0 {
      assert ks == [ks[0]] + ks[1..];
      LessTotal(k, ks[0]);
      if Less(k, ks[0]) {
        forall j | 0 <= j < |ks| ensures Less(k, ks[j]) {
          if j > 0 {
            LessTransitive(k, ks[0], ks[j]);
          }
        }
      } else if ks[0] != k {
        AddKeyKeeps(k, ks[1..]);
        var rest := AddKey(k, ks[1..]);
        forall j | 0 <= j < |rest| ensures Less(ks[0], rest[j]) {
          assert rest[j] in rest;
        }
      }
    }
  }

  lemma {:induction false} KeyListExact(log: seq<Event>)
    ensures Ascending(KeyList(log))
    ensures forall k :: k in KeyList(log) <==> exists i :: 0 <= i < |log| && Key(log[i]) == k
  {
    hide Key;
    if |log| > 0 {
      var init := log[..|log| - 1];
      KeyListExact(init);
      AddKeyKeeps(Key(log[|log| - 1]), KeyList(init));
      forall k ensures k in KeyList(log) <==> exists i :: 0 <= i < |log| && Key(log[i]) == k {
        if k in KeyList(init) {
          var i :| 0 <= i < |init| && Key(init[i]) == k;
          assert Key(log[i]) == k;
        }
        if i :| 0 <= i < |log| && Key(log[i]) == k {
          assert i < |init| ==> Key(init[i]) == k;
        }
      }
    }
  }

  lemma {:induction false} WithinRangeExact(ks: seq<Bytes>, lo: Bytes, hi: Bytes)
    requires Ascending(ks)
    ensures Ascending(WithinRange(ks, lo, hi))
    ensures forall k :: k in WithinRange(ks, lo, hi) <==> k in ks && InRange(k, lo, hi)
  {
    hide InRange;
    if |ks| > 0 {
      assert ks == [ks[0]] + ks[1..];
      WithinRangeExact(ks[1..], lo, hi);
      var rest := WithinRange(ks[1..], lo, hi);
      forall j | 0 <= j < |rest| ensures Less(ks[0], rest[j]) {
        assert rest[j] in rest;
      }
    }
  }

  /** A scan lists, in strictly ascending order, exactly the committed keys with the tenant's prefix:
      duplicate writes have collapsed. */
  lemma ScanKeysExact(store: Store, tenant: Bytes)
    requires store.Valid()
    ensures Ascending(ScanKeys(store, tenant))
    ensures forall k :: k in ScanKeys(store, tenant) <==>
      AgencyPrefix(tenant) <= k && exists i :: 0 <= i < store.committed && Key(store.log[i]) == k
  {
    var seen := store.log[..store.committed];
    KeyListExact(seen);
    WithinRangeExact(KeyList(seen), AgencyPrefix(tenant), UpperBound(AgencyPrefix(tenant)));
    hide Key, KeyList, WithinRange, InRange, AgencyPrefix;
    forall k ensures k in ScanKeys(store, tenant) <==>
      AgencyPrefix(tenant) <= k && exists i :: 0 <= i < store.committed && Key(store.log[i]) == k
    {
      AgencyScanExact(tenant, k);
      if i :| 0 <= i < store.committed && Key(store.log[i]) == k {
        assert Key(seen[i]) == k;
      }
    }
  }

  // ------------------------------------------------------------------ writing

  /** The events of one tenant, in order. */
  function EventsOf(es: seq<Emission>, tenant: Bytes): seq<Event> {
    if |es| == 0 then []
    else
      var last := es[|es| - 1].event;
      EventsOf(es[..|es| - 1], tenant) + (if last.tenant == tenant then [last] else [])
  }

  function Written(stores: Stores, es: seq<Emission>): Stores {
    map t | t in stores :: stores[t].(log := stores[t].log + EventsOf(es, t))
  }

  lemma WrittenKeys(stores: Stores, es: seq<Emission>)
    ensures Written(stores, es).Keys == stores.Keys
  {
  }

  lemma WroteNothing(stores: Stores)
    ensures Written(stores, []) == stores
  {
    forall t | t in stores ensures Written(stores, [])[t] == stores[t] {
      assert stores[t].log + [] == stores[t].log;
    }
  }

  lemma WriteExtends(stores: Stores, es: seq<Emission>, i: nat)
    requires i < |es| && es[i].event.tenant in stores
    ensures var before, ev := Written(stores, es[..i]), es[i].event;
            Written(stores, es[..i + 1])
              == before[ev.tenant := before[ev.tenant].(log := before[ev.tenant].log + [ev])]
  {
    var before, ev, upTo := Written(stores, es[..i]), es[i].event, es[..i + 1];
    assert upTo[..|upTo| - 1] == es[..i] && upTo[|upTo| - 1] == es[i];
    forall t | t in stores
      ensures stores[t].log + EventsOf(upTo, t)
           == (stores[t].log + EventsOf(es[..i], t)) + if ev.tenant == t then [ev] else []
    {
    }
    forall t | t in stores && t != ev.tenant ensures Written(stores, upTo)[t] == before[t] {
      assert stores[t].log + EventsOf(es[..i], t) + [] == stores[t].log + EventsOf(es[..i], t);
    }
  }

  // ----------------------------------------------------------------- counting

  function Elements(ks: seq<Bytes>): set<Bytes> {
    set k | k in ks
  }

  /** Every key the scans of these tenants list. */
  function ScannedKeys(stores: Stores, tenants: set<Bytes>): set<Bytes>
    requires AllValid(stores) && tenants <= stores.Keys
  {
    set t, k | t in tenants && k in ScanKeys(stores[t], t) :: k
  }

  lemma AscendingDistinct(ks: seq<Bytes>)
    requires Ascending(ks)
    ensures NoDuplicates(ks) && SortedStrings(ks)
  {
    forall i, j | 0 <= i < j < |ks| ensures ks[i] != ks[j] && AtMost(ks[i], ks[j]) {
      LessIrreflexive(ks[i]);
      LessTotal(ks[i], ks[j]);
    }
  }

  lemma {:induction false} DistinctCounts(ks: seq<Bytes>)
    requires NoDuplicates(ks)
    ensures |Elements(ks)| == |ks|
  {
    if |ks| > 0 {
      DistinctCounts(ks[1..]);
      assert ks == [ks[0]] + ks[1..];
      assert Elements(ks) == {ks[0]} + Elements(ks[1..]);
      assert ks[0] !in ks[1..];
    }
  }

  lemma NothingScanned(stores: Stores)
    requires AllValid(stores)
    ensures ScannedKeys(stores, {}) == {}
  {
  }

  lemma ScansApart(stores: Stores, t: Bytes, u: Bytes, k: Bytes)
    requires AllValid(stores) && t in stores && u in stores && t != u
    requires ColonFree(t) && ColonFree(u) && k in ScanKeys(stores[t], t)
    ensures k !in ScanKeys(stores[u], u)
  {
    ScanKeysExact(stores[t], t);
    ScanKeysExact(stores[u], u);
    hide ScanKeys, AgencyPrefix, ColonFree;
    AgencyScanExact(t, k);
    AgencyScanExact(u, k);
    ScanRangesDisjoint(t, u, k);
  }

  lemma ScanSize(store: Store, tenant: Bytes)
    requires store.Valid()
    ensures |Elements(ScanKeys(store, tenant))| == |ScanKeys(store, tenant)|
  {
    ScanKeysExact(store, tenant);
    AscendingDistinct(ScanKeys(store, tenant));
    DistinctCounts(ScanKeys(store, tenant));
  }

  lemma ScannedExtends(stores: Stores, done: set<Bytes>, t: Bytes)
    requires AllValid(stores) && done <= stores.Keys && t in stores
    ensures ScannedKeys(stores, done + {t}) == ScannedKeys(stores, done) + Elements(ScanKeys(stores[t], t))
  {
    hide ScanKeys;
  }

  lemma ScannedApart(stores: Stores, done: set<Bytes>, t: Bytes)
    requires AllValid(stores) && done <= stores.Keys && t in stores && t !in done
    requires forall u :: u in stores ==> ColonFree(u)
    ensures ScannedKeys(stores, done) !! Elements(ScanKeys(stores[t], t))
  {
    hide ScanKeys, ColonFree;
    forall k | k in ScannedKeys(stores, done) ensures k !in ScanKeys(stores[t], t) {
      var u :| u in done && k in ScanKeys(stores[u], u);
      ScansApart(stores, u, t, k);
    }
  }

  /** One more tenant brings keys no other tenant has. */
  lemma CountOne(stores: Stores, done: set<Bytes>, t: Bytes)
    requires AllValid(stores) && done <= stores.Keys && t in stores && t !in done
    requires forall u :: u in stores ==> ColonFree(u)
    ensures |ScannedKeys(stores, done + {t})| == |ScannedKeys(stores, done)| + |ScanKeys(stores[t], t)|
  {
    ScanSize(stores[t], t);
    ScannedExtends(stores, done, t);
    ScannedApart(stores, done, t);
  }

  /** Opens tenant after tenant, up to the first that fails. */
  method OpenTenants(tenantIDs: seq<Bytes>, openFails: Bytes -> bool) returns (ok: bool)
    ensures ok <==> forall t :: t in tenantIDs ==> !openFails(t)
  {
    var i := 0;
    while i < |tenantIDs|
      invariant 0 <= i <= |tenantIDs|
      invariant forall j :: 0 <= j < i ==> !openFails(tenantIDs[j])
    {
      if openFails(tenantIDs[i]) {
        return false;
      }
      i := i + 1;
    }
    ok := true;
  }

  class EventPipeline {
    var stores: Stores

    constructor (tenantIDs: seq<Bytes>)
      ensures stores == map t | t in tenantIDs :: Store([], 0)
    {
      stores := map t | t in tenantIDs :: Store([], 0);
    }

    /** Puts one emission after another; an unknown tenant or a failing put ends it, with everything
        before it written. */
    method WriteEmissions(es: seq<Emission>, putFails: nat -> bool) returns (puts: nat, ok: bool)
      modifies this
      ensures puts <= |es| && stores == Written(old(stores), es[..puts])
      ensures forall i :: 0 <= i < puts ==> es[i].event.tenant in old(stores) && !putFails(i)
      ensures ok <==> puts == |es|
      ensures !ok ==> es[puts].event.tenant !in old(stores) || putFails(puts)
    {
      hide Written, EventsOf;
      puts := 0;
      WroteNothing(stores);
      assert es[..0] == [];
      while puts < |es|
        invariant puts <= |es| && stores == Written(old(stores), es[..puts])
        invariant forall i :: 0 <= i < puts ==> es[i].event.tenant in old(stores) && !putFails(i)
      {
        WrittenKeys(old(stores), es[..puts]);
        var ev := es[puts].event;
        if ev.tenant !in stores || putFails(puts) {
          return puts, false;
        }
        WriteExtends(old(stores), es, puts);
        stores := stores[ev.tenant := stores[ev.tenant].(log := stores[ev.tenant].log + [ev])];
        puts := puts + 1;
      }
      assert es[..|es|] == es;
      ok := true;
    }

    /** Flushes tenant after tenant, in any order, up to the first failure. */
    method FlushAll(flushFails: Bytes -> bool) returns (ok: bool)
      modifies this
      ensures stores.Keys == old(stores).Keys
      ensures forall t :: t in stores ==>
        stores[t] == old(stores)[t] || stores[t] == old(stores)[t].(committed := |old(stores)[t].log|)
      ensures ok <==> forall t :: t in old(stores) ==> !flushFails(t)
      ensures ok ==> forall t :: t in stores ==> stores[t] == old(stores)[t].(committed := |old(stores)[t].log|)
    {
      var remaining := stores.Keys;
      while remaining != {}
        invariant stores.Keys == old(stores).Keys && remaining <= stores.Keys
        invariant forall t :: t in remaining ==> stores[t] == old(stores)[t]
        invariant forall t :: t in stores && t !in remaining ==>
          !flushFails(t) && stores[t] == old(stores)[t].(committed := |old(stores)[t].log|)
        decreases remaining
      {
        var t: Bytes :| t in remaining;
        if flushFails(t) {
          return false;
        }
        stores := stores[t := stores[t].(committed := |stores[t].log|)];
        remaining := remaining - {t};
      }
      ok := true;
    }

    /** Maintenance of tenant after tenant, up to the first failure; it changes no key. */
    method CompactAll(compactFails: Bytes -> bool) returns (ok: bool)
      ensures ok <==> forall t :: t in stores ==> !compactFails(t)
    {
      var remaining := stores.Keys;
      while remaining != {}
        invariant remaining <= stores.Keys
        invariant forall t :: t in stores && t !in remaining ==> !compactFails(t)
        decreases remaining
      {
        var t: Bytes :| t in remaining;
        if compactFails(t) {
          return false;
        }
        remaining := remaining - {t};
      }
      ok := true;
    }

    /** Sums the scans, tenant after tenant, up to the first that fails: with colon-free tenants no key
        is counted twice. */
    method CountKeys(scanFails: Bytes -> bool) returns (total: nat, ok: bool)
      requires AllValid(stores)
      ensures ok <==> forall t :: t in stores ==> !scanFails(t)
      ensures ok && (forall t :: t in stores ==> ColonFree(t)) ==> total == |ScannedKeys(stores, stores.Keys)|
    {
      ghost var apart := forall t :: t in stores ==> ColonFree(t);
      total := 0;
      hide ScanKeys, ColonFree, ScannedKeys;
      var remaining := stores.Keys;
      assert apart ==> |ScannedKeys(stores, {})| == 0 by {
        NothingScanned(stores);
      }
      assert stores.Keys - remaining == {};
      while remaining != {}
        invariant remaining <= stores.Keys
        invariant forall t :: t in stores && t !in remaining ==> !scanFails(t)
        invariant apart ==> total == |ScannedKeys(stores, stores.Keys - remaining)|
        decreases remaining
      {
        var t: Bytes :| t in remaining;
        if scanFails(t) {
          return total, false;
        }
        if apart {
          CountOne(stores, stores.Keys - remaining, t);
          assert stores.Keys - remaining + {t} == stores.Keys - (remaining - {t});
        }
        total := total + |ScanKeys(stores[t], t)|;
        remaining := remaining - {t};
      }
      assert stores.Keys - remaining == stores.Keys;
      ok := true;
    }
  }
}
