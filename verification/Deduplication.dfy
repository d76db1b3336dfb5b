/** End to end: emissions written, flushed and scanned back, and what Verify then says. */
module Deduplication {
  import opened ByteStrings
  import opened Keys
  import opened Catalog
  import opened Generator
  import opened Tenants
  import opened Verification

  function FreshStores(tenants: set<Bytes>): Stores {
    map t | t in tenants :: Store([], 0)
  }

  function AllFlushed(stores: Stores): Stores {
    map t | t in stores :: stores[t].(committed := |stores[t].log|)
  }

  /** What the tenants answer: their scans and their change feeds, one change for each put. */
  function AnswersOf(stores: Stores): Reads
    requires AllValid(stores)
  {
    map t | t in stores :: TenantRead(Some(ScanKeys(stores[t], t)), Some(stores[t].committed))
  }

  function Answers(tenants: set<Bytes>, es: seq<Emission>): Reads {
    AnswersOf(AllFlushed(Written(FreshStores(tenants), es)))
  }

  /** Emissions of known tenants with usable names, each either a first emission or a retry. */
  predicate Legible(tenants: set<Bytes>, es: seq<Emission>) {
    forall i :: 0 <= i < |es| ==>
      && es[i].event.tenant in tenants && es[i].event.tenant != "" && ColonFree(es[i].event.tenant)
      && es[i].unique == !es[i].retry
  }

  // ------------------------------------------------------------------ members

  lemma {:induction false} ExpectedMember(es: seq<Emission>, k: Bytes)
    ensures k in ExpectedKeys(es) <==> exists i :: 0 <= i < |es| && es[i].unique && Key(es[i].event) == k
  {
    hide Key;
    if |es| > 0 {
      ExpectedMember(es[1..], k);
      if i :| 0 <= i < |es| && es[i].unique && Key(es[i].event) == k {
        assert i > 0 ==> es[1..][i - 1] == es[i];
      }
      if i :| 0 <= i < |es| - 1 && es[1..][i].unique && Key(es[1..][i].event) == k {
        assert es[1..][i] == es[i + 1];
      }
    }
  }

  lemma {:induction false} EventsMember(es: seq<Emission>, tenant: Bytes, e: Event)
    ensures e in EventsOf(es, tenant) <==> exists i :: 0 <= i < |es| && es[i].event == e && e.tenant == tenant
  {
    if |es| > 0 {
      var init := es[..|es| - 1];
      EventsMember(init, tenant, e);
      if i :| 0 <= i < |es| && es[i].event == e && e.tenant == tenant {
        assert i < |init| ==> init[i].event == e;
      }
      if i :| 0 <= i < |init| && init[i].event == e && e.tenant == tenant {
        assert es[i].event == e;
      }
    }
  }

  /** How often a key occurs among those of one tenant. */
  lemma {:induction false} OfCount(keys: seq<Bytes>, tenant: Bytes, k: Bytes)
    ensures multiset(Of(keys, tenant))[k] == if TenantFromKey(k) == tenant then multiset(keys)[k] else 0
  {
    hide TenantFromKey;
    if |keys| > 0 {
      var init := keys[..|keys| - 1];
      assert keys == init + [keys[|keys| - 1]];
      OfCount(init, tenant, k);
    }
  }

  predicate AtMostOnce(keys: seq<Bytes>, k: Bytes) {
    multiset(keys)[k] <= 1
  }

  lemma OnceInTail(keys: seq<Bytes>, k: Bytes)
    requires |keys| > 0 && keys[0] !in keys[1..] && AtMostOnce(keys[1..], k)
    ensures AtMostOnce(keys, k)
  {
    assert keys == [keys[0]] + keys[1..];
    assert keys[0] in multiset(keys[1..]) <==> keys[0] in keys[1..];
  }

  lemma {:induction false} DistinctOnce(keys: seq<Bytes>, k: Bytes)
    requires NoDuplicates(keys)
    ensures AtMostOnce(keys, k)
  {
    if |keys| > 0 {
      TailDistinct(keys);
      hide NoDuplicates, AtMostOnce;
      DistinctOnce(keys[1..], k);
      OnceInTail(keys, k);
    } else {
      assert multiset(keys) == multiset{};
    }
  }

  lemma TailDistinct(keys: seq<Bytes>)
    requires NoDuplicates(keys) && |keys| > 0
    ensures NoDuplicates(keys[1..]) && keys[0] !in keys[1..]
  {
  }

  lemma OnceEach(keys: seq<Bytes>)
    ensures NoDuplicates(keys) <==> forall k :: multiset(keys)[k] <= 1
  {
    if NoDuplicates(keys) {
      forall k ensures multiset(keys)[k] <= 1 {
        DistinctOnce(keys, k);
      }
    } else {
      var i, j :| 0 <= i < j < |keys| && keys[i] == keys[j];
      TwiceCounts(keys, i, j);
    }
  }

  lemma TwiceCounts(keys: seq<Bytes>, i: nat, j: nat)
    requires i < j < |keys| && keys[i] == keys[j]
    ensures multiset(keys)[keys[i]] >= 2
  {
    assert keys == keys[..j] + [keys[j]] + keys[j + 1..];
    assert keys[..j][i] in multiset(keys[..j]);
  }

  /** A list has the same elements as a duplicate-free one, counted, exactly when it is free of
      duplicates itself and has the same members. */
  lemma SameMultisetIff(want: seq<Bytes>, scan: seq<Bytes>)
    requires NoDuplicates(scan)
    ensures multiset(scan) == multiset(want) <==> NoDuplicates(want) && forall k :: k in want <==> k in scan
  {
    OnceEach(want);
    OnceEach(scan);
    hide NoDuplicates;
    if multiset(scan) == multiset(want) {
      forall k ensures k in want <==> k in scan {
        assert k in want <==> k in multiset(want);
        assert k in scan <==> k in multiset(scan);
      }
    }
    if NoDuplicates(want) && forall k :: k in want <==> k in scan {
      forall k ensures multiset(want)[k] == multiset(scan)[k] {
        assert k in want <==> k in multiset(want);
        assert k in scan <==> k in multiset(scan);
      }
    }
  }

  // -------------------------------------------------------------- one tenant

  predicate TenantKey(es: seq<Emission>, tenant: Bytes, k: Bytes) {
    exists i :: 0 <= i < |es| && es[i].event.tenant == tenant && Key(es[i].event) == k
  }

  function StoreOf(es: seq<Emission>, tenant: Bytes): Store {
    Store(EventsOf(es, tenant), |EventsOf(es, tenant)|)
  }

  lemma StoredAre(tenants: set<Bytes>, es: seq<Emission>)
    ensures AllFlushed(Written(FreshStores(tenants), es)) == map t | t in tenants :: StoreOf(es, t)
  {
    var stores := AllFlushed(Written(FreshStores(tenants), es));
    forall t | t in tenants ensures stores[t] == StoreOf(es, t) {
      assert [] + EventsOf(es, t) == EventsOf(es, t);
    }
  }

  lemma AnswersAre(tenants: set<Bytes>, es: seq<Emission>)
    ensures Answers(tenants, es)
         == map t | t in tenants :: TenantRead(Some(ScanKeys(StoreOf(es, t), t)), Some(|EventsOf(es, t)|))
  {
    StoredAre(tenants, es);
    hide ScanKeys;
  }

  lemma KeyHasPrefix(e: Event)
    ensures AgencyPrefix(e.tenant) <= Key(e)
  {
  }

  lemma ScanIsTenantKeys(es: seq<Emission>, tenant: Bytes)
    ensures Ascending(ScanKeys(StoreOf(es, tenant), tenant))
    ensures forall k :: k in ScanKeys(StoreOf(es, tenant), tenant) <==> TenantKey(es, tenant, k)
  {
    var store := StoreOf(es, tenant);
    ScanKeysExact(store, tenant);
    hide Key, ScanKeys, AgencyPrefix, Ascending;
    forall k ensures k in ScanKeys(store, tenant) <==> TenantKey(es, tenant, k) {
      if k in ScanKeys(store, tenant) {
        var i :| 0 <= i < store.committed && Key(store.log[i]) == k;
        EventsMember(es, tenant, store.log[i]);
      }
      if TenantKey(es, tenant, k) {
        var i :| 0 <= i < |es| && es[i].event.tenant == tenant && Key(es[i].event) == k;
        EventsMember(es, tenant, es[i].event);
        KeyHasPrefix(es[i].event);
        var j :| 0 <= j < |store.log| && store.log[j] == es[i].event;
        assert Key(store.log[j]) == k;
      }
    }
  }

  /** What one more emission adds to the events and to the expected keys of a tenant. */
  lemma OneMore(tenants: set<Bytes>, es: seq<Emission>, tenant: Bytes)
    requires Legible(tenants, es) && |es| > 0
    ensures var init, e := es[..|es| - 1], es[|es| - 1];
            && Legible(tenants, init)
            && |EventsOf(es, tenant)| == |EventsOf(init, tenant)| + (if e.event.tenant == tenant then 1 else 0)
            && ExpectedKeys(es) == ExpectedKeys(init) + (if e.unique then [Key(e.event)] else [])
            && TenantFromKey(Key(e.event)) == e.event.tenant
  {
    var init, e := es[..|es| - 1], es[|es| - 1];
    assert es == init + [e];
    TenantOfKey(tenants, es, |es| - 1);
    hide TenantFromKey, Key;
    ExpectedAppend(init, [e]);
    SingleKeys(e);
  }

  lemma OfOneMore(keys: seq<Bytes>, k: Bytes, tenant: Bytes)
    ensures |Of(keys + [k], tenant)| == |Of(keys, tenant)| + (if TenantFromKey(k) == tenant then 1 else 0)
  {
    hide TenantFromKey, Of;
    var after := keys + [k];
    assert after[..|keys|] == keys && after[..|keys| + 1] == after;
    OfExtends(after, |keys|, tenant);
  }

  lemma {:induction false} TailLongEnough(tenants: set<Bytes>, es: seq<Emission>, tenant: Bytes)
    requires Legible(tenants, es)
    ensures |EventsOf(es, tenant)| >= |Of(ExpectedKeys(es), tenant)|
  {
    if |es| > 0 {
      hide TenantFromKey, Key, Legible, EventsOf, ExpectedKeys, Of;
      OneMore(tenants, es, tenant);
      var init, e := es[..|es| - 1], es[|es| - 1];
      TailLongEnough(tenants, init, tenant);
      OfOneMore(ExpectedKeys(init), Key(e.event), tenant);
      assert ExpectedKeys(init) + [] == ExpectedKeys(init);
    }
  }

  lemma {:induction false} ExpectedFits(es: seq<Emission>)
    ensures |ExpectedKeys(es)| <= |es|
    ensures (exists i :: 0 <= i < |es| && !es[i].unique) ==> |ExpectedKeys(es)| < |es|
  {
    if |es| > 0 {
      ExpectedFits(es[1..]);
      if i :| 0 <= i < |es| && !es[i].unique {
        assert i > 0 ==> es[1..][i - 1] == es[i];
      }
    }
  }

  lemma TenantAcceptedIff(tenants: set<Bytes>, es: seq<Emission>, tenant: Bytes)
    requires Legible(tenants, es) && tenant in tenants
    ensures var want := Of(ExpectedKeys(es), tenant);
            TenantAccepted(Answers(tenants, es), tenant, want) <==>
            (NoDuplicates(want) && forall k :: k in want <==> TenantKey(es, tenant, k))
  {
    var want, scan := Of(ExpectedKeys(es), tenant), ScanKeys(StoreOf(es, tenant), tenant);
    AnswersAre(tenants, es);
    ScanIsTenantKeys(es, tenant);
    AscendingDistinct(scan);
    SameMultisetIff(want, scan);
    TailLongEnough(tenants, es, tenant);
    hide Answers, ScanKeys, NoDuplicates, SortedStrings, Of, ExpectedKeys, EventsOf, TenantKey, Legible;
  }

  // -------------------------------------------------------------- all tenants

  /** Retries repeat first emissions, at least in tenants that have any. */
  predicate RetriesRepeat(es: seq<Emission>) {
    forall i :: 0 <= i < |es| && es[i].retry && es[i].event.tenant in TenantsOf(ExpectedKeys(es))
      ==> Key(es[i].event) in ExpectedKeys(es)
  }

  lemma TenantOfKey(tenants: set<Bytes>, es: seq<Emission>, i: nat)
    requires Legible(tenants, es) && i < |es|
    ensures TenantFromKey(Key(es[i].event)) == es[i].event.tenant
  {
    var e := es[i].event;
    TenantRecoveredIff(e.tenant, e.eventType, e.idempotencyKey);
  }

  lemma OfMember(keys: seq<Bytes>, tenant: Bytes, k: Bytes)
    ensures k in Of(keys, tenant) <==> k in keys && TenantFromKey(k) == tenant
  {
  }

  /** The keys are distinct exactly when those of each tenant are. */
  lemma DistinctByTenant(keys: seq<Bytes>)
    ensures NoDuplicates(keys) <==> forall t :: t in TenantsOf(keys) ==> NoDuplicates(Of(keys, t))
  {
    hide TenantFromKey, NoDuplicates, Of;
    OnceEach(keys);
    if NoDuplicates(keys) {
      forall t | t in TenantsOf(keys) ensures NoDuplicates(Of(keys, t)) {
        forall k ensures multiset(Of(keys, t))[k] <= 1 {
          OfCount(keys, t, k);
        }
        OnceEach(Of(keys, t));
      }
    } else {
      var k :| multiset(keys)[k] > 1;
      assert k in multiset(keys) && k in keys;
      OfCount(keys, TenantFromKey(k), k);
      OnceEach(Of(keys, TenantFromKey(k)));
    }
  }

  lemma ExpectedTenantKnown(tenants: set<Bytes>, es: seq<Emission>, tenant: Bytes)
    requires Legible(tenants, es) && tenant in TenantsOf(ExpectedKeys(es))
    ensures tenant in tenants
  {
    hide TenantFromKey, Key, ExpectedKeys;
    var k :| k in ExpectedKeys(es) && TenantFromKey(k) == tenant;
    ExpectedMember(es, k);
    var i :| 0 <= i < |es| && es[i].unique && Key(es[i].event) == k;
    TenantOfKey(tenants, es, i);
  }

  /** The keys a tenant was written are its expected keys exactly when its retries repeat them. */
  lemma KeysMatchIff(tenants: set<Bytes>, es: seq<Emission>, tenant: Bytes)
    requires Legible(tenants, es)
    ensures (forall k :: k in Of(ExpectedKeys(es), tenant) <==> TenantKey(es, tenant, k))
        <==> forall i :: 0 <= i < |es| && es[i].retry && es[i].event.tenant == tenant
               ==> Key(es[i].event) in ExpectedKeys(es)
  {
    hide TenantFromKey, Key, ExpectedKeys, Of;
    var keys := ExpectedKeys(es);
    forall k ensures k in Of(keys, tenant) ==> TenantKey(es, tenant, k) {
      OfMember(keys, tenant, k);
      if k in Of(keys, tenant) {
        ExpectedMember(es, k);
        var i :| 0 <= i < |es| && es[i].unique && Key(es[i].event) == k;
        TenantOfKey(tenants, es, i);
      }
    }
    forall i | 0 <= i < |es| && es[i].event.tenant == tenant
      ensures TenantKey(es, tenant, Key(es[i].event))
      ensures Key(es[i].event) in Of(keys, tenant) <==> Key(es[i].event) in keys
      ensures es[i].unique ==> Key(es[i].event) in keys
    {
      TenantOfKey(tenants, es, i);
      OfMember(keys, tenant, Key(es[i].event));
      ExpectedMember(es, Key(es[i].event));
    }
  }

  /** End to end, exactly: emissions of known tenants, written to fresh stores, flushed and scanned,
      are accepted by Verify if and only if the first emissions have distinct keys and every retry,
      in a tenant that has a first emission, repeats the key of one. */
  lemma VerifyAcceptsIff(tenants: set<Bytes>, es: seq<Emission>)
    requires Legible(tenants, es)
    ensures Accepts(Answers(tenants, es), es) <==> NoDuplicates(ExpectedKeys(es)) && RetriesRepeat(es)
  {
    var keys := ExpectedKeys(es);
    hide Answers, TenantAccepted, Of, TenantsOf, ExpectedKeys, NoDuplicates, Key, TenantKey;
    DistinctByTenant(keys);
    ExpectedFits(es);
    forall t | t in TenantsOf(keys)
      ensures TenantAccepted(Answers(tenants, es), t, Of(keys, t))
          <==> NoDuplicates(Of(keys, t))
               && forall i :: 0 <= i < |es| && es[i].retry && es[i].event.tenant == t ==> Key(es[i].event) in keys
    {
      ExpectedTenantKnown(tenants, es, t);
      TenantAcceptedIff(tenants, es, t);
      KeysMatchIff(tenants, es, t);
    }
  }

  /** The tenant's scan is sorted, holds each of its expected keys as often as expected and nothing else,
      and its feed has at least as many changes. */
  ghost predicate ScansAsExpected(answers: Reads, expected: seq<Bytes>, tenant: Bytes) {
    && tenant in answers && answers[tenant].keys.Some? && answers[tenant].tail.Some?
    && var keys := answers[tenant].keys.value;
       && (forall i, j :: 0 <= i < j < |keys| ==> !Less(keys[j], keys[i]))
       && (forall k :: k in keys || k in expected ==>
             multiset(keys)[k] == if TenantFromKey(k) == tenant then multiset(expected)[k] else 0)
       && answers[tenant].tail.value >= |keys|
  }

  lemma CountsAre(keys: seq<Bytes>, expected: seq<Bytes>, tenant: Bytes)
    ensures multiset(keys) == multiset(Of(expected, tenant))
        <==> forall k :: k in keys || k in expected ==>
               multiset(keys)[k] == if TenantFromKey(k) == tenant then multiset(expected)[k] else 0
  {
    hide TenantFromKey, Of;
    var want := Of(expected, tenant);
    forall k ensures multiset(want)[k] == if TenantFromKey(k) == tenant then multiset(expected)[k] else 0 {
      OfCount(expected, tenant, k);
    }
    if forall k :: k in keys || k in expected ==>
         multiset(keys)[k] == if TenantFromKey(k) == tenant then multiset(expected)[k] else 0 {
      forall k ensures multiset(keys)[k] == multiset(want)[k] {
        assert k in keys <==> k in multiset(keys);
        assert k in expected <==> k in multiset(expected);
      }
    }
  }

  lemma AcceptedTenantIs(answers: Reads, expected: seq<Bytes>, tenant: Bytes)
    ensures TenantAccepted(answers, tenant, Of(expected, tenant)) <==> ScansAsExpected(answers, expected, tenant)
  {
    hide Of, TenantFromKey, Less;
    if tenant in answers && answers[tenant].keys.Some? {
      var keys := answers[tenant].keys.value;
      CountsAre(keys, expected, tenant);
      if multiset(keys) == multiset(Of(expected, tenant)) {
        SameLength(keys, Of(expected, tenant));
      }
    }
  }

  /** What Verify accepts, of any answers whatever: every expected key's tenant scans as expected, and a
      list with a retry has more emissions than expected keys. */
  lemma AcceptsIs(answers: Reads, es: seq<Emission>)
    ensures Accepts(answers, es) <==>
      && (forall k :: k in ExpectedKeys(es) ==> ScansAsExpected(answers, ExpectedKeys(es), TenantFromKey(k)))
      && (forall i :: 0 <= i < |es| && es[i].retry ==> |es| > |ExpectedKeys(es)|)
  {
    var expected := ExpectedKeys(es);
    ExpectedFits(es);
    hide TenantAccepted, ScansAsExpected, TenantFromKey, Of, ExpectedKeys;
    forall k | k in expected
      ensures TenantAccepted(answers, TenantFromKey(k), Of(expected, TenantFromKey(k)))
          <==> ScansAsExpected(answers, expected, TenantFromKey(k))
    {
      AcceptedTenantIs(answers, expected, TenantFromKey(k));
    }
  }

  /** Acceptance means, for each expected key, that its tenant's scan is sorted and holds it as often as
      expected, and that the tenant's feed has at least as many changes as it has expected keys. */
  lemma AcceptedScansAreExpected(answers: Reads, es: seq<Emission>, k: Bytes)
    requires Accepts(answers, es) && k in ExpectedKeys(es)
    ensures var t := TenantFromKey(k);
            && t in answers && answers[t].keys.Some? && k in answers[t].keys.value
            && SortedStrings(answers[t].keys.value)
            && multiset(answers[t].keys.value)[k] == multiset(ExpectedKeys(es))[k]
            && answers[t].tail.Some? && answers[t].tail.value >= |Of(ExpectedKeys(es), t)| > 0
  {
    var keys, t := ExpectedKeys(es), TenantFromKey(k);
    assert t in TenantsOf(keys);
    assert TenantAccepted(answers, t, Of(keys, t));
    OfCount(keys, t, k);
    assert k in multiset(keys);
    assert k in multiset(answers[t].keys.value);
    assert k in multiset(Of(keys, t));
  }

  // ---------------------------------------------------------- generated runs

  function AllTenantIDs(): seq<Bytes> {
    ["tenant-alpha", "tenant-beta", "tenant-gamma", "tenant-delta", "tenant-epsilon"]
  }

  function TenantTable(): set<Bytes> {
    set t | t in AllTenantIDs()
  }

  /** The tenants the generator draws. */
  function DrawnTenants(): set<Bytes> {
    {"tenant-alpha", "tenant-beta", "tenant-gamma", "tenant-delta", "tenant-epsilon"}
  }

  /** The generator's tenants are the ones the pipeline opens. */
  lemma DrawnTenantsAreOpen()
    ensures DrawnTenants() == TenantTable()
  {
  }

  function TypeTable(): set<Bytes> {
    {"transaction", "balance_check", "settlement", "kyc_update", "fraud_alert"}
  }

  /** Draws come from the tables, and UUIDs never repeat. */
  ghost predicate FromTables(w: World) {
    && (forall n: nat :: w.draws(n).tenant in DrawnTenants() && w.draws(n).eventType in TypeTable())
    && (forall m: nat, n: nat :: m < n ==> w.draws(m).idempotencyKey != w.draws(n).idempotencyKey)
  }

  lemma TablesAreColonFree(s: Bytes)
    requires s in TenantTable() || s in TypeTable()
    ensures ColonFree(s) && s != ""
  {
  }

  lemma {:induction false} DrawnKeyAt(w: World, n: nat, count: nat, i: nat)
    requires i < |DrawnKeys(w, n, count)|
    ensures var d := w.draws(n + i);
            |DrawnKeys(w, n, count)| == count
            && DrawnKeys(w, n, count)[i] == EventKey(d.tenant, d.eventType, d.idempotencyKey)
    decreases count
  {
    DrawnLength(w, n, count);
    if i > 0 {
      DrawnKeyAt(w, n + 1, count - 1, i - 1);
    }
  }

  lemma {:induction false} DrawnLength(w: World, n: nat, count: nat)
    ensures |DrawnKeys(w, n, count)| == count
    decreases count
  {
    if count > 0 {
      DrawnLength(w, n + 1, count - 1);
    }
  }

  lemma DrawsDiffer(d: Draw, e: Draw)
    requires d.tenant in TenantTable() && d.eventType in TypeTable()
    requires e.tenant in TenantTable() && e.eventType in TypeTable()
    requires d.idempotencyKey != e.idempotencyKey
    ensures EventKey(d.tenant, d.eventType, d.idempotencyKey) != EventKey(e.tenant, e.eventType, e.idempotencyKey)
  {
    TablesAreColonFree(d.tenant);
    TablesAreColonFree(d.eventType);
    TablesAreColonFree(e.tenant);
    TablesAreColonFree(e.eventType);
    hide *;
    if EventKey(d.tenant, d.eventType, d.idempotencyKey) == EventKey(e.tenant, e.eventType, e.idempotencyKey) {
      EventKeyInjective(d.tenant, d.eventType, d.idempotencyKey, e.tenant, e.eventType, e.idempotencyKey);
      assert false;
    }
  }

  lemma DrawsApart(w: World, i: nat, j: nat)
    requires FromTables(w) && i < j
    ensures var d, e := w.draws(i), w.draws(j);
            EventKey(d.tenant, d.eventType, d.idempotencyKey) != EventKey(e.tenant, e.eventType, e.idempotencyKey)
  {
    DrawnTenantsAreOpen();
    hide TenantTable, DrawnTenants, TypeTable, EventKey;
    DrawsDiffer(w.draws(i), w.draws(j));
  }

  lemma DrawnDistinct(w: World, count: nat)
    requires FromTables(w)
    ensures NoDuplicates(DrawnKeys(w, 0, count))
  {
    var keys := DrawnKeys(w, 0, count);
    hide FromTables, EventKey, DrawnKeys;
    forall i, j | 0 <= i < j < |keys| ensures keys[i] != keys[j] {
      DrawnKeyAt(w, 0, count, i);
      DrawnKeyAt(w, 0, count, j);
      DrawsApart(w, i, j);
    }
  }

  lemma {:induction false} TenantsFromTable(w: World, total: int, deadline: int, ticks: nat, n: nat)
    requires FromTables(w)
    ensures forall e :: e in From(w, total, deadline, ticks, n).emissions ==> e.event.tenant in TenantTable()
    decreases total - n
  {
    DrawnTenantsAreOpen();
    hide TenantTable, DrawnTenants;
    if n < total {
      TenantsFromTable(w, total, deadline, TicksAfter(w, ticks, n), n + 1);
    }
  }

  lemma GeneratedIsLegible(w: World, total: int, duration: int)
    requires FromTables(w)
    ensures var es := Generate(w, total, duration).emissions;
            && Legible(TenantTable(), es) && NoDuplicates(ExpectedKeys(es))
            && forall i :: 0 <= i < |es| ==> Key(es[i].event) in ExpectedKeys(es)
  {
    var es := Generate(w, total, duration).emissions;
    hide TenantTable, TypeTable, Generate, Key, ExpectedKeys, DrawnKeys, NoDuplicates, ColonFree, FromTables, Twinned;
    RunShape(w, total, duration);
    DrawnDistinct(w, |ExpectedKeys(es)|);
    TenantsOfRun(w, total, duration);
    forall i | 0 <= i < |es|
      ensures es[i].event.tenant in TenantTable() && es[i].event.tenant != "" && ColonFree(es[i].event.tenant)
      ensures es[i].unique == !es[i].retry
      ensures Key(es[i].event) in ExpectedKeys(es)
    {
      assert es[i] in es;
      TablesAreColonFree(es[i].event.tenant);
      TwinIsExpected(es, i);
    }
  }

  lemma TenantsOfRun(w: World, total: int, duration: int)
    requires FromTables(w)
    ensures forall e :: e in Generate(w, total, duration).emissions ==> e.event.tenant in TenantTable()
  {
    hide TenantTable, FromTables;
    if total > 0 {
      TenantsFromTable(w, total, w.clock(0) + duration, 1, 0);
    }
  }

  /** In a run every emission has the key of a first emission. */
  lemma TwinIsExpected(es: seq<Emission>, i: nat)
    requires Twinned(es) && i < |es|
    ensures es[i].unique == !es[i].retry && Key(es[i].event) in ExpectedKeys(es)
  {
    hide Key, ExpectedKeys;
    assert TwinAt(es, i);
    ExpectedMember(es, Key(es[i].event));
  }

  /** Whatever the clock, the cancellations and the random outcomes, what a generator run emits is
      accepted once written, flushed and scanned: its duplicate writes collapse by key. */
  lemma GeneratedRunVerifies(w: World, total: int, duration: int)
    requires FromTables(w)
    ensures var es := Generate(w, total, duration).emissions;
            Accepts(Answers(TenantTable(), es), es)
  {
    GeneratedIsLegible(w, total, duration);
    hide Generate, Key, ExpectedKeys, NoDuplicates, Answers, Accepts, TenantsOf, Legible, TenantTable;
    VerifyAcceptsIff(TenantTable(), Generate(w, total, duration).emissions);
  }

  lemma CommittedKeys(tenants: set<Bytes>, es: seq<Emission>, k: Bytes)
    requires Legible(tenants, es)
    ensures var stores := map t | t in tenants :: StoreOf(es, t);
            k in ScannedKeys(stores, tenants) <==> exists i :: 0 <= i < |es| && Key(es[i].event) == k
  {
    var stores := map t | t in tenants :: StoreOf(es, t);
    forall t ensures k in ScanKeys(StoreOf(es, t), t) <==> TenantKey(es, t, k) {
      ScanIsTenantKeys(es, t);
    }
    hide ScanKeys, Key, EventsOf, ColonFree, StoreOf;
    if i :| 0 <= i < |es| && Key(es[i].event) == k {
      assert TenantKey(es, es[i].event.tenant, k);
      assert k in ScanKeys(stores[es[i].event.tenant], es[i].event.tenant);
    }
    if k in ScannedKeys(stores, tenants) {
      var t :| t in tenants && k in ScanKeys(stores[t], t);
      assert TenantKey(es, t, k);
    }
  }

  /** The stores hold one key for each unique event of a generated run. */
  lemma GeneratedKeyCount(w: World, total: int, duration: int)
    requires FromTables(w)
    ensures var es := Generate(w, total, duration).emissions;
            var stores := AllFlushed(Written(FreshStores(TenantTable()), es));
            AllValid(stores) && stores.Keys == TenantTable()
            && |ScannedKeys(stores, TenantTable())| == |ExpectedKeys(es)|
  {
    var es := Generate(w, total, duration).emissions;
    var stores := AllFlushed(Written(FreshStores(TenantTable()), es));
    var keys := ExpectedKeys(es);
    GeneratedIsLegible(w, total, duration);
    StoredAre(TenantTable(), es);
    hide Generate, TenantTable, Legible, ExpectedKeys, Key, NoDuplicates, ScannedKeys, AllFlushed, Written, EventsOf;
    forall k ensures k in ScannedKeys(stores, TenantTable()) <==> k in keys {
      CommittedKeys(TenantTable(), es, k);
      ExpectedMember(es, k);
    }
    assert ScannedKeys(stores, TenantTable()) == Elements(keys);
    DistinctCounts(keys);
  }
}
