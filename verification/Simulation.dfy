/** The simulation: generate, write, flush, count, compact, count again and verify. */
module Simulation {
  import opened ByteStrings
  import opened Keys
  import opened Catalog
  import opened Generator
  import opened Tenants
  import opened Verification
  import opened Deduplication

  datatype Report =
    | Failed
    | Passed(putCount: nat, uniqueExpected: nat, preCompactKeys: nat, postCompactKeys: nat,
             tailByTenant: map<Bytes, nat>)

  /** What can go wrong in the store: scans happen before and after compaction and when verifying. */
  datatype Phase = BeforeCompaction | AfterCompaction | Verifying

  datatype Faults = Faults(open: Bytes -> bool, put: nat -> bool, flush: Bytes -> bool, compact: Bytes -> bool,
                           scan: (Phase, Bytes) -> bool, feed: Bytes -> bool)

  ghost predicate NoFault(f: Faults, es: seq<Emission>) {
    && (forall i :: 0 <= i < |es| ==> !f.put(i))
    && (forall t :: t in TenantTable() ==> !f.open(t) && !f.flush(t) && !f.compact(t))
    && (forall t :: t in TenantTable() ==> !f.scan(BeforeCompaction, t) && !f.scan(AfterCompaction, t))
    && ReadsWork(f, es)
  }

  /** Verifying reads only the tenants that have expected keys. */
  ghost predicate ReadsWork(f: Faults, es: seq<Emission>) {
    forall t :: t in TenantsOf(ExpectedKeys(es)) ==> !f.scan(Verifying, t) && !f.feed(t)
  }

  /** What the tenants answer when some of their reads fail. */
  function WithFaults(answers: Reads, f: Faults): Reads {
    map t | t in answers ::
      TenantRead(if f.scan(Verifying, t) then None else answers[t].keys,
                 if f.feed(t) then None else answers[t].tail)
  }

  lemma FaultsDecide(answers: Reads, f: Faults, es: seq<Emission>)
    requires Accepts(answers, es)
    ensures Accepts(WithFaults(answers, f), es) <==> ReadsWork(f, es)
  {
    var expected := ExpectedKeys(es);
    hide Of, ExpectedKeys, TenantsOf, SortedStrings;
    forall t | t in TenantsOf(expected)
      ensures TenantAccepted(WithFaults(answers, f), t, Of(expected, t)) <==> !f.scan(Verifying, t) && !f.feed(t)
    {
      assert TenantAccepted(answers, t, Of(expected, t));
    }
  }

  lemma NewStores()
    ensures (map t | t in AllTenantIDs() :: Store([], 0)) == FreshStores(TenantTable())
    ensures forall t :: t in AllTenantIDs() <==> t in TenantTable()
    ensures forall t :: t in TenantTable() ==> ColonFree(t)
  {
    forall t | t in TenantTable() ensures ColonFree(t) {
      TablesAreColonFree(t);
    }
  }

  lemma TailsCountPuts(es: seq<Emission>, f: Faults, res: Result)
    requires Recorded(WithFaults(Answers(TenantTable(), es), f), res, TenantsOf(ExpectedKeys(es)))
    ensures res.tailCountByTenant.Keys == TenantsOf(ExpectedKeys(es))
    ensures forall t :: t in res.tailCountByTenant ==> res.tailCountByTenant[t] == |EventsOf(es, t)|
  {
    AnswersAre(TenantTable(), es);
    hide Answers, TenantTable, ScanKeys, EventsOf, ExpectedKeys, TenantsOf;
  }

  lemma FlushedStores(written: Stores, flushed: Stores)
    requires flushed.Keys == written.Keys
    requires forall t :: t in flushed ==> flushed[t] == written[t].(committed := |written[t].log|)
    ensures flushed == AllFlushed(written)
  {
  }

  /** The emissions of a run belong to known tenants, so no write ends on an unknown one. */
  lemma TenantsAreOpen(w: World, total: int, duration: int)
    requires FromTables(w)
    ensures forall e :: e in Generate(w, total, duration).emissions ==> e.event.tenant in TenantTable()
  {
    GeneratedIsLegible(w, total, duration);
  }

  /** Nothing but cancellation, a missing UUID or a failing store can fail the simulation: whatever
      the clock and the random outcomes, it otherwise passes, finds one key for each unique event
      before and after compaction, has put every emission, and counts each tenant's puts in its feed. */
  method Run(w: World, total: int, duration: int, faults: Faults) returns (report: Report)
    requires FromTables(w)
    ensures var output := Generate(w, total, duration);
            && (report.Passed? <==> output.ending.Done? && NoFault(faults, output.emissions))
            && (report.Passed? ==>
                  && report.putCount == |output.emissions|
                  && report.uniqueExpected == |ExpectedKeys(output.emissions)|
                  && report.preCompactKeys == report.postCompactKeys == report.uniqueExpected
                  && report.tailByTenant.Keys == TenantsOf(ExpectedKeys(output.emissions))
                  && forall t :: t in report.tailByTenant ==>
                       report.tailByTenant[t] == |EventsOf(output.emissions, t)|)
  {
    hide Generate, Key, ExpectedKeys, Accepts, Written, AllFlushed, ScannedKeys, AnswersOf, Recorded, TenantsOf,
      EventsOf, TenantTable, AllTenantIDs, FromTables, ColonFree, AllValid, ReadsWork, WithFaults;
    GeneratedRunVerifies(w, total, duration);
    GeneratedKeyCount(w, total, duration);
    TenantsAreOpen(w, total, duration);
    NewStores();
    var emissions, ending := Generator.Run(w, total, duration);
    if !ending.Done? {
      return Failed;
    }
    assert forall i :: 0 <= i < |emissions| ==> emissions[i] in emissions;
    var available := OpenTenants(AllTenantIDs(), faults.open);
    if !available {
      return Failed;
    }
    var p := new EventPipeline(AllTenantIDs());
    assert p.stores.Keys == TenantTable();
    var puts, written := p.WriteEmissions(emissions, faults.put);
    if !written {
      return Failed;
    }
    ghost var stored := p.stores;
    WrittenKeys(FreshStores(TenantTable()), emissions);
    assert emissions[..puts] == emissions;
    var flushed := p.FlushAll(faults.flush);
    if !flushed {
      return Failed;
    }
    FlushedStores(stored, p.stores);
    var pre, counted := p.CountKeys(t => faults.scan(BeforeCompaction, t));
    if !counted {
      return Failed;
    }
    var compacted := p.CompactAll(faults.compact);
    if !compacted {
      return Failed;
    }
    var post, recounted := p.CountKeys(t => faults.scan(AfterCompaction, t));
    if !recounted {
      return Failed;
    }
    ghost var answers := AnswersOf(p.stores);
    assert answers == Answers(TenantTable(), emissions);
    FaultsDecide(answers, faults, emissions);
    var verified, ok := Verify(WithFaults(AnswersOf(p.stores), faults), emissions);
    if !ok {
      return Failed;
    }
    TailsCountPuts(emissions, faults, verified);
    report := Passed(puts, verified.uniqueKeysExpected, pre, post, verified.tailCountByTenant);
  }
}
