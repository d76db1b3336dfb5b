/** Verify: what it accepts of arbitrary scans, and when writing, flushing and scanning an emission
    list makes it accept. */
module Verification {
  import opened ByteStrings
  import opened Keys
  import opened Catalog
  import opened Generator

  /** What an open tenant answers: its key scan and its change feed count, either of which may fail. */
  datatype TenantRead = TenantRead(keys: Option<seq<Bytes>>, tail: Option<nat>)

  type Reads = map<Bytes, TenantRead>

  datatype Result = Result(putCount: nat, uniqueKeysExpected: nat,
                           keysByTenant: map<Bytes, seq<Bytes>>, tailCountByTenant: map<Bytes, nat>)

  // ----------------------------------------------------------------- grouping

  /** The keys of one tenant, in order. */
  function Of(keys: seq<Bytes>, tenant: Bytes): seq<Bytes> {
    if |keys| == 0 then []
    else
      var last := keys[|keys| - 1];
      Of(keys[..|keys| - 1], tenant) + (if TenantFromKey(last) == tenant then [last] else [])
  }

  function TenantsOf(keys: seq<Bytes>): set<Bytes> {
    set k | k in keys :: TenantFromKey(k)
  }

  predicate Grouped(keys: seq<Bytes>, groups: map<Bytes, seq<Bytes>>) {
    groups.Keys == TenantsOf(keys) && forall t :: t in groups ==> groups[t] == Of(keys, t)
  }

  lemma {:induction false} OfAbsent(keys: seq<Bytes>, tenant: Bytes)
    requires tenant !in TenantsOf(keys)
    ensures Of(keys, tenant) == []
  {
    hide TenantFromKey;
    if |keys| > 0 {
      assert keys[|keys| - 1] in keys;
      assert TenantsOf(keys[..|keys| - 1]) <= TenantsOf(keys);
      OfAbsent(keys[..|keys| - 1], tenant);
    }
  }

  lemma OfExtends(keys: seq<Bytes>, i: nat, tenant: Bytes)
    requires i < |keys|
    ensures Of(keys[..i + 1], tenant)
         == if TenantFromKey(keys[i]) == tenant then Of(keys[..i], tenant) + [keys[i]] else Of(keys[..i], tenant)
  {
    hide TenantFromKey;
    var upTo := keys[..i + 1];
    assert upTo[..|upTo| - 1] == keys[..i] && upTo[|upTo| - 1] == keys[i];
    assert Of(keys[..i], tenant) + [] == Of(keys[..i], tenant);
  }

  lemma TenantsExtend(keys: seq<Bytes>, i: nat)
    requires i < |keys|
    ensures TenantsOf(keys[..i + 1]) == TenantsOf(keys[..i]) + {TenantFromKey(keys[i])}
  {
  }

  lemma GroupOne(keys: seq<Bytes>, i: nat, groups: map<Bytes, seq<Bytes>>)
    requires i < |keys| && Grouped(keys[..i], groups)
    ensures var t := TenantFromKey(keys[i]);
            Grouped(keys[..i + 1], groups[t := (if t in groups then groups[t] else []) + [keys[i]]])
  {
    hide TenantFromKey, Of, TenantsOf;
    var t := TenantFromKey(keys[i]);
    if t !in groups {
      OfAbsent(keys[..i], t);
    }
    TenantsExtend(keys, i);
    forall u ensures Of(keys[..i + 1], u) == if t == u then Of(keys[..i], u) + [keys[i]] else Of(keys[..i], u) {
      OfExtends(keys, i, u);
    }
  }

  method GroupKeysByTenant(keys: seq<Bytes>) returns (out: map<Bytes, seq<Bytes>>)
    ensures out.Keys == TenantsOf(keys)
    ensures forall t :: t in out ==> out[t] == Sort(Of(keys, t))
  {
    out := map[];
    var i := 0;
    while i < |keys|
      invariant 0 <= i <= |keys| && Grouped(keys[..i], out)
    {
      GroupOne(keys, i, out);
      var tenant := TenantFromKey(keys[i]);
      out := out[tenant := (if tenant in out then out[tenant] else []) + [keys[i]]];
      i := i + 1;
    }
    assert keys[..|keys|] == keys;
    var unsorted := out.Keys;
    while unsorted != {}
      invariant out.Keys == TenantsOf(keys) && unsorted <= out.Keys
      invariant forall t :: t in unsorted ==> out[t] == Of(keys, t)
      invariant forall t :: t in out && t !in unsorted ==> out[t] == Sort(Of(keys, t))
      decreases unsorted
    {
      var t: Bytes :| t in unsorted;
      out := out[t := Sort(out[t])];
      unsorted := unsorted - {t};
    }
  }

  // ------------------------------------------------------------------- checks

  /** Comparing neighbours is enough. */
  method VerifyKeyOrder(keys: seq<Bytes>) returns (ok: bool)
    ensures ok <==> SortedStrings(keys)
  {
    var i := 1;
    while i < |keys|
      invariant 1 <= i && (i <= |keys| || |keys| == 0)
      invariant i <= |keys| ==> SortedStrings(keys[..i])
    {
      if Less(keys[i], keys[i - 1]) {
        assert !AtMost(keys[i - 1], keys[i]);
        return false;
      }
      SortedExtends(keys, i);
      i := i + 1;
    }
    assert |keys| > 0 ==> keys[..i] == keys;
    ok := true;
  }

  lemma SortedExtends(keys: seq<Bytes>, i: nat)
    requires 1 <= i < |keys| && SortedStrings(keys[..i]) && AtMost(keys[i - 1], keys[i])
    ensures SortedStrings(keys[..i + 1])
  {
    var upTo := keys[..i];
    hide AtMost;
    forall j | 0 <= j < i ensures AtMost(keys[j], keys[i]) {
      if j < i - 1 {
        assert AtMost(upTo[j], upTo[i - 1]);
        AtMostTransitive(keys[j], keys[i - 1], keys[i]);
      }
    }
    assert forall j, k :: 0 <= j < k < i ==> AtMost(upTo[j], upTo[k]);
    assert forall j :: 0 <= j < i ==> keys[..i + 1][j] == upTo[j];
  }

  lemma SortDecides(want: seq<Bytes>, got: seq<Bytes>)
    ensures |Sort(want)| == |want| && |Sort(got)| == |got|
    ensures multiset(want) == multiset(got) <==> Sort(want) == Sort(got)
  {
    SortCorrect(want);
    SortCorrect(got);
    SameLength(Sort(want), want);
    SameLength(Sort(got), got);
    hide Sort;
    if multiset(want) == multiset(got) {
      SortUnique(got, Sort(want));
    }
  }

  method VerifyKeySet(want: seq<Bytes>, got: seq<Bytes>) returns (ok: bool)
    ensures ok <==> multiset(want) == multiset(got)
  {
    hide Sort;
    SortDecides(want, got);
    if |want| != |got| {
      return false;
    }
    var ws, gs := Sort(want), Sort(got);
    var i := 0;
    while i < |ws|
      invariant 0 <= i <= |ws| && forall j :: 0 <= j < i ==> ws[j] == gs[j]
    {
      if ws[i] != gs[i] {
        return false;
      }
      i := i + 1;
    }
    assert ws == gs;
    ok := true;
  }

  // ------------------------------------------------------------------- verify

  /** One tenant's scan is in order and is its expected keys, and its feed is long enough. */
  predicate TenantAccepted(answers: Reads, tenant: Bytes, want: seq<Bytes>) {
    && tenant in answers && answers[tenant].keys.Some? && answers[tenant].tail.Some?
    && SortedStrings(answers[tenant].keys.value)
    && multiset(answers[tenant].keys.value) == multiset(want)
    && answers[tenant].tail.value >= |want|
  }

  predicate HasRetry(es: seq<Emission>) {
    exists i :: 0 <= i < |es| && es[i].retry
  }

  predicate Accepts(answers: Reads, es: seq<Emission>) {
    var expected := ExpectedKeys(es);
    && (forall t :: t in TenantsOf(expected) ==> TenantAccepted(answers, t, Of(expected, t)))
    && |es| >= |expected|
    && (HasRetry(es) ==> |es| > |expected|)
  }

  method VerifyTenant(answers: Reads, tenant: Bytes, want: seq<Bytes>, ghost original: seq<Bytes>)
    returns (keys: seq<Bytes>, tail: nat, ok: bool)
    requires want == Sort(original)
    ensures ok <==> TenantAccepted(answers, tenant, original)
    ensures ok ==> keys == answers[tenant].keys.value && tail == answers[tenant].tail.value
  {
    SortCorrect(original);
    SameLength(want, original);
    keys, tail, ok := [], 0, false;
    if tenant !in answers || answers[tenant].keys.None? {
      return;
    }
    keys := answers[tenant].keys.value;
    var ordered := VerifyKeyOrder(keys);
    if !ordered {
      return;
    }
    var same := VerifyKeySet(want, keys);
    if !same || answers[tenant].tail.None? {
      return;
    }
    tail := answers[tenant].tail.value;
    ok := tail >= |want|;
  }

  lemma AcceptedIsRead(answers: Reads, tenant: Bytes, want: seq<Bytes>)
    requires TenantAccepted(answers, tenant, want)
    ensures tenant in answers && answers[tenant].keys.Some? && answers[tenant].tail.Some?
  {
  }

  /** What was recorded for the tenants passed so far. */
  predicate Recorded(answers: Reads, res: Result, tenants: set<Bytes>) {
    && res.keysByTenant.Keys == tenants && res.tailCountByTenant.Keys == tenants
    && tenants <= answers.Keys
    && (forall t :: t in tenants ==> Some(res.keysByTenant[t]) == answers[t].keys)
    && (forall t :: t in tenants ==> Some(res.tailCountByTenant[t]) == answers[t].tail)
  }

  /** The loop over the expected tenants, in any order, up to the first that is rejected. */
  method VerifyTenants(answers: Reads, expected: seq<Bytes>, initial: Result) returns (res: Result, ok: bool)
    requires initial.keysByTenant == map[] && initial.tailCountByTenant == map[]
    ensures ok <==> forall t :: t in TenantsOf(expected) ==> TenantAccepted(answers, t, Of(expected, t))
    ensures res.putCount == initial.putCount && res.uniqueKeysExpected == initial.uniqueKeysExpected
    ensures ok ==> Recorded(answers, res, TenantsOf(expected))
  {
    hide TenantAccepted, Of, Sort, TenantsOf;
    var expectedByTenant := GroupKeysByTenant(expected);
    res := initial;
    var remaining := expectedByTenant.Keys;
    while remaining != {}
      invariant remaining <= expectedByTenant.Keys
      invariant res.putCount == initial.putCount && res.uniqueKeysExpected == initial.uniqueKeysExpected
      invariant Recorded(answers, res, expectedByTenant.Keys - remaining)
      invariant forall t :: t in expectedByTenant.Keys - remaining ==> TenantAccepted(answers, t, Of(expected, t))
      decreases remaining
    {
      var tenant: Bytes :| tenant in remaining;
      var keys, tail, accepted := VerifyTenant(answers, tenant, expectedByTenant[tenant], Of(expected, tenant));
      if !accepted {
        return res, false;
      }
      AcceptedIsRead(answers, tenant, Of(expected, tenant));
      res := res.(keysByTenant := res.keysByTenant[tenant := keys],
                  tailCountByTenant := res.tailCountByTenant[tenant := tail]);
      remaining := remaining - {tenant};
    }
    ok := true;
  }

  /** Verify accepts exactly the right scans, whatever the order it meets the tenants in. */
  method Verify(answers: Reads, es: seq<Emission>) returns (res: Result, ok: bool)
    ensures ok <==> Accepts(answers, es)
    ensures res.putCount == |es| && res.uniqueKeysExpected == |ExpectedKeys(es)|
    ensures ok ==> Recorded(answers, res, TenantsOf(ExpectedKeys(es)))
  {
    hide TenantAccepted, Of, TenantsOf, ExpectedKeys, Recorded;
    var expected := CollectExpectedKeys(es);
    res, ok := VerifyTenants(answers, expected, Result(|es|, |expected|, map[], map[]));
    if !ok || res.putCount < res.uniqueKeysExpected {
      return res, false;
    }
    var hasRetry := false;
    var i := 0;
    while i < |es|
      invariant 0 <= i <= |es| && !hasRetry
      invariant forall j :: 0 <= j < i ==> !es[j].retry
    {
      if es[i].retry {
        hasRetry := true;
        break;
      }
      i := i + 1;
    }
    ok := !(hasRetry && res.putCount <= res.uniqueKeysExpected);
  }
}
