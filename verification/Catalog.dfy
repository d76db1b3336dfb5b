/** The fixed catalog: map regions, their agencies and feeds, and the clock constants. */
module Catalog {
  import opened ByteStrings

  /** Nanoseconds per second. Times are nanoseconds since Go's zero time, so IsZero is `== 0`. */
  const SECOND: int := 1_000_000_000

  const KLANG_VALLEY: Bytes := "klang-valley"
  const PENANG: Bytes := "penang"

  function RegionIDs(): set<Bytes> {
    {KLANG_VALLEY, "national", PENANG, "east-coast", "johor", "sarawak", "northern", "central"}
  }

  predicate KnownRegion(id: Bytes) {
    id in RegionIDs()
  }

  function AllFeeds(): seq<Bytes> {
    ["ktmb", "prasarana-rapid-bus-kl", "prasarana-rapid-bus-mrtfeeder", "prasarana-rapid-bus-kuantan",
     "prasarana-rapid-bus-penang", "mybas-kangar", "mybas-alor-setar", "mybas-kota-bharu",
     "mybas-kuala-terengganu", "mybas-ipoh", "mybas-seremban-a", "mybas-seremban-b", "mybas-melaka",
     "mybas-johor", "mybas-kuching"]
  }

  datatype Option<+T> = None | Some(value: T)

  /** The agencies of a region; None for an unknown region id. */
  function AgenciesForRegion(id: Bytes): Option<seq<Bytes>> {
    if id == KLANG_VALLEY then Some(["prasarana-rapid-bus-kl", "prasarana-rapid-bus-mrtfeeder"])
    else if id == "national" then Some(["ktmb"])
    else if id == PENANG then Some(["prasarana-rapid-bus-penang"])
    else if id == "east-coast" then
      Some(["prasarana-rapid-bus-kuantan", "mybas-kota-bharu", "mybas-kuala-terengganu"])
    else if id == "johor" then Some(["mybas-johor"])
    else if id == "sarawak" then Some(["mybas-kuching"])
    else if id == "northern" then Some(["mybas-kangar", "mybas-alor-setar", "mybas-ipoh"])
    else if id == "central" then Some(["mybas-seremban-a", "mybas-seremban-b", "mybas-melaka"])
    else None
  }

  function Keep(feeds: seq<Bytes>, agencies: seq<Bytes>): seq<Bytes> {
    if |feeds| == 0 then []
    else if feeds[0] in agencies then [feeds[0]] + Keep(feeds[1..], agencies)
    else Keep(feeds[1..], agencies)
  }

  /** The feeds of a region, in catalog order; None for an unknown region id. */
  function FeedsForRegion(id: Bytes): Option<seq<Bytes>> {
    match AgenciesForRegion(id)
    case None => None
    case Some(agencies) => Some(Keep(AllFeeds(), agencies))
  }

  lemma {:induction false} KeepMember(feeds: seq<Bytes>, agencies: seq<Bytes>, a: Bytes)
    ensures a in Keep(feeds, agencies) <==> a in feeds && a in agencies
  {
    if |feeds| > 0 {
      assert feeds == [feeds[0]] + feeds[1..];
      KeepMember(feeds[1..], agencies, a);
    }
  }

  /** Every catalog region, and no other id, resolves to feeds, and to at least one. */
  lemma RegionHasFeeds(id: Bytes)
    ensures KnownRegion(id) <==> FeedsForRegion(id).Some?
    ensures KnownRegion(id) ==> id != "" && |FeedsForRegion(id).value| > 0
  {
    if KnownRegion(id) {
      var agencies := AgenciesForRegion(id).value;
      KeepMember(AllFeeds(), agencies, agencies[0]);
      var all := AllFeeds();
      assert all[0] == "ktmb" && all[1] == "prasarana-rapid-bus-kl"
        && all[3] == "prasarana-rapid-bus-kuantan" && all[4] == "prasarana-rapid-bus-penang"
        && all[5] == "mybas-kangar" && all[10] == "mybas-seremban-a"
        && all[13] == "mybas-johor" && all[14] == "mybas-kuching";
      assert agencies[0] in all;
    }
  }

  /** The bucket each feed names itself. */
  function BucketOf(agency: Bytes): Bytes {
    if agency == "ktmb" then "national"
    else if agency in ["prasarana-rapid-bus-kl", "prasarana-rapid-bus-mrtfeeder"] then "klang-valley"
    else if agency == "prasarana-rapid-bus-penang" then "penang"
    else if agency in ["prasarana-rapid-bus-kuantan", "mybas-kota-bharu", "mybas-kuala-terengganu"] then "east-coast"
    else if agency in ["mybas-kangar", "mybas-alor-setar", "mybas-ipoh"] then "northern"
    else if agency in ["mybas-seremban-a", "mybas-seremban-b", "mybas-melaka"] then "central"
    else if agency == "mybas-johor" then "johor"
    else if agency == "mybas-kuching" then "sarawak"
    else ""
  }

  lemma AgenciesHaveBucket(id: Bytes, i: nat)
    requires AgenciesForRegion(id).Some? && i < |AgenciesForRegion(id).value|
    ensures BucketOf(AgenciesForRegion(id).value[i]) == id
  {
  }

  lemma BucketIsListed(agency: Bytes)
    requires BucketOf(agency) != ""
    ensures AgenciesForRegion(BucketOf(agency)).Some? && agency in AgenciesForRegion(BucketOf(agency)).value
  {
  }

  lemma BucketsAgree(id: Bytes, agency: Bytes)
    requires AgenciesForRegion(id).Some? && id != ""
    ensures agency in AgenciesForRegion(id).value <==> BucketOf(agency) == id
  {
    hide AgenciesForRegion, BucketOf;
    if i :| 0 <= i < |AgenciesForRegion(id).value| && AgenciesForRegion(id).value[i] == agency {
      AgenciesHaveBucket(id, i);
    }
    if BucketOf(agency) == id {
      BucketIsListed(agency);
    }
  }

  lemma BucketsAreFeeds(agency: Bytes)
    requires BucketOf(agency) != ""
    ensures agency in AllFeeds()
  {
    var all := AllFeeds();
    assert all[0] == "ktmb" && all[1] == "prasarana-rapid-bus-kl" && all[2] == "prasarana-rapid-bus-mrtfeeder";
    assert all[3] == "prasarana-rapid-bus-kuantan" && all[4] == "prasarana-rapid-bus-penang";
    assert all[5] == "mybas-kangar" && all[6] == "mybas-alor-setar" && all[7] == "mybas-kota-bharu";
    assert all[8] == "mybas-kuala-terengganu" && all[9] == "mybas-ipoh" && all[10] == "mybas-seremban-a";
    assert all[11] == "mybas-seremban-b" && all[12] == "mybas-melaka";
    assert all[13] == "mybas-johor" && all[14] == "mybas-kuching";
  }

  /** The two tables agree: a region's feeds are exactly those whose own bucket is that region. */
  lemma FeedsAreTheBuckets(id: Bytes, agency: Bytes)
    requires KnownRegion(id)
    ensures FeedsForRegion(id).Some?
    ensures agency in FeedsForRegion(id).value <==> BucketOf(agency) == id
  {
    RegionHasFeeds(id);
    BucketsAgree(id, agency);
    KeepMember(AllFeeds(), AgenciesForRegion(id).value, agency);
    hide AllFeeds, AgenciesForRegion, BucketOf, Keep;
    if BucketOf(agency) == id {
      BucketsAreFeeds(agency);
    }
  }

  /** Eight regions: the bound behind every "each other region at most once" argument. */
  lemma CatalogSize()
    ensures |RegionIDs()| == 8
  {
  }
}
