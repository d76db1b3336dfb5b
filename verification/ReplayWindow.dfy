/** A replay limited by From and To sends the matching window of the unlimited replay. */
module ReplayWindow {
  import opened ByteStrings
  import opened Catalog
  import opened Positions
  import opened Replay

  predicate SameSlot(p: Position, q: Position) {
    At(p) == At(q) && p.agency == q.agency && p.vehicleID == q.vehicleID
  }

  /** No vehicle appears twice in one second, so the sort has only one outcome. */
  ghost predicate UniqueSeconds(ps: seq<Position>) {
    forall i, j :: 0 <= i < j < |ps| ==> !SameSlot(ps[i], ps[j])
  }

  predicate WholeSeconds(ps: seq<Position>) {
    forall i :: 0 <= i < |ps| ==> ps[i].timestamp % SECOND == 0
  }

  lemma ReplayLessAsymmetric(p: Position, q: Position)
    requires ReplayLess(p, q)
    ensures !ReplayLess(q, p) && p != q
  {
    hide At;
    LessTotal(p.agency, q.agency);
    LessTotal(p.vehicleID, q.vehicleID);
    LessIrreflexive(p.vehicleID);
  }

  /** Each element precedes the next ones strictly. */
  ghost predicate StrictOrder(s: seq<Position>) {
    forall i, j :: 0 <= i < j < |s| ==> ReplayLess(s[i], s[j])
  }

  lemma HeadIsLeast(a: seq<Position>, b: seq<Position>)
    requires StrictOrder(a) && StrictOrder(b) && multiset(a) == multiset(b) && |a| > 0 && |b| > 0
    ensures a[0] == b[0]
  {
    hide ReplayLess;
    assert a[0] in multiset(a) && b[0] in multiset(b);
    assert a[0] in b && b[0] in a;
    if a[0] != b[0] {
      assert ReplayLess(a[0], b[0]);
      assert ReplayLess(b[0], a[0]);
      ReplayLessAsymmetric(a[0], b[0]);
      assert false;
    }
  }

  lemma TailStrict(a: seq<Position>)
    requires StrictOrder(a) && |a| > 0
    ensures StrictOrder(a[1..]) && multiset(a[1..]) == multiset(a) - multiset{a[0]}
  {
    hide ReplayLess;
    assert a == [a[0]] + a[1..];
  }

  lemma {:induction false} StrictOrderUnique(a: seq<Position>, b: seq<Position>)
    requires StrictOrder(a) && StrictOrder(b) && multiset(a) == multiset(b)
    ensures a == b
  {
    hide ReplayLess, StrictOrder;
    assert |a| == |multiset(a)| && |b| == |multiset(b)|;
    if |a| > 0 {
      HeadIsLeast(a, b);
      TailStrict(a);
      TailStrict(b);
      StrictOrderUnique(a[1..], b[1..]);
      assert a == [a[0]] + a[1..] && b == [b[0]] + b[1..];
    }
  }

  lemma OccursTwice(s: seq<Position>, i: nat, j: nat)
    requires i < j < |s| && s[i] == s[j]
    ensures multiset(s)[s[i]] >= 2
  {
    assert s == s[..j] + [s[j]] + s[j + 1..];
    assert s[..j][i] == s[i];
    assert s[i] in multiset(s[..j]);
  }

  lemma TwoPlaces(s: seq<Position>, x: Position) returns (i: nat, j: nat)
    requires multiset(s)[x] >= 2
    ensures i < j < |s| && s[i] == x && s[j] == x
  {
    assert x in multiset(s);
    i :| 0 <= i < |s| && s[i] == x;
    assert s == s[..i] + [x] + s[i + 1..];
    var rest := s[..i] + s[i + 1..];
    assert multiset(rest)[x] >= 1;
    var k :| 0 <= k < |rest| && rest[k] == x;
    if k < i {
      assert s[k] == x;
      i, j := k, i;
    } else {
      assert s[k + 1] == x;
      j := k + 1;
    }
  }

  lemma UniqueInAnyOrder(a: seq<Position>, b: seq<Position>)
    requires multiset(a) == multiset(b) && UniqueSeconds(a)
    ensures UniqueSeconds(b)
  {
    hide At;
    forall i, j | 0 <= i < j < |b| ensures !SameSlot(b[i], b[j]) {
      if b[i] == b[j] {
        OccursTwice(b, i, j);
        var k, l := TwoPlaces(a, b[i]);
      } else {
        assert b[i] in multiset(b) && b[j] in multiset(b);
        assert b[i] in a && b[j] in a;
        var k :| 0 <= k < |a| && a[k] == b[i];
        var l :| 0 <= l < |a| && a[l] == b[j];
        assert k < l || l < k;
      }
    }
  }

  lemma OrderIsStrict(mutations: seq<Position>, sorted: seq<Position>)
    requires IsReplayOrder(mutations, sorted) && UniqueSeconds(mutations)
    ensures StrictOrder(sorted)
  {
    UniqueInAnyOrder(mutations, sorted);
    hide At;
    forall i, j | 0 <= i < j < |sorted| ensures ReplayLess(sorted[i], sorted[j]) {
      LessTotal(sorted[i].agency, sorted[j].agency);
      LessTotal(sorted[i].vehicleID, sorted[j].vehicleID);
    }
  }

  predicate UpTo(p: Position, to: int) {
    to == 0 || p.timestamp <= to
  }

  lemma {:induction false} WithinCounts(ps: seq<Position>, to: int, x: Position)
    ensures multiset(Within(ps, to))[x] == if UpTo(x, to) then multiset(ps)[x] else 0
  {
    if |ps| > 0 {
      var front, p := ps[..|ps| - 1], ps[|ps| - 1];
      assert ps == front + [p];
      WithinCounts(front, to, x);
    }
  }

  lemma WithinSameElements(a: seq<Position>, b: seq<Position>, to: int)
    requires multiset(a) == multiset(b)
    ensures multiset(Within(a, to)) == multiset(Within(b, to))
  {
    forall x ensures multiset(Within(a, to))[x] == multiset(Within(b, to))[x] {
      WithinCounts(a, to, x);
      WithinCounts(b, to, x);
    }
  }

  lemma WholeIsAt(s: seq<Position>)
    requires WholeSeconds(s)
    ensures forall i :: 0 <= i < |s| ==> At(s[i]) == s[i].timestamp
  {
  }

  /** In time order, the limit cuts a sequence in two. */
  lemma {:induction false} CutPoint(s: seq<Position>, to: int) returns (n: nat)
    requires forall i, j :: 0 <= i < j < |s| ==> s[i].timestamp <= s[j].timestamp
    ensures n <= |s| && Within(s, to) == s[..n]
    ensures forall i :: 0 <= i < n ==> UpTo(s[i], to)
    ensures n < |s| ==> !UpTo(s[n], to)
  {
    if |s| == 0 {
      n := 0;
    } else {
      var m := |s| - 1;
      var front := s[..m];
      n := CutPoint(front, to);
      assert Within(s, to) == front[..n] + (if UpTo(s[m], to) then [s[m]] else []);
      hide Within;
      assert n < m ==> front[n] == s[n] && s[n].timestamp <= s[m].timestamp;
      if UpTo(s[m], to) {
        assert front[..m] + [s[m]] == s[..|s|];
        n := |s|;
      } else {
        assert front[..n] + [] == s[..n];
      }
    }
  }

  lemma StrictIsTimeOrdered(s: seq<Position>)
    requires StrictOrder(s)
    ensures TimeOrdered(s)
  {
  }

  lemma ExtendTimes(frames: seq<Frame>, p: Position)
    ensures var all := Extend(frames, p);
            && |frames| <= |all| <= |frames| + 1
            && (forall i :: 0 <= i < |frames| ==> all[i].at == frames[i].at)
            && (|all| > |frames| ==> all[|frames|].at == At(p))
  {
  }

  /** Later mutations leave the frames before the cut alone. */
  lemma PrefixStep(frames: seq<Frame>, prefix: seq<Frame>, p: Position, least: int)
    requires |prefix| <= |frames| && frames[..|prefix|] == prefix
    requires forall i :: |prefix| <= i < |frames| ==> frames[i].at >= least
    requires least <= At(p)
    requires |frames| == |prefix| > 0 ==> prefix[|prefix| - 1].at < At(p)
    ensures var all := Extend(frames, p);
            && |prefix| < |all| && all[..|prefix|] == prefix
            && forall i :: |prefix| <= i < |all| ==> all[i].at >= least
  {
  }

  /** s cut before index n leaves the frames of the prefix as they are. */
  ghost predicate FramesCut(s: seq<Position>, n: nat)
    requires n < |s|
  {
    var (prefix, frames) := (Bucket(s[..n]), Bucket(s));
    && |prefix| < |frames| && frames[..|prefix|] == prefix
    && forall i :: |prefix| <= i < |frames| ==> frames[i].at >= At(s[n])
  }

  lemma CutBeforeLast(s: seq<Position>)
    requires |s| > 0
    requires |s| > 1 ==> At(s[|s| - 2]) < At(s[|s| - 1])
    ensures FramesCut(s, |s| - 1)
  {
  }

  lemma CutEarlier(s: seq<Position>, n: nat)
    requires n < |s| - 1 && FramesCut(s[..|s| - 1], n) && At(s[n]) <= At(s[|s| - 1])
    ensures FramesCut(s, n)
  {
    var m := |s| - 1;
    var front := s[..m];
    assert front[..n] == s[..n] && front[n] == s[n];
    assert Bucket(s) == Extend(Bucket(front), s[m]);
    hide At, Extend, Bucket;
    PrefixStep(Bucket(front), Bucket(s[..n]), s[m], At(s[n]));
  }

  /** Bucketing a prefix that ends between two seconds gives a prefix of the frames. */
  lemma {:induction false} BucketPrefix(s: seq<Position>, n: nat)
    requires n < |s| && TimeOrdered(s)
    requires 0 < n ==> At(s[n - 1]) < At(s[n])
    ensures FramesCut(s, n)
  {
    hide FramesCut;
    if n == |s| - 1 {
      CutBeforeLast(s);
    } else {
      BucketPrefixFront(s, n);
      BucketPrefix(s[..|s| - 1], n);
      CutEarlier(s, n);
    }
  }

  lemma BucketPrefixFront(s: seq<Position>, n: nat)
    requires n < |s| - 1 && TimeOrdered(s)
    requires 0 < n ==> At(s[n - 1]) < At(s[n])
    ensures var front := s[..|s| - 1];
            && front[..n] == s[..n] && front[n] == s[n] && TimeOrdered(front)
            && (0 < n ==> At(front[n - 1]) < At(front[n]))
  {
  }

  lemma {:induction false} SplitUnique(frames: seq<Frame>, from: int, k: nat)
    requires k <= |frames|
    requires k > 0 ==> from != 0
    requires forall i :: 0 <= i < k ==> frames[i].at < from
    requires k < |frames| && from != 0 ==> frames[k].at >= from
    ensures Split(frames, from) == k
  {
  }

  lemma FramesOfLimited(mutations: seq<Position>, sorted: seq<Position>, to: int, limited: seq<Position>) returns (k: nat)
    requires IsReplayOrder(mutations, sorted) && IsReplayOrder(Within(mutations, to), limited)
    requires WholeSeconds(mutations) && UniqueSeconds(mutations)
    ensures k <= |Bucket(sorted)| && Bucket(limited) == Bucket(sorted)[..k]
    ensures forall i :: 0 <= i < |Bucket(sorted)| ==> (i < k <==> to == 0 || Bucket(sorted)[i].at <= to)
    ensures TimeOrdered(sorted)
  {
    OrderIsStrict(mutations, sorted);
    StrictIsTimeOrdered(sorted);
    WholeInAnyOrder(mutations, sorted);
    WholeIsAt(sorted);
    assert forall i, j :: 0 <= i < j < |sorted| ==> At(sorted[i]) <= At(sorted[j]);
    hide At;
    var n := CutPoint(sorted, to);
    LimitedIsPrefix(mutations, sorted, to, limited, n);
    k := CutFrames(sorted, to, limited, n);
  }

  lemma CutFrames(sorted: seq<Position>, to: int, limited: seq<Position>, n: nat) returns (k: nat)
    requires n <= |sorted| && limited == sorted[..n] && TimeOrdered(sorted)
    requires forall i :: 0 <= i < |sorted| ==> At(sorted[i]) == sorted[i].timestamp
    requires forall i :: 0 <= i < n ==> UpTo(sorted[i], to)
    requires n < |sorted| ==> !UpTo(sorted[n], to)
    ensures k <= |Bucket(sorted)| && Bucket(limited) == Bucket(sorted)[..k]
    ensures forall i :: 0 <= i < |Bucket(sorted)| ==> (i < k <==> to == 0 || Bucket(sorted)[i].at <= to)
  {
    hide At;
    k := |Bucket(limited)|;
    if n == |sorted| {
      assert limited == sorted;
    } else {
      BucketPrefix(sorted, n);
    }
    FrameTimes(limited);
    hide Bucket, TimeOrdered;
    forall i | 0 <= i < k ensures to == 0 || Bucket(sorted)[i].at <= to {
      var j :| 0 <= j < n && At(limited[j]) == Bucket(limited)[i].at;
      assert limited[j] == sorted[j];
    }
  }

  lemma LimitedIsPrefix(mutations: seq<Position>, sorted: seq<Position>, to: int, limited: seq<Position>, n: nat)
    requires IsReplayOrder(mutations, sorted) && IsReplayOrder(Within(mutations, to), limited)
    requires UniqueSeconds(mutations) && n <= |sorted| && Within(sorted, to) == sorted[..n]
    ensures limited == sorted[..n]
  {
    WithinSameElements(mutations, sorted, to);
    UniqueInAnyOrder(mutations, sorted);
    hide At;
    assert UniqueSeconds(sorted[..n]);
    UniqueInAnyOrder(sorted[..n], Within(mutations, to));
    OrderIsStrict(Within(mutations, to), limited);
    OrderIsStrict(mutations, sorted);
    hide ReplayLess;
    assert StrictOrder(sorted[..n]);
    StrictOrderUnique(limited, sorted[..n]);
  }

  lemma WholeInAnyOrder(a: seq<Position>, b: seq<Position>)
    requires multiset(a) == multiset(b) && WholeSeconds(a)
    ensures WholeSeconds(b)
  {
    forall i | 0 <= i < |b| ensures b[i].timestamp % SECOND == 0 {
      assert b[i] in multiset(b);
      assert b[i] in a;
    }
  }

  /** Every frame time is the second of one of the mutations. */
  lemma {:induction false} FrameTimes(s: seq<Position>)
    ensures forall i :: 0 <= i < |Bucket(s)| ==> exists j :: 0 <= j < |s| && At(s[j]) == Bucket(s)[i].at
  {
    if |s| == 0 {
      assert Bucket(s) == [];
    } else {
      var front, p := s[..|s| - 1], s[|s| - 1];
      FrameTimes(front);
      ExtendTimes(Bucket(front), p);
      var frames, all := Bucket(front), Bucket(s);
      assert all == Extend(frames, p);
      hide At, Extend, Bucket;
      forall i | 0 <= i < |all| ensures exists j :: 0 <= j < |s| && At(s[j]) == all[i].at {
        if i < |frames| {
          var j :| 0 <= j < |front| && At(front[j]) == frames[i].at;
          assert s[j] == front[j];
        } else {
          assert At(s[|s| - 1]) == all[i].at;
        }
      }
    }
  }

  /** With whole-second timestamps and no vehicle twice in one second, whatever the unstable sorts
      do, From and To select exactly the snapshots of the full replay between them. */
  lemma WindowedReplay(mutations: seq<Position>, sorted: seq<Position>, from: int, to: int, limited: seq<Position>,
                       agencies: set<Bytes>) returns (lo: nat, hi: nat)
    requires IsReplayOrder(mutations, sorted) && IsReplayOrder(Within(mutations, to), limited)
    requires WholeSeconds(mutations) && UniqueSeconds(mutations)
    ensures var all := Emission(Bucket(sorted), 0, agencies);
            && IsWindow(all, Emission(Bucket(limited), from, agencies), lo, hi)
            && forall i :: 0 <= i < |all| ==>
                 (lo <= i < hi <==> (from == 0 || from <= all[i].at) && (to == 0 || all[i].at <= to))
  {
    var k := FramesOfLimited(mutations, sorted, to, limited);
    forall i, j | 0 <= i < j < |Bucket(sorted)| ensures Bucket(sorted)[i].at < Bucket(sorted)[j].at {
      FramesIncrease(sorted, i, j);
    }
    hide Bucket, IsReplayOrder, UniqueSeconds, WholeSeconds, TimeOrdered;
    lo := WindowOfFrames(Bucket(sorted), from, to, k, agencies);
    hi := k;
  }

  predicate Increasing(frames: seq<Frame>) {
    forall i, j :: 0 <= i < j < |frames| ==> frames[i].at < frames[j].at
  }

  predicate CutsAt(frames: seq<Frame>, k: nat, to: int) {
    k <= |frames| && forall i :: 0 <= i < |frames| ==> (i < k <==> to == 0 || frames[i].at <= to)
  }

  lemma WindowBounds(frames: seq<Frame>, from: int, to: int, k: nat) returns (lo: nat)
    requires Increasing(frames) && CutsAt(frames, k, to)
    ensures lo <= k && lo == Split(frames[..k], from)
    ensures forall i :: 0 <= i < |frames| ==>
      (lo <= i < k <==> (from == 0 || from <= frames[i].at) && (to == 0 || frames[i].at <= to))
  {
    var s := Split(frames, from);
    lo := if s < k then s else k;
    SplitUnique(frames[..k], from, lo);
    assert forall i :: s < i < |frames| ==> frames[s].at < frames[i].at;
  }

  lemma SameSnapshot(frames: seq<Frame>, k: nat, lo: nat, i: nat, agencies: set<Bytes>)
    requires k <= |frames| && lo + i < k
    ensures SnapshotAt(frames[..k], lo, i, agencies)
            == SnapshotAt(frames, 0, lo + i, agencies).(frame := i + 1, total := k - lo)
  {
    hide Known, Restrict;
    PrefixKnown(frames, k, lo + i + 1);
  }

  lemma WindowContents(frames: seq<Frame>, from: int, k: nat, agencies: set<Bytes>)
    requires k <= |frames|
    ensures IsWindow(Emission(frames, 0, agencies), Emission(frames[..k], from, agencies), Split(frames[..k], from), k)
  {
    var all, some, lo := Emission(frames, 0, agencies), Emission(frames[..k], from, agencies), Split(frames[..k], from);
    EmissionIndex(frames, 0, agencies);
    EmissionIndex(frames[..k], from, agencies);
    hide Emission, SnapshotAt;
    forall i: nat | i < |some| ensures some[i] == all[lo + i].(frame := i + 1, total := |some|) {
      hide Split;
      SameSnapshot(frames, k, lo, i, agencies);
      assert some[i] == SnapshotAt(frames[..k], lo, i, agencies);
      assert all[lo + i] == SnapshotAt(frames, 0, lo + i, agencies);
    }
  }

  lemma WindowOfFrames(frames: seq<Frame>, from: int, to: int, k: nat, agencies: set<Bytes>) returns (lo: nat)
    requires Increasing(frames) && CutsAt(frames, k, to)
    ensures var all := Emission(frames, 0, agencies);
            && IsWindow(all, Emission(frames[..k], from, agencies), lo, k)
            && forall i :: 0 <= i < |all| ==>
                 (lo <= i < k <==> (from == 0 || from <= all[i].at) && (to == 0 || all[i].at <= to))
  {
    lo := WindowBounds(frames, from, to, k);
    WindowContents(frames, from, k, agencies);
    EmissionIndex(frames, 0, agencies);
    hide Emission, Known, Restrict, IsWindow, Split;
    assert forall i :: 0 <= i < |frames| ==> Emission(frames, 0, agencies)[i].at == frames[i].at;
  }

  lemma PrefixKnown(frames: seq<Frame>, k: nat, n: nat)
    requires n <= k <= |frames|
    ensures Known(frames[..k], n) == Known(frames, n)
  {
    assert frames[..k][..n] == frames[..n];
  }
}
