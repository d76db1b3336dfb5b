/** Go strings as byte strings: their order, sorting, and the exclusive upper bound of a prefix. */
module ByteStrings {

  /** One byte of a Go string; string literals are byte strings as they stand. */
  type Byte = c: char | c as int <= 0xff

  type Bytes = seq<Byte>

  const SEPARATOR: Byte := ':'
  const ZERO: Byte := 0 as char

  /** Go's `<` on strings: bytewise lexicographic, a proper prefix first. */
  predicate Less(a: Bytes, b: Bytes) {
    |b| > 0 && (|a| == 0 || a[0] < b[0] || (a[0] == b[0] && Less(a[1..], b[1..])))
  }

  predicate AtMost(a: Bytes, b: Bytes) {
    !Less(b, a)
  }

  lemma {:induction false} LessIrreflexive(a: Bytes)
    ensures !Less(a, a)
  {
    if |a| > 0 {
      LessIrreflexive(a[1..]);
    }
  }

  lemma {:induction false} LessTransitive(a: Bytes, b: Bytes, c: Bytes)
    requires Less(a, b) && Less(b, c)
    ensures Less(a, c)
  {
    if |a| > 0 && a[0] == b[0] == c[0] {
      LessTransitive(a[1..], b[1..], c[1..]);
    }
  }

  lemma {:induction false} LessTotal(a: Bytes, b: Bytes)
    ensures a == b || Less(a, b) || Less(b, a)
    ensures !(Less(a, b) && Less(b, a))
  {
    if |a| > 0 && |b| > 0 && a[0] == b[0] {
      LessTotal(a[1..], b[1..]);
      assert a == [a[0]] + a[1..] && b == [b[0]] + b[1..];
    }
  }

  predicate NoDuplicates(ids: seq<Bytes>) {
    forall i, j :: 0 <= i < j < |ids| ==> ids[i] != ids[j]
  }

  // ---------------------------------------------------------------- sorting

  predicate SortedStrings(s: seq<Bytes>) {
    forall i, j :: 0 <= i < j < |s| ==> AtMost(s[i], s[j])
  }

  function Insert(x: Bytes, s: seq<Bytes>): seq<Bytes> {
    if |s| == 0 then [x]
    else if Less(s[0], x) then [s[0]] + Insert(x, s[1..])
    else [x] + s
  }

  /** What `sort.Strings` leaves behind; SortUnique shows that no other outcome is possible. */
  function Sort(s: seq<Bytes>): seq<Bytes> {
    if |s| == 0 then [] else Insert(s[0], Sort(s[1..]))
  }

  predicate Below(x: Bytes, s: seq<Bytes>) {
    forall j :: 0 <= j < |s| ==> AtMost(x, s[j])
  }

  lemma BelowTail(x: Bytes, s: seq<Bytes>)
    requires SortedStrings(s) && |s| > 0 && AtMost(x, s[0])
    ensures Below(x, s)
  {
    forall j | 0 <= j < |s| ensures AtMost(x, s[j]) {
      if j > 0 {
        assert AtMost(s[0], s[j]);
        AtMostTransitive(x, s[0], s[j]);
      }
    }
  }

  lemma AtMostTransitive(a: Bytes, b: Bytes, c: Bytes)
    requires AtMost(a, b) && AtMost(b, c)
    ensures AtMost(a, c)
  {
    LessTotal(b, c);
    if Less(c, a) && Less(b, c) {
      LessTransitive(b, c, a);
    }
  }

  lemma {:induction false} InsertElements(x: Bytes, s: seq<Bytes>)
    ensures multiset(Insert(x, s)) == multiset(s) + multiset{x}
  {
    if |s| > 0 {
      assert s == [s[0]] + s[1..];
      InsertElements(x, s[1..]);
    }
  }

  lemma {:induction false} InsertSorted(x: Bytes, s: seq<Bytes>)
    requires SortedStrings(s)
    ensures SortedStrings(Insert(x, s))
  {
    if |s| > 0 {
      LessTotal(s[0], x);
      if Less(s[0], x) {
        InsertSorted(x, s[1..]);
        InsertElements(x, s[1..]);
        var t := Insert(x, s[1..]);
        forall j | 0 <= j < |t| ensures AtMost(s[0], t[j]) {
          assert t[j] in multiset(t);
          assert t[j] == x || t[j] in s[1..];
        }
      } else {
        BelowTail(x, s);
      }
    }
  }

  lemma {:induction false} SortCorrect(s: seq<Bytes>)
    ensures SortedStrings(Sort(s))
    ensures multiset(Sort(s)) == multiset(s)
  {
    if |s| > 0 {
      assert s == [s[0]] + s[1..];
      SortCorrect(s[1..]);
      InsertElements(s[0], Sort(s[1..]));
      InsertSorted(s[0], Sort(s[1..]));
    }
  }

  /** A multiset of strings has exactly one sorted arrangement. */
  lemma {:induction false} SortedUnique(a: seq<Bytes>, b: seq<Bytes>)
    requires SortedStrings(a) && SortedStrings(b)
    requires multiset(a) == multiset(b)
    ensures a == b
  {
    hide SortedStrings, Less, AtMost;
    SameLength(a, b);
    if |a| > 0 {
      HeadsEqual(a, b);
      TailSorted(a);
      TailSorted(b);
      TailMultiset(a);
      TailMultiset(b);
      SortedUnique(a[1..], b[1..]);
      assert a == [a[0]] + a[1..] && b == [b[0]] + b[1..];
    }
  }

  lemma TailSorted(a: seq<Bytes>)
    requires SortedStrings(a) && |a| > 0
    ensures SortedStrings(a[1..])
  {
  }

  lemma HeadsEqual(a: seq<Bytes>, b: seq<Bytes>)
    requires SortedStrings(a) && SortedStrings(b) && multiset(a) == multiset(b) && |a| > 0 && |b| > 0
    ensures a[0] == b[0]
  {
    HeadAtMost(a, b);
    HeadAtMost(b, a);
    LessTotal(a[0], b[0]);
  }

  lemma SameLength(a: seq<Bytes>, b: seq<Bytes>)
    requires multiset(a) == multiset(b)
    ensures |a| == |b|
  {
    assert |a| == |multiset(a)| && |b| == |multiset(b)|;
  }

  lemma TailMultiset(a: seq<Bytes>)
    requires |a| > 0
    ensures multiset(a[1..]) == multiset(a) - multiset{a[0]}
  {
    assert a == [a[0]] + a[1..];
  }

  lemma HeadAtMost(a: seq<Bytes>, b: seq<Bytes>)
    requires SortedStrings(a) && |a| > 0 && |b| > 0
    requires multiset(a) == multiset(b)
    ensures AtMost(a[0], b[0])
  {
    assert b[0] in multiset(b);
    assert b[0] in a;
    LessIrreflexive(a[0]);
  }

  lemma SortUnique(s: seq<Bytes>, sorted: seq<Bytes>)
    requires SortedStrings(sorted) && multiset(sorted) == multiset(s)
    ensures sorted == Sort(s)
  {
    SortCorrect(s);
    SortedUnique(sorted, Sort(s));
  }

  // ----------------------------------------------------------- prefix ranges

  /** No byte can be incremented: every byte is 0xff (vacuously, the empty string). */
  predicate AllMax(p: Bytes) {
    forall i :: 0 <= i < |p| ==> p[i] as int == 0xff
  }

  function Next(b: Byte): Byte
    requires (b as int) < 0xff
  {
    (b as int + 1) as char
  }

  /** The shortest string above every extension of p. */
  function Successor(p: Bytes): Bytes
    requires !AllMax(p)
  {
    if AllMax(p[1..]) then [Next(p[0])] else [p[0]] + Successor(p[1..])
  }

  function UpperBound(p: Bytes): Bytes {
    if AllMax(p) then p + [ZERO] else Successor(p)
  }

  predicate InRange(k: Bytes, lo: Bytes, hi: Bytes) {
    AtMost(lo, k) && Less(k, hi)
  }

  /** Bumping the last byte that can be bumped is the successor. */
  lemma {:induction false} SuccessorAt(p: Bytes, i: nat)
    requires i < |p| && (p[i] as int) < 0xff && AllMax(p[i + 1..])
    ensures !AllMax(p) && Successor(p) == p[..i] + [Next(p[i])]
  {
    if i > 0 {
      assert p[1..][i - 1] == p[i] && p[1..][i..] == p[i + 1..];
      SuccessorAt(p[1..], i - 1);
      assert p[..i] == [p[0]] + p[1..][..i - 1];
    }
  }

  /** What the keys of a scan range are, for all keys at once. */
  lemma RangeOfAll(prefix: Bytes, bound: Bytes)
    requires bound == UpperBound(prefix)
    ensures !AllMax(prefix) ==> forall k: Bytes :: prefix <= k <==> InRange(k, prefix, bound)
    ensures AllMax(prefix) ==> forall k: Bytes :: k == prefix <==> InRange(k, prefix, bound)
  {
    hide InRange, AllMax, UpperBound;
    forall k: Bytes ensures InRange(k, prefix, bound) <==> if AllMax(prefix) then k == prefix else prefix <= k {
      RangeMeaning(prefix, k);
    }
  }

  lemma MaxTail(p: Bytes, i: nat)
    requires i < |p|
    ensures AllMax(p[i..]) <==> p[i] as int == 0xff && AllMax(p[i + 1..])
  {
    assert p[i..] == [p[i]] + p[i + 1..];
  }

  /** The two outcomes of the loop. */
  lemma BoundAt(p: Bytes, i: int)
    requires -1 <= i < |p| && AllMax(p[i + 1..])
    ensures i >= 0 && (p[i] as int) < 0xff ==> UpperBound(p) == p[..i] + [Next(p[i])]
    ensures i == -1 ==> UpperBound(p) == p + [ZERO]
  {
    hide Successor, AllMax;
    if i == -1 {
      assert p[0..] == p;
    } else if (p[i] as int) < 0xff {
      SuccessorAt(p, i);
    }
  }

  /** The backward loop over a byte buffer: bump the last byte below 0xff and cut after it. */
  method PrefixUpperBound(prefix: Bytes) returns (bound: Bytes)
    ensures bound == UpperBound(prefix)
    ensures !AllMax(prefix) ==> forall k: Bytes :: prefix <= k <==> InRange(k, prefix, bound)
    ensures AllMax(prefix) ==> forall k: Bytes :: k == prefix <==> InRange(k, prefix, bound)
  {
    RangeOfAll(prefix, UpperBound(prefix));
    var out: array<Byte> := new Byte[|prefix|](i requires 0 <= i < |prefix| => prefix[i]);
    var i := |prefix| - 1;
    assert prefix[i + 1..] == [];
    assert AllMax(prefix[i + 1..]);
    hide *;
    while i >= 0
      invariant -1 <= i < |prefix|
      invariant out[..] == prefix
      invariant AllMax(prefix[i + 1..])
    {
      BoundAt(prefix, i);
      if (out[i] as int) < 0xff {
        out[i] := Next(out[i]);
        return out[..i + 1];
      }
      MaxTail(prefix, i);
      i := i - 1;
    }
    BoundAt(prefix, i);
    return out[..] + [ZERO];
  }

  /** The keys a scan over [p, UpperBound(p)) meets are the extensions of p, except that an
      all-0xff prefix meets only p itself. */
  lemma {:induction false} RangeMeaning(p: Bytes, k: Bytes)
    ensures InRange(k, p, UpperBound(p)) <==> if AllMax(p) then k == p else p <= k
  {
    if AllMax(p) {
      MaxRange(p, k);
    } else if |k| == 0 {
      assert Less(k, p);
    } else if k[0] == p[0] {
      var hi := Successor(p);
      assert Less(k, p) == Less(k[1..], p[1..]);
      assert p <= k <==> p[1..] <= k[1..] by {
        assert p == [p[0]] + p[1..] && k == [k[0]] + k[1..];
      }
      if AllMax(p[1..]) {
        MaxFloor(p[1..], k[1..]);
        assert Less(k, hi);
      } else {
        RangeMeaning(p[1..], k[1..]);
        assert hi[1..] == Successor(p[1..]);
        assert Less(k, hi) == Less(k[1..], hi[1..]);
      }
    } else if k[0] > p[0] {
      var hi := Successor(p);
      assert hi[0] <= k[0];
      assert |hi| == 1 && hi[0] == k[0] ==> !Less(k[1..], hi[1..]);
      assert !Less(k, hi);
    }
  }

  lemma {:induction false} MaxRange(p: Bytes, k: Bytes)
    requires AllMax(p)
    ensures InRange(k, p, p + [ZERO]) <==> k == p
  {
    var hi := p + [ZERO];
    if |p| == 0 {
      assert |k| > 0 ==> !Less(k[1..], hi[1..]);
    } else if |k| > 0 && k[0] == p[0] {
      MaxRange(p[1..], k[1..]);
      assert hi[1..] == p[1..] + [ZERO];
      assert Less(k, hi) == Less(k[1..], hi[1..]);
      assert Less(k, p) == Less(k[1..], p[1..]);
      assert p == [p[0]] + p[1..] && k == [k[0]] + k[1..];
    } else {
      assert Less(k, p);
    }
  }

  lemma {:induction false} MaxFloor(p: Bytes, k: Bytes)
    requires AllMax(p)
    ensures AtMost(p, k) <==> p <= k
  {
    if |p| > 0 && |k| > 0 && k[0] == p[0] {
      MaxFloor(p[1..], k[1..]);
      assert p == [p[0]] + p[1..] && k == [k[0]] + k[1..];
    }
  }

  /** Exactly when a scan range is the set of keys with the prefix. */
  lemma RangeExactIff(p: Bytes)
    ensures (forall k: Bytes :: p <= k <==> InRange(k, p, UpperBound(p))) <==> !AllMax(p)
  {
    forall k: Bytes ensures InRange(k, p, UpperBound(p)) <==> if AllMax(p) then k == p else p <= k {
      RangeMeaning(p, k);
    }
    if AllMax(p) {
      var longer := p + ['a'];
      assert p <= longer && longer != p;
      assert !InRange(longer, p, UpperBound(p));
    }
  }
}
