/** Reading a change feed page by page: the result does not depend on where the pages break. */
module ChangeFeed {
  import opened ByteStrings
  import opened Keys

  /** What one read at a cursor returns: the next changes, at least one unless at the head. */
  datatype Page<T> = Page(changes: seq<T>, next: nat, caughtUp: bool)

  function ReadPage<T>(feed: seq<T>, cursor: nat, size: nat): Page<T>
    requires cursor <= |feed|
  {
    var end := if cursor + size > |feed| then |feed| else cursor + size;
    Page(feed[cursor..end], end, end == |feed|)
  }

  /** How reading goes: how far a read at a cursor reaches, and which reads fail. */
  datatype Paging = Paging(size: nat -> nat, readFails: nat -> bool)

  ghost predicate Progresses(paging: Paging) {
    forall cursor :: paging.size(cursor) > 0
  }

  /** Applies every change from the oldest until caught up, or until a read or an application fails:
      then exactly the changes before it were applied. */
  method DrainChangeFeed<T>(feed: seq<T>, paging: Paging, applyFails: nat -> bool)
    returns (applied: seq<T>, total: nat, err: bool)
    requires Progresses(paging)
    ensures total <= |feed| && applied == feed[..total]
    ensures !err ==> total == |feed|
    ensures err ==> paging.readFails(total) || (total < |feed| && applyFails(total))
    ensures forall i :: 0 <= i < total ==> !applyFails(i)
  {
    applied, total, err := [], 0, false;
    if |feed| == 0 {
      return;
    }
    var cursor := 0;
    while true
      invariant cursor <= |feed|
      invariant applied == feed[..cursor] && total == cursor
      invariant forall i :: 0 <= i < cursor ==> !applyFails(i)
      decreases |feed| - cursor
    {
      if paging.readFails(cursor) {
        return applied, total, true;
      }
      var page := ReadPage(feed, cursor, paging.size(cursor));
      var i := 0;
      while i < |page.changes|
        invariant 0 <= i <= |page.changes|
        invariant applied == feed[..cursor + i] && total == cursor + i
        invariant forall j :: 0 <= j < cursor + i ==> !applyFails(j)
      {
        if applyFails(cursor + i) {
          return applied, total, true;
        }
        applied := applied + [page.changes[i]];
        total := total + 1;
        i := i + 1;
      }
      cursor := page.next;
      if page.caughtUp {
        break;
      }
    }
  }

  /** The number of changes, or of those before the first read that fails. */
  method CountChangeFeed<T>(feed: seq<T>, paging: Paging) returns (total: nat, err: bool)
    requires Progresses(paging)
    ensures total <= |feed| && (!err ==> total == |feed|)
    ensures err ==> paging.readFails(total)
  {
    total, err := 0, false;
    if |feed| == 0 {
      return;
    }
    var cursor := 0;
    while true
      invariant cursor <= |feed| && total == cursor
      decreases |feed| - cursor
    {
      if paging.readFails(cursor) {
        return total, true;
      }
      var page := ReadPage(feed, cursor, paging.size(cursor));
      total := total + |page.changes|;
      cursor := page.next;
      if page.caughtUp {
        break;
      }
    }
  }

  /** from and to bound the positive timestamps of the keys tightly; both are 0 when there is none. */
  ghost predicate Bounds(keys: seq<Bytes>, from: int, to: int) {
    && (forall i :: 0 <= i < |keys| && TimestampNSFromKey(keys[i]) > 0 ==> from <= TimestampNSFromKey(keys[i]) <= to)
    && ((from == 0 && to == 0 && forall i :: 0 <= i < |keys| ==> TimestampNSFromKey(keys[i]) <= 0)
        || (from > 0 && to > 0
            && (exists i :: 0 <= i < |keys| && TimestampNSFromKey(keys[i]) == from)
            && (exists i :: 0 <= i < |keys| && TimestampNSFromKey(keys[i]) == to)))
  }

  lemma BoundsGrow(keys: seq<Bytes>, i: nat, from: int, to: int)
    requires i < |keys| && Bounds(keys[..i], from, to)
    ensures var ts := TimestampNSFromKey(keys[i]);
            Bounds(keys[..i + 1],
                   if ts > 0 && (from == 0 || ts < from) then ts else from,
                   if ts > 0 && ts > to then ts else to)
  {
    hide TimestampNSFromKey;
    var next := keys[..i + 1];
    assert next == keys[..i] + [keys[i]];
    assert next[i] == keys[i];
    if from > 0 {
      var a :| 0 <= a < i && TimestampNSFromKey(keys[..i][a]) == from;
      var b :| 0 <= b < i && TimestampNSFromKey(keys[..i][b]) == to;
      assert next[a] == keys[..i][a] && next[b] == keys[..i][b];
    }
    assert forall j :: 0 <= j < i ==> next[j] == keys[..i][j];
  }

  /** A change is a put of a key, or an operation the summary skips. */
  datatype Change = Put(key: Bytes) | Other(key: Bytes)

  function PutKeys(changes: seq<Change>): seq<Bytes> {
    if |changes| == 0 then []
    else
      var last := changes[|changes| - 1];
      PutKeys(changes[..|changes| - 1]) + (if last.Put? then [last.key] else [])
  }

  lemma PutKeysNext(changes: seq<Change>, i: nat)
    requires i < |changes|
    ensures PutKeys(changes[..i + 1])
         == if changes[i].Put? then PutKeys(changes[..i]) + [changes[i].key] else PutKeys(changes[..i])
  {
    assert changes[..i + 1][..i] == changes[..i] && changes[..i + 1][i] == changes[i];
    assert PutKeys(changes[..i]) + [] == PutKeys(changes[..i]);
  }

  /** The put keys of a feed are those of its changes that are puts, in order and nothing else. */
  lemma {:induction false} PutKeysAre(a: seq<Change>, b: seq<Change>, k: Bytes)
    ensures PutKeys(a + b) == PutKeys(a) + PutKeys(b)
    ensures PutKeys([Put(k)]) == [k] && PutKeys([Other(k)]) == [] && PutKeys([]) == []
  {
    assert [Put(k)][..0] == [] && [Other(k)][..0] == [];
    assert [] + [k] == [k];
    if |b| == 0 {
      assert a + b == a;
    } else {
      var n := |b| - 1;
      assert (a + b)[..|a + b| - 1] == a + b[..n] && (a + b)[|a + b| - 1] == b[n];
      PutKeysAre(a, b[..n], k);
    }
  }

  /** What the summary says of some changes; without a timestamp function the bounds stay 0. */
  ghost predicate Summarizes(changes: seq<Change>, timed: bool, count: nat, from: int, to: int) {
    && count == |PutKeys(changes)|
    && (if timed then Bounds(PutKeys(changes), from, to) else from == 0 && to == 0)
  }

  /** Folds one change into the running summary. */
  method SummarizeChange(ghost changes: seq<Change>, ghost i: nat, change: Change, timed: bool,
                         count0: nat, from0: int, to0: int)
    returns (count: nat, from: int, to: int)
    requires i < |changes| && change == changes[i] && Summarizes(changes[..i], timed, count0, from0, to0)
    ensures Summarizes(changes[..i + 1], timed, count, from, to)
  {
    count, from, to := count0, from0, to0;
    PutKeysNext(changes, i);
    if change.Other? {
      return;
    }
    ghost var keys := PutKeys(changes[..i + 1]);
    assert keys[..count0] == PutKeys(changes[..i]) && keys[..count0 + 1] == keys;
    count := count + 1;
    if !timed {
      return;
    }
    hide Bounds, TimestampNSFromKey, PutKeys;
    BoundsGrow(keys, count0, from, to);
    var ts := TimestampNSFromKey(change.key);
    if ts <= 0 {
      return;
    }
    if from == 0 || ts < from {
      from := ts;
    }
    if ts > to {
      to := ts;
    }
  }

  /** Folds one page of the feed into the running summary. */
  method SummarizePage(ghost changes: seq<Change>, ghost cursor: nat, page: seq<Change>, timed: bool,
                       count0: nat, from0: int, to0: int)
    returns (count: nat, from: int, to: int)
    requires cursor + |page| <= |changes| && page == changes[cursor..cursor + |page|]
    requires Summarizes(changes[..cursor], timed, count0, from0, to0)
    ensures Summarizes(changes[..cursor + |page|], timed, count, from, to)
  {
    hide Summarizes;
    count, from, to := count0, from0, to0;
    var i := 0;
    while i < |page|
      invariant 0 <= i <= |page|
      invariant Summarizes(changes[..cursor + i], timed, count, from, to)
    {
      count, from, to := SummarizeChange(changes, cursor + i, page[i], timed, count, from, to);
      i := i + 1;
    }
  }

  /** A read at some cursor failed, and the summary is that of the changes before it. */
  ghost predicate FailedRead(changes: seq<Change>, paging: Paging, timed: bool, count: nat, from: int, to: int) {
    exists read: nat :: read <= |changes| && paging.readFails(read)
                        && Summarizes(changes[..read], timed, count, from, to)
  }

  /** The coarse summary of a feed: how many puts, between which timestamps, and whether there are none.
      A failing read ends it with the summary of the changes before. */
  method SummarizeChangeFeed(changes: seq<Change>, paging: Paging, timed: bool)
    returns (count: nat, from: int, to: int, empty: bool, err: bool)
    requires Progresses(paging)
    ensures !err ==> Summarizes(changes, timed, count, from, to) && (empty <==> count == 0)
    ensures err ==> FailedRead(changes, paging, timed, count, from, to) && !empty
  {
    count, from, to, empty, err := 0, 0, 0, true, false;
    NothingSummarized(changes, timed);
    assert changes[..|changes|] == changes;
    hide Summarizes;
    if |changes| == 0 {
      return;
    }
    empty := false;
    var cursor := 0;
    while true
      invariant cursor <= |changes|
      invariant Summarizes(changes[..cursor], timed, count, from, to)
      decreases |changes| - cursor
    {
      if paging.readFails(cursor) {
        err := true;
        return;
      }
      var page := ReadPage(changes, cursor, paging.size(cursor));
      count, from, to := SummarizePage(changes, cursor, page.changes, timed, count, from, to);
      cursor := page.next;
      if page.caughtUp {
        break;
      }
    }
    empty := count == 0;
  }

  lemma NothingSummarized(changes: seq<Change>, timed: bool)
    ensures Summarizes(changes[..0], timed, 0, 0, 0)
  {
  }
}
