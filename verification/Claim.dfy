/** The worker's poll claim: one conditional upsert that serves as a once-per-window lock for any
    number of workers sharing the table. Times are milliseconds. */
module Claim {
  import opened ByteStrings

  const UPSTREAM_REFRESH_MS: int := 30_000
  const FORCED_GAP_MS: int := 2_000

  /** region_poll_state: region id to last_poll_ms. */
  type Rows = map<Bytes, int>

  /** One atomic statement of some worker, with the clock it binds. */
  datatype Event =
    | Claim(region: Bytes, now: int, force: bool, pollSeconds: int)
    | Complete(region: Bytes, now: int)

  function Gap(force: bool, pollSeconds: int): int {
    if force then FORCED_GAP_MS
    else if pollSeconds * 1000 > UPSTREAM_REFRESH_MS then pollSeconds * 1000 else UPSTREAM_REFRESH_MS
  }

  /** The upsert inserts, or updates a row at least a gap old. */
  predicate Granted(rows: Rows, e: Event) {
    e.Claim? && (e.region in rows ==> e.now - rows[e.region] >= Gap(e.force, e.pollSeconds))
  }

  /** Events that write their clock into the row. */
  predicate Touches(rows: Rows, e: Event) {
    e.Complete? || Granted(rows, e)
  }

  function Step(rows: Rows, e: Event): Rows {
    if Touches(rows, e) then rows[e.region := e.now] else rows
  }

  /** The table before event n of a run. */
  function At(rows: Rows, es: seq<Event>, n: nat): Rows
    requires n <= |es|
  {
    if n == 0 then rows else Step(At(rows, es, n - 1), es[n - 1])
  }

  /** No completion is stamped before what its row already holds. A grant needs no such condition. */
  predicate CompletionsInOrder(rows: Rows, es: seq<Event>) {
    forall i :: 0 <= i < |es| && es[i].Complete? && es[i].region in At(rows, es, i)
      ==> At(rows, es, i)[es[i].region] <= es[i].now
  }

  /** Rows never decrease and never disappear. */
  predicate RowsGrow(rows: Rows, es: seq<Event>) {
    forall m, n, r :: 0 <= m <= n <= |es| && r in At(rows, es, m)
      ==> r in At(rows, es, n) && At(rows, es, m)[r] <= At(rows, es, n)[r]
  }

  lemma RowStep(rows: Rows, es: seq<Event>, n: nat, r: Bytes)
    requires CompletionsInOrder(rows, es) && n < |es| && r in At(rows, es, n)
    ensures r in At(rows, es, n + 1) && At(rows, es, n)[r] <= At(rows, es, n + 1)[r]
  {
    assert At(rows, es, n + 1) == Step(At(rows, es, n), es[n]);
    hide At;
  }

  lemma {:induction false} RowGrows(rows: Rows, es: seq<Event>, m: nat, n: nat, r: Bytes)
    requires CompletionsInOrder(rows, es) && m <= n <= |es| && r in At(rows, es, m)
    ensures r in At(rows, es, n) && At(rows, es, m)[r] <= At(rows, es, n)[r]
    decreases n
  {
    hide At, CompletionsInOrder;
    if m < n {
      RowGrows(rows, es, m, n - 1, r);
      RowStep(rows, es, n - 1, r);
    }
  }

  /** last_poll_ms never decreases and a row never disappears, over any interleaving of claims and
      completions on any clocks, if and only if no completion is stamped before its row. */
  lemma LastPollNeverDecreasesIff(rows: Rows, es: seq<Event>)
    ensures RowsGrow(rows, es) <==> CompletionsInOrder(rows, es)
  {
    if CompletionsInOrder(rows, es) {
      forall m, n, r | 0 <= m <= n <= |es| && r in At(rows, es, m)
        ensures r in At(rows, es, n) && At(rows, es, m)[r] <= At(rows, es, n)[r]
      {
        RowGrows(rows, es, m, n, r);
      }
    }
    if RowsGrow(rows, es) {
      forall i | 0 <= i < |es| && es[i].Complete? && es[i].region in At(rows, es, i)
        ensures At(rows, es, i)[es[i].region] <= es[i].now
      {
        assert At(rows, es, i + 1) == Step(At(rows, es, i), es[i]);
      }
    }
  }

  /** Under that condition alone, a granted claim comes at least its own gap after every earlier grant
      and every earlier completion of its region, whichever workers they belong to. */
  lemma GrantsKeepTheirDistance(rows: Rows, es: seq<Event>, i: nat, j: nat)
    requires CompletionsInOrder(rows, es) && i < j < |es| && es[i].region == es[j].region
    requires Touches(At(rows, es, i), es[i]) && Granted(At(rows, es, j), es[j])
    ensures es[j].now - es[i].now >= Gap(es[j].force, es[j].pollSeconds)
    ensures es[j].now - es[i].now >= if es[j].force then 2_000 else 30_000
  {
    hide At, CompletionsInOrder, Touches, Granted;
    TouchedRow(rows, es, i);
    RowGrows(rows, es, i + 1, j, es[i].region);
    GrantedRow(At(rows, es, j), es[j]);
  }

  lemma GrantedRow(rows: Rows, e: Event)
    requires Granted(rows, e) && e.region in rows
    ensures e.Claim? && e.now - rows[e.region] >= Gap(e.force, e.pollSeconds)
  {
  }

  lemma TouchedRow(rows: Rows, es: seq<Event>, i: nat)
    requires i < |es| && Touches(At(rows, es, i), es[i])
    ensures es[i].region in At(rows, es, i + 1) && At(rows, es, i + 1)[es[i].region] == es[i].now
  {
    hide Touches;
    assert At(rows, es, i + 1) == Step(At(rows, es, i), es[i]);
  }

  /** One clock for all workers: it never runs backwards, and the table holds nothing from its future. */
  predicate Timed(rows: Rows, es: seq<Event>) {
    && (forall i, j :: 0 <= i < j < |es| ==> es[i].now <= es[j].now)
    && (forall i, r :: 0 <= i < |es| && r in rows ==> rows[r] <= es[i].now)
  }

  lemma {:induction false} NothingFromTheFuture(rows: Rows, es: seq<Event>, n: nat, r: Bytes)
    requires Timed(rows, es) && n < |es| && r in At(rows, es, n)
    ensures At(rows, es, n)[r] <= es[n].now
  {
    if n > 0 {
      assert es[n - 1].now <= es[n].now;
      if !(Touches(At(rows, es, n - 1), es[n - 1]) && es[n - 1].region == r) {
        NothingFromTheFuture(rows, es, n - 1, r);
      }
    }
  }

  /** When every statement reads one clock as it lands, completions are in order. */
  lemma TimedIsInOrder(rows: Rows, es: seq<Event>)
    requires Timed(rows, es)
    ensures CompletionsInOrder(rows, es)
  {
    forall i | 0 <= i < |es| && es[i].Complete? && es[i].region in At(rows, es, i)
      ensures At(rows, es, i)[es[i].region] <= es[i].now
    {
      NothingFromTheFuture(rows, es, i, es[i].region);
    }
  }

  lemma LastPollNeverDecreases(rows: Rows, es: seq<Event>)
    requires Timed(rows, es)
    ensures RowsGrow(rows, es)
  {
    TimedIsInOrder(rows, es);
    LastPollNeverDecreasesIff(rows, es);
  }

  /** Event i wrote the row of region r, and its clock is less than gap before t. */
  predicate Blocks(rows: Rows, es: seq<Event>, i: nat, r: Bytes, t: int, gap: int)
    requires i < |es|
  {
    es[i].region == r && Touches(At(rows, es, i), es[i]) && t - es[i].now < gap
  }

  lemma {:induction false} LastWriter(es: seq<Event>, n: nat, r: Bytes)
    requires n <= |es| && r in At(map[], es, n)
    ensures exists i :: 0 <= i < n && es[i].region == r && Touches(At(map[], es, i), es[i])
                        && At(map[], es, n)[r] == es[i].now
  {
    if n > 0 && !(Touches(At(map[], es, n - 1), es[n - 1]) && es[n - 1].region == r) {
      LastWriter(es, n - 1, r);
    }
  }

  /** The lock is exact: from an empty table, a claim is refused if and only if some earlier grant or
      completion of its region is within its gap. A worker that never completes blocks nobody longer. */
  lemma RefusedIffBlocked(es: seq<Event>, n: nat)
    requires CompletionsInOrder(map[], es) && n < |es| && es[n].Claim?
    ensures !Granted(At(map[], es, n), es[n]) <==>
      exists i :: 0 <= i < n && Blocks(map[], es, i, es[n].region, es[n].now, Gap(es[n].force, es[n].pollSeconds))
  {
    var r, gap := es[n].region, Gap(es[n].force, es[n].pollSeconds);
    if Granted(At(map[], es, n), es[n]) {
      forall i | 0 <= i < n ensures !Blocks(map[], es, i, r, es[n].now, gap) {
        if es[i].region == r && Touches(At(map[], es, i), es[i]) {
          GrantsKeepTheirDistance(map[], es, i, n);
        }
      }
    } else {
      LastWriter(es, n, r);
      var i :| 0 <= i < n && es[i].region == r && Touches(At(map[], es, i), es[i])
            && At(map[], es, n)[r] == es[i].now;
      assert Blocks(map[], es, i, r, es[n].now, gap);
    }
  }

  /** The windows: a forced claim is refused if and only if an earlier grant or completion of its region
      is less than 2 seconds old, an unforced one if and only if one is less than 30 seconds or less than
      the session's interval old. */
  lemma ClaimWindows(es: seq<Event>, n: nat)
    requires CompletionsInOrder(map[], es) && n < |es| && es[n].Claim?
    ensures es[n].force ==>
      (!Granted(At(map[], es, n), es[n]) <==>
       exists i :: 0 <= i < n && Touches(At(map[], es, i), es[i]) && es[i].region == es[n].region
                   && es[n].now - es[i].now < 2_000)
    ensures !es[n].force ==>
      (!Granted(At(map[], es, n), es[n]) <==>
       exists i :: 0 <= i < n && Touches(At(map[], es, i), es[i]) && es[i].region == es[n].region
                   && (es[n].now - es[i].now < 30_000 || es[n].now - es[i].now < 1_000 * es[n].pollSeconds))
  {
    RefusedIffBlocked(es, n);
    hide At, CompletionsInOrder, Granted, Touches;
    var r, gap := es[n].region, Gap(es[n].force, es[n].pollSeconds);
    if i :| 0 <= i < n && Blocks(map[], es, i, r, es[n].now, gap) {
      assert Touches(At(map[], es, i), es[i]);
    }
    forall i | 0 <= i < n && Touches(At(map[], es, i), es[i]) && es[i].region == r && es[n].now - es[i].now < gap
      ensures Blocks(map[], es, i, r, es[n].now, gap)
    {
    }
  }

  /** The condition can fail: a completion stamped before its row, by a slow clock or because its
      statement landed late, moves last_poll_ms back and lets two claims through 5 seconds apart. */
  lemma SkewedClockBreaksTheWindow()
    ensures var es := [Claim("johor", 100_000, false, 10), Complete("johor", 40_000), Claim("johor", 105_000, false, 10)];
            && Granted(At(map[], es, 0), es[0]) && Granted(At(map[], es, 2), es[2])
            && At(map[], es, 2)["johor"] < At(map[], es, 1)["johor"]
            && es[2].now - es[0].now < UPSTREAM_REFRESH_MS
  {
  }

  /** The table as the worker's statements update it. */
  class RegionPollState {
    var lastPollMs: Rows

    constructor ()
      ensures lastPollMs == map[]
    {
      lastPollMs := map[];
    }

    /** A result that does not report how many rows changed counts as claimed. */
    method ClaimRegionPoll(region: Bytes, force: bool, pollSeconds: int, t: int, reported: bool) returns (claimed: bool)
      modifies this
      ensures claimed <==> Granted(old(lastPollMs), Claim(region, t, force, pollSeconds)) || !reported
      ensures lastPollMs == Step(old(lastPollMs), Claim(region, t, force, pollSeconds))
    {
      var gap := if force then FORCED_GAP_MS
                 else if pollSeconds * 1000 > UPSTREAM_REFRESH_MS then pollSeconds * 1000 else UPSTREAM_REFRESH_MS;
      if region !in lastPollMs || t - lastPollMs[region] >= gap {
        lastPollMs := lastPollMs[region := t];
        return true;
      }
      return !reported;
    }

    method CompletePoll(region: Bytes, t: int)
      modifies this
      ensures lastPollMs == Step(old(lastPollMs), Complete(region, t))
    {
      lastPollMs := lastPollMs[region := t];
    }
  }
}
