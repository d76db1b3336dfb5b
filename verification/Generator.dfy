/** The event generator: unique events with optional duplicate retries, against a deadline. */
module Generator {
  import opened ByteStrings
  import opened Keys

  const MILLISECOND: int := 1_000_000

  datatype Event = Event(tenant: Bytes, eventType: Bytes, idempotencyKey: Bytes,
                         timestamp: int, description: Bytes, retry: bool)

  function Key(e: Event): Bytes {
    EventKey(e.tenant, e.eventType, e.idempotencyKey)
  }

  /** One write to the pipeline: a first emission or a duplicate retry. */
  datatype Emission = Emission(event: Event, retry: bool, unique: bool)

  /** The random choices for one unique event. */
  datatype Draw = Draw(tenant: Bytes, eventType: Bytes, idempotencyKey: Bytes, description: Bytes, duplicate: bool)

  /** Everything outside the generator: the n-th reading of the clock, and for the n-th unique
      event whether the context is cancelled first, whether the UUID fails, and the draw. */
  datatype World = World(clock: nat -> int, cancelled: nat -> bool, uuidFails: nat -> bool, draws: nat -> Draw)

  datatype Ending = Done | Cancelled | NoUUID

  datatype Output = Output(emissions: seq<Emission>, ending: Ending)

  function First(d: Draw, timestamp: int): Emission {
    Emission(Event(d.tenant, d.eventType, d.idempotencyKey, timestamp, d.description, false), false, true)
  }

  function Retry(d: Draw, timestamp: int): Emission {
    Emission(Event(d.tenant, d.eventType, d.idempotencyKey, timestamp, "retry", true), true, false)
  }

  /** What unique event number n emits, given how often the clock was read before it. */
  function Block(w: World, ticks: nat, n: nat): seq<Emission> {
    var d := w.draws(n);
    [First(d, w.clock(ticks + 1))] + if d.duplicate then [Retry(d, w.clock(ticks + 2))] else []
  }

  function TicksAfter(w: World, ticks: nat, n: nat): nat {
    ticks + 2 + if w.draws(n).duplicate then 1 else 0
  }

  /** What is emitted from unique event n on. */
  function From(w: World, total: int, deadline: int, ticks: nat, n: nat): Output
    decreases total - n
  {
    if n >= total || w.clock(ticks) > deadline then Output([], Done)
    else if w.cancelled(n) then Output([], Cancelled)
    else if w.uuidFails(n) then Output([], NoUUID)
    else
      var rest := From(w, total, deadline, TicksAfter(w, ticks, n), n + 1);
      rest.(emissions := Block(w, ticks, n) + rest.emissions)
  }

  /** A whole run; the first reading of the clock fixes the deadline. */
  function Generate(w: World, total: int, duration: int): Output {
    if total <= 0 then Output([], Done) else From(w, total, w.clock(0) + duration, 1, 0)
  }

  /** One turn of the loop. */
  lemma FromTurn(w: World, total: int, deadline: int, ticks: nat, n: nat, out: seq<Emission>)
    requires n < total
    ensures var all := From(w, total, deadline, ticks, n);
            all.(emissions := out + all.emissions) ==
            if w.clock(ticks) > deadline then Output(out, Done)
            else if w.cancelled(n) then Output(out, Cancelled)
            else if w.uuidFails(n) then Output(out, NoUUID)
            else
              var rest := From(w, total, deadline, TicksAfter(w, ticks, n), n + 1);
              rest.(emissions := (out + Block(w, ticks, n)) + rest.emissions)
  {
    var rest := From(w, total, deadline, TicksAfter(w, ticks, n), n + 1).emissions;
    hide Block, TicksAfter;
    assert out + (Block(w, ticks, n) + rest) == (out + Block(w, ticks, n)) + rest;
    assert out + [] == out;
  }

  lemma BlockAppends(w: World, ticks: nat, n: nat, out: seq<Emission>)
    ensures var d := w.draws(n);
            var more := out + [First(d, w.clock(ticks + 1))];
            && out + Block(w, ticks, n) == (if d.duplicate then more + [Retry(d, w.clock(ticks + 2))] else more)
            && TicksAfter(w, ticks, n) == ticks + if d.duplicate then 3 else 2
  {
  }

  lemma FromEnd(w: World, total: int, deadline: int, ticks: nat, n: nat, out: seq<Emission>)
    ensures n >= total ==> out + From(w, total, deadline, ticks, n).emissions == out
    ensures n >= total ==> From(w, total, deadline, ticks, n).ending == Done
    ensures [] + From(w, total, deadline, ticks, n).emissions == From(w, total, deadline, ticks, n).emissions
  {
  }

  method Run(w: World, total: int, duration: int) returns (out: seq<Emission>, ending: Ending)
    ensures Output(out, ending) == Generate(w, total, duration)
  {
    out, ending := [], Done;
    if total <= 0 {
      return;
    }
    var deadline := w.clock(0) + duration;
    var ticks: nat, unique: nat := 1, 0;
    FromEnd(w, total, deadline, 1, 0, []);
    hide From, Block, TicksAfter;
    ghost var whole := From(w, total, deadline, 1, 0);
    while unique < total
      invariant var rest := From(w, total, deadline, ticks, unique);
                whole == rest.(emissions := out + rest.emissions)
    {
      FromTurn(w, total, deadline, ticks, unique, out);
      var now := w.clock(ticks);
      if now > deadline {
        return out, Done;
      }
      if w.cancelled(unique) {
        return out, Cancelled;
      }
      if w.uuidFails(unique) {
        return out, NoUUID;
      }
      var d := w.draws(unique);
      BlockAppends(w, ticks, unique, out);
      out := out + [First(d, w.clock(ticks + 1))];
      if d.duplicate {
        out := out + [Retry(d, w.clock(ticks + 2))];
        ticks := ticks + 3;
      } else {
        ticks := ticks + 2;
      }
      unique := unique + 1;
    }
    FromEnd(w, total, deadline, ticks, unique, out);
  }

  // ------------------------------------------------------------ expected keys

  /** Keys of the first emissions, in order. */
  function ExpectedKeys(es: seq<Emission>): seq<Bytes> {
    if |es| == 0 then []
    else (if es[0].unique then [Key(es[0].event)] else []) + ExpectedKeys(es[1..])
  }

  lemma {:induction false} ExpectedAppend(a: seq<Emission>, b: seq<Emission>)
    ensures ExpectedKeys(a + b) == ExpectedKeys(a) + ExpectedKeys(b)
  {
    if |a| == 0 {
      assert a + b == b;
    } else {
      assert (a + b)[1..] == a[1..] + b;
      ExpectedAppend(a[1..], b);
    }
  }

  method CollectExpectedKeys(es: seq<Emission>) returns (keys: seq<Bytes>)
    ensures keys == ExpectedKeys(es)
  {
    keys := [];
    var i := 0;
    while i < |es|
      invariant 0 <= i <= |es|
      invariant keys == ExpectedKeys(es[..i])
    {
      assert es[..i + 1] == es[..i] + [es[i]];
      ExpectedAppend(es[..i], [es[i]]);
      if es[i].unique {
        keys := keys + [Key(es[i].event)];
      }
      i := i + 1;
    }
    assert es[..|es|] == es;
  }

  // ------------------------------------------------------------ shape of runs

  predicate TwinAt(es: seq<Emission>, i: nat)
    requires i < |es|
  {
    && es[i].unique == !es[i].retry
    && (es[i].retry ==> i > 0 && es[i - 1].unique && Key(es[i - 1].event) == Key(es[i].event))
  }

  /** Every retry directly follows its twin: the first emission with its key. */
  predicate Twinned(es: seq<Emission>) {
    forall i :: 0 <= i < |es| ==> TwinAt(es, i)
  }

  lemma TwinnedConcat(a: seq<Emission>, b: seq<Emission>)
    requires Twinned(a) && Twinned(b)
    ensures Twinned(a + b)
  {
    var s := a + b;
    hide Key;
    forall i | 0 <= i < |s| ensures TwinAt(s, i) {
      if i < |a| {
        assert TwinAt(a, i) && s[i] == a[i];
        assert i > 0 ==> s[i - 1] == a[i - 1];
      } else {
        assert TwinAt(b, i - |a|) && s[i] == b[i - |a|];
        assert i > |a| ==> s[i - 1] == b[i - |a| - 1];
      }
    }
  }

  /** The keys of unique events n, n + 1, ..., n + count - 1. */
  function DrawnKeys(w: World, n: nat, count: nat): seq<Bytes>
    decreases count
  {
    if count == 0 then []
    else
      var d := w.draws(n);
      [EventKey(d.tenant, d.eventType, d.idempotencyKey)] + DrawnKeys(w, n + 1, count - 1)
  }

  /** Of every run, cancelled or not: retries follow their twins, the expected keys are those drawn,
      and the length lies between the number of unique events and twice that. */
  lemma {:induction false} FromShape(w: World, total: int, deadline: int, ticks: nat, n: nat)
    ensures var es := From(w, total, deadline, ticks, n).emissions;
            var count := |ExpectedKeys(es)|;
            && Twinned(es) && count <= |es| <= 2 * count
            && (n <= total ==> n + count <= total)
            && ExpectedKeys(es) == DrawnKeys(w, n, count)
    decreases total - n
  {
    var es := From(w, total, deadline, ticks, n).emissions;
    if n < total && w.clock(ticks) <= deadline && !w.cancelled(n) && !w.uuidFails(n) {
      FromShape(w, total, deadline, TicksAfter(w, ticks, n), n + 1);
      var block, rest := Block(w, ticks, n), From(w, total, deadline, TicksAfter(w, ticks, n), n + 1).emissions;
      assert es == block + rest;
      assert block[1..] == [] || block[1..][1..] == [];
      TwinnedConcat(block, rest);
      ExpectedAppend(block, rest);
    }
  }

  lemma RunShape(w: World, total: int, duration: int)
    ensures var es := Generate(w, total, duration).emissions;
            var count := |ExpectedKeys(es)|;
            && Twinned(es) && count <= |es| <= 2 * count
            && count <= (if total <= 0 then 0 else total)
            && ExpectedKeys(es) == DrawnKeys(w, 0, count)
  {
    if total > 0 {
      FromShape(w, total, w.clock(0) + duration, 1, 0);
    }
  }

  // ------------------------------------------------- what a run emits, exactly

  /** Unique events among the first j emissions. */
  function UniqueUpTo(es: seq<Emission>, j: nat): nat
    requires j <= |es|
  {
    |ExpectedKeys(es[..j])|
  }

  /** Emission j of a run that started at unique event n and clock reading `ticks`: it is of the last unique
      event so far, each check and each emission having read the clock once. */
  predicate EmissionIs(w: World, ticks: nat, n: nat, es: seq<Emission>, j: nat)
    requires j < |es| && UniqueUpTo(es, j + 1) > 0
  {
    var u := UniqueUpTo(es, j + 1);
    var d, t := w.draws(n + u - 1), w.clock(ticks + u + j);
    && (es[j].unique ==>
          es[j] == Emission(Event(d.tenant, d.eventType, d.idempotencyKey, t, d.description, false), false, true))
    && (!es[j].unique ==>
          es[j] == Emission(Event(d.tenant, d.eventType, d.idempotencyKey, t, "retry", true), true, false))
    && (es[j].unique && d.duplicate ==> j + 1 < |es| && !es[j + 1].unique)
    && (j + 1 < |es| && (!es[j].unique || !d.duplicate) ==> es[j + 1].unique)
  }

  lemma UniqueShifts(block: seq<Emission>, rest: seq<Emission>, j: nat)
    requires |ExpectedKeys(block)| == 1 && |block| <= j <= |block| + |rest|
    ensures UniqueUpTo(block + rest, j) == 1 + UniqueUpTo(rest, j - |block|)
  {
    assert (block + rest)[..j] == block + rest[..j - |block|];
    ExpectedAppend(block, rest[..j - |block|]);
  }

  predicate BlockEmission(w: World, ticks: nat, n: nat, block: seq<Emission>, j: nat)
    requires j < |block|
  {
    UniqueUpTo(block, j + 1) == 1 && EmissionIs(w, ticks, n, block, j)
  }

  lemma BlockKeys(w: World, ticks: nat, n: nat)
    ensures var b := Block(w, ticks, n);
            && |b| == (if w.draws(n).duplicate then 2 else 1) && |ExpectedKeys(b)| == 1
            && b[0].unique && (|b| == 2 ==> !b[1].unique)
            && (forall j :: 0 <= j < |b| ==> BlockEmission(w, ticks, n, b, j))
  {
    var b := Block(w, ticks, n);
    SingleKeys(b[0]);
    assert b[..1] == [b[0]];
    if |b| == 2 {
      SingleKeys(b[1]);
      ExpectedAppend([b[0]], [b[1]]);
      assert b == [b[0]] + [b[1]] && b[..2] == b;
    } else {
      assert b == [b[0]];
    }
    hide ExpectedKeys;
    forall j | 0 <= j < |b| ensures BlockEmission(w, ticks, n, b, j) {
      assert j == 0 || j == 1;
      assert UniqueUpTo(b, j + 1) == 1;
    }
  }

  lemma SingleKeys(e: Emission)
    ensures ExpectedKeys([e]) == if e.unique then [Key(e.event)] else []
  {
    assert [e][1..] == [];
  }

  lemma ShiftedEmission(w: World, ticks: nat, n: nat, block: seq<Emission>, rest: seq<Emission>, j: nat)
    requires |ExpectedKeys(block)| == 1 && |block| <= j < |block| + |rest|
    requires UniqueUpTo(rest, j - |block| + 1) > 0
    requires EmissionIs(w, ticks + 1 + |block|, n + 1, rest, j - |block|)
    ensures UniqueUpTo(block + rest, j + 1) > 0 && EmissionIs(w, ticks, n, block + rest, j)
  {
    UniqueShifts(block, rest, j + 1);
    hide UniqueUpTo;
  }

  lemma FirstEmissions(w: World, ticks: nat, n: nat, rest: seq<Emission>, j: nat)
    requires j < |Block(w, ticks, n)| && (|rest| > 0 ==> rest[0].unique)
    ensures var all := Block(w, ticks, n) + rest;
            UniqueUpTo(all, j + 1) == 1 && EmissionIs(w, ticks, n, all, j)
  {
    var block := Block(w, ticks, n);
    BlockKeys(w, ticks, n);
    assert (block + rest)[..j + 1] == block[..j + 1];
    assert BlockEmission(w, ticks, n, block, j);
    hide Block, UniqueUpTo;
    assert |rest| > 0 ==> (block + rest)[|block|] == rest[0];
  }

  lemma {:induction false} FromIs(w: World, total: int, deadline: int, ticks: nat, n: nat, j: nat)
    requires j < |From(w, total, deadline, ticks, n).emissions|
    ensures var es := From(w, total, deadline, ticks, n).emissions;
            es[0].unique && UniqueUpTo(es, j + 1) > 0 && EmissionIs(w, ticks, n, es, j)
    decreases total - n
  {
    var block, next := Block(w, ticks, n), TicksAfter(w, ticks, n);
    var rest := From(w, total, deadline, next, n + 1).emissions;
    BlockKeys(w, ticks, n);
    assert next == ticks + 1 + |block|;
    if |rest| > 0 {
      FromIs(w, total, deadline, next, n + 1, if j >= |block| then j - |block| else 0);
    }
    hide EmissionIs, UniqueUpTo, Block;
    if j < |block| {
      FirstEmissions(w, ticks, n, rest, j);
    } else {
      ShiftedEmission(w, ticks, n, block, rest, j);
    }
  }

  /** Every emission of every run, exactly: whose event it is, when it was stamped and whether it is
      followed by a retry. */
  lemma RunEmits(w: World, total: int, duration: int, j: nat)
    requires j < |Generate(w, total, duration).emissions|
    ensures var es := Generate(w, total, duration).emissions;
            UniqueUpTo(es, j + 1) > 0 && EmissionIs(w, 1, 0, es, j)
  {
    FromIs(w, total, w.clock(0) + duration, 1, 0, j);
  }

  /** How a run from unique event n and clock reading `ticks` ends, m unique events and |es| emissions on. */
  predicate EndsAt(w: World, total: int, deadline: int, ticks: nat, n: nat, out: Output) {
    var m := n + |ExpectedKeys(out.emissions)|;
    var reading := w.clock(ticks + |ExpectedKeys(out.emissions)| + |out.emissions|);
    && (forall i :: n <= i < m ==> !w.cancelled(i) && !w.uuidFails(i))
    && m <= total
    && match out.ending
       case Done => m == total || reading > deadline
       case Cancelled => m < total && reading <= deadline && w.cancelled(m)
       case NoUUID => m < total && reading <= deadline && !w.cancelled(m) && w.uuidFails(m)
  }

  lemma EndsAtShifts(w: World, total: int, deadline: int, ticks: nat, n: nat, block: seq<Emission>, rest: Output)
    requires |ExpectedKeys(block)| == 1 && !w.cancelled(n) && !w.uuidFails(n)
    requires EndsAt(w, total, deadline, ticks + 1 + |block|, n + 1, rest)
    ensures EndsAt(w, total, deadline, ticks, n, rest.(emissions := block + rest.emissions))
  {
    ExpectedAppend(block, rest.emissions);
    hide ExpectedKeys;
  }

  lemma NothingEndsAt(w: World, total: int, deadline: int, ticks: nat, n: nat, ending: Ending)
    requires n <= total
    requires match ending
             case Done => n == total || w.clock(ticks) > deadline
             case Cancelled => n < total && w.clock(ticks) <= deadline && w.cancelled(n)
             case NoUUID => n < total && w.clock(ticks) <= deadline && !w.cancelled(n) && w.uuidFails(n)
    ensures EndsAt(w, total, deadline, ticks, n, Output([], ending))
  {
  }

  lemma {:induction false} FromEndsAt(w: World, total: int, deadline: int, ticks: nat, n: nat)
    requires n <= total
    ensures EndsAt(w, total, deadline, ticks, n, From(w, total, deadline, ticks, n))
    decreases total - n
  {
    hide EndsAt, ExpectedKeys, Block;
    if n < total && w.clock(ticks) <= deadline && !w.cancelled(n) && !w.uuidFails(n) {
      var next := TicksAfter(w, ticks, n);
      BlockKeys(w, ticks, n);
      FromEndsAt(w, total, deadline, next, n + 1);
      EndsAtShifts(w, total, deadline, ticks, n, Block(w, ticks, n), From(w, total, deadline, next, n + 1));
    } else {
      NothingEndsAt(w, total, deadline, ticks, n, From(w, total, deadline, ticks, n).ending);
    }
  }

  /** How every run ends: complete, or at the first check that finds the time more than the duration past
      the first reading, the context cancelled, or no UUID. */
  lemma RunEndsAt(w: World, total: int, duration: int)
    requires total > 0
    ensures EndsAt(w, total, w.clock(0) + duration, 1, 0, Generate(w, total, duration))
  {
    FromEndsAt(w, total, w.clock(0) + duration, 1, 0);
  }

  /** On any clock: a run that is not disturbed and whose readings all lie within the duration is complete. */
  lemma CompleteInTime(w: World, total: int, duration: int)
    requires total > 0 && (forall i: nat :: !w.cancelled(i) && !w.uuidFails(i))
    requires forall r: nat :: w.clock(r) <= w.clock(0) + duration
    ensures var out := Generate(w, total, duration);
            out.ending == Done && |ExpectedKeys(out.emissions)| == total
  {
    RunEndsAt(w, total, duration);
    hide Generate, ExpectedKeys;
  }

  // ----------------------------------------------------------------- FastRun

  /** FastRun's clock: one millisecond per reading, from the epoch; nothing cancels it. */
  function FastWorld(draws: nat -> Draw): World {
    World(n => n * MILLISECOND, _ => false, _ => false, draws)
  }

  function FastRun(draws: nat -> Draw, total: int, duration: int): seq<Emission> {
    Generate(FastWorld(draws), total, duration).emissions
  }

  /** Retries drawn by unique events n, n + 1, ..., n + count - 1. */
  function Duplicates(draws: nat -> Draw, n: nat, count: nat): nat
    decreases count
  {
    if count == 0 then 0 else (if draws(n).duplicate then 1 else 0) + Duplicates(draws, n + 1, count - 1)
  }

  lemma {:induction false} DuplicatesBound(draws: nat -> Draw, n: nat, count: nat)
    ensures Duplicates(draws, n, count) <= count
    decreases count
  {
    if count > 0 {
      DuplicatesBound(draws, n + 1, count - 1);
    }
  }

  lemma {:induction false} FastFrom(draws: nat -> Draw, total: int, deadline: int, ticks: nat, n: nat)
    requires n < total
    ensures |ExpectedKeys(From(FastWorld(draws), total, deadline, ticks, n).emissions)| == total - n
        <==> (ticks + 2 * (total - n - 1) + Duplicates(draws, n, total - n - 1)) * MILLISECOND <= deadline
    decreases total - n
  {
    var w := FastWorld(draws);
    DuplicatesBound(draws, n, total - n - 1);
    if ticks * MILLISECOND <= deadline {
      var next := TicksAfter(w, ticks, n);
      var rest := From(w, total, deadline, next, n + 1);
      var block := Block(w, ticks, n);
      assert block[1..] == [] || block[1..][1..] == [];
      ExpectedAppend(block, rest.emissions);
      if n + 1 < total {
        FastFrom(draws, total, deadline, next, n + 1);
      }
    } else {
      assert From(w, total, deadline, ticks, n).emissions == [];
    }
  }

  /** When a fast run is complete, for given random outcomes: each event but the last costs two
      clock readings, three with a retry, and the last only has to start in time. */
  lemma FastRunCompleteIff(draws: nat -> Draw, total: int, duration: int)
    requires total > 0
    ensures |ExpectedKeys(FastRun(draws, total, duration))| == total
        <==> duration >= (2 * total - 1 + Duplicates(draws, 0, total - 1)) * 1_000_000
  {
    FastFrom(draws, total, duration, 1, 0);
  }

  lemma {:induction false} AllDuplicates(draws: nat -> Draw, n: nat, count: nat)
    requires forall k :: draws(k).duplicate
    ensures Duplicates(draws, n, count) == count
    decreases count
  {
    if count > 0 {
      AllDuplicates(draws, n + 1, count - 1);
    }
  }

  /** A fast run emits all its unique events for every random outcome exactly when it is given
      3 * total - 2 milliseconds. */
  lemma FastRunAlwaysCompleteIff(total: int, duration: int)
    requires total > 0
    ensures (forall draws :: |ExpectedKeys(FastRun(draws, total, duration))| == total)
        <==> duration >= (3 * total - 2) * 1_000_000
  {
    forall draws: nat -> Draw
      ensures duration >= (3 * total - 2) * MILLISECOND ==> |ExpectedKeys(FastRun(draws, total, duration))| == total
    {
      FastRunCompleteIff(draws, total, duration);
      DuplicatesBound(draws, 0, total - 1);
    }
    var worst: nat -> Draw := _ => Draw("", "", "", "", true);
    FastRunCompleteIff(worst, total, duration);
    AllDuplicates(worst, 0, total - 1);
  }
}
