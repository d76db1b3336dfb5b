/** Poll notifications: capacity-one channels, a subscriber list copied before the sends, and
    streams that receive and then push, interleaved in any order. */
module Notify {
  /** Joining: subscribed, first snapshot not taken yet. Woken: a notification was received and
      its snapshot not taken yet. Sending: a snapshot was taken and is being written out.
      Waiting: at the select. */
  datatype Phase = Joining | Sending | Waiting | Woken

  /** One connected stream: its channel's pending token, the number of writes its last snapshot
      reflects and how many snapshots it took. */
  datatype Stream = Stream(phase: Phase, token: bool, snap: nat, pushes: nat)

  /** One call of NotifyPoll: the writes that preceded it, the length of its copied subscriber
      list and how much of the list is served. It has returned once next == count. */
  datatype Notifier = Notifier(goal: nat, count: nat, next: nat)

  /** Stream i is the i-th subscriber; calls of NotifyPoll stay listed after they return. */
  datatype State = State(version: nat, streams: seq<Stream>, notifiers: seq<Notifier>)

  datatype Action =
    | Write
    | Subscribe
    | Snapshot(i: nat)
    | Sent(i: nat)
    | Receive(i: nat)
    | NotifyBegin
    | Send(k: nat)

  predicate Enabled(s: State, a: Action) {
    match a
    case Write => true
    case Subscribe => true
    case Snapshot(i) => i < |s.streams| && (s.streams[i].phase.Joining? || s.streams[i].phase.Woken?)
    case Sent(i) => i < |s.streams| && s.streams[i].phase.Sending?
    case Receive(i) => i < |s.streams| && s.streams[i].phase.Waiting? && s.streams[i].token
    case NotifyBegin => true
    case Send(k) =>
      && k < |s.notifiers| && s.notifiers[k].next < s.notifiers[k].count
      && s.notifiers[k].next < |s.streams|
  }

  function Step(s: State, a: Action): State
    requires Enabled(s, a)
  {
    match a
    case Write => s.(version := s.version + 1)
    case Subscribe => s.(streams := s.streams + [Stream(Joining, false, 0, 0)])
    case Snapshot(i) =>
      var st := s.streams[i];
      s.(streams := s.streams[i := st.(phase := Sending, snap := s.version, pushes := st.pushes + 1)])
    case Sent(i) => s.(streams := s.streams[i := s.streams[i].(phase := Waiting)])
    case Receive(i) => s.(streams := s.streams[i := s.streams[i].(phase := Woken, token := false)])
    case NotifyBegin => s.(notifiers := s.notifiers + [Notifier(s.version, |s.streams|, 0)])
    case Send(k) =>
      var n := s.notifiers[k];
      s.(streams := s.streams[n.next := s.streams[n.next].(token := true)],
         notifiers := s.notifiers[k := n.(next := n.next + 1)])
  }

  predicate Runs(s: State, actions: seq<Action>)
    decreases actions
  {
    |actions| == 0 || (Enabled(s, actions[0]) && Runs(Step(s, actions[0]), actions[1..]))
  }

  function Run(s: State, actions: seq<Action>): State
    requires Runs(s, actions)
    decreases actions
  {
    if |actions| == 0 then s else Run(Step(s, actions[0]), actions[1..])
  }

  // -------------------------------------------------------- no lost wake-up

  /** The stream will still look at the data, or has looked at it since the goal was reached. */
  predicate Informed(st: Stream, goal: nat) {
    st.phase.Joining? || st.token || st.phase.Woken? || st.snap >= goal
  }

  predicate Pending(n: Notifier, i: nat) {
    n.next <= i < n.count
  }

  predicate Returned(n: Notifier) {
    n.next == n.count
  }

  predicate Sane(s: State, n: Notifier) {
    n.next <= n.count <= |s.streams| && n.goal <= s.version
  }

  predicate Valid(s: State) {
    && (forall k :: 0 <= k < |s.notifiers| ==> Sane(s, s.notifiers[k]))
    && (forall i :: 0 <= i < |s.streams| ==> s.streams[i].snap <= s.version)
    && (forall k, i :: 0 <= k < |s.notifiers| && 0 <= i < |s.streams| ==>
          Informed(s.streams[i], s.notifiers[k].goal) || Pending(s.notifiers[k], i))
  }

  lemma StepValid(s: State, a: Action)
    requires Valid(s) && Enabled(s, a)
    ensures Valid(Step(s, a))
  {
    var t := Step(s, a);
    forall k | 0 <= k < |t.notifiers| ensures Sane(t, t.notifiers[k]) {
      if k < |s.notifiers| {
        assert Sane(s, s.notifiers[k]);
      }
    }
    forall k, i | 0 <= k < |t.notifiers| && 0 <= i < |t.streams|
      ensures Informed(t.streams[i], t.notifiers[k].goal) || Pending(t.notifiers[k], i)
    {
      if k < |s.notifiers| && i < |s.streams| {
        assert Sane(s, s.notifiers[k]);
        assert Informed(s.streams[i], s.notifiers[k].goal) || Pending(s.notifiers[k], i);
      }
    }
  }

  lemma {:induction false} RunValid(s: State, actions: seq<Action>)
    requires Valid(s) && Runs(s, actions)
    ensures Valid(Run(s, actions))
    decreases actions
  {
    if |actions| > 0 {
      StepValid(s, actions[0]);
      RunValid(Step(s, actions[0]), actions[1..]);
    }
  }

  /** No wake-up is lost: in every interleaving, for every call of NotifyPoll that returned, each
      stream past its first push has a token or a push pending, or took its last snapshot after
      every write that preceded the call. */
  lemma NoLostWakeUp(version: nat, actions: seq<Action>, k: nat, i: nat)
    requires Runs(State(version, [], []), actions)
    requires var s := Run(State(version, [], []), actions);
             && k < |s.notifiers| && Returned(s.notifiers[k])
             && i < |s.streams| && !s.streams[i].phase.Joining?
    ensures var s := Run(State(version, [], []), actions);
            s.streams[i].token || s.streams[i].phase.Woken? || s.streams[i].snap >= s.notifiers[k].goal
  {
    RunValid(State(version, [], []), actions);
    var s := Run(State(version, [], []), actions);
    assert Informed(s.streams[i], s.notifiers[k].goal) || Pending(s.notifiers[k], i);
  }

  // --------------------------------------------------------- bounded delivery

  predicate Own(a: Action, i: nat) {
    a == Snapshot(i) || a == Sent(i) || a == Receive(i)
  }

  /** The steps stream i takes itself. */
  function OwnSteps(actions: seq<Action>, i: nat): nat {
    if |actions| == 0 then 0 else (if Own(actions[0], i) then 1 else 0) + OwnSteps(actions[1..], i)
  }

  /** How many of its own steps the stream is from a snapshot that reaches the goal. */
  function Distance(st: Stream, goal: nat): nat {
    match st.phase
    case Joining => 1
    case Woken => if st.snap >= goal then 0 else 1
    case Waiting => if st.snap >= goal then 0 else 2
    case Sending => if st.snap >= goal then 0 else 3
  }

  lemma StepApproaches(s: State, a: Action, i: nat, goal: nat)
    requires Valid(s) && Enabled(s, a) && goal <= s.version
    requires i < |s.streams| && Informed(s.streams[i], goal)
    ensures i < |Step(s, a).streams| && Informed(Step(s, a).streams[i], goal)
    ensures Distance(Step(s, a).streams[i], goal) <= Distance(s.streams[i], goal)
    ensures Own(a, i) && Distance(s.streams[i], goal) > 0 ==>
      Distance(Step(s, a).streams[i], goal) < Distance(s.streams[i], goal)
    ensures Step(s, a).version >= s.version
  {
  }

  lemma {:induction false} RunApproaches(s: State, actions: seq<Action>, i: nat, goal: nat)
    requires Valid(s) && Runs(s, actions) && goal <= s.version
    requires i < |s.streams| && Informed(s.streams[i], goal)
    ensures i < |Run(s, actions).streams|
    ensures Distance(Run(s, actions).streams[i], goal) == 0
         || Distance(Run(s, actions).streams[i], goal) + OwnSteps(actions, i) <= Distance(s.streams[i], goal)
    decreases actions
  {
    if |actions| > 0 {
      StepValid(s, actions[0]);
      StepApproaches(s, actions[0], i, goal);
      RunApproaches(Step(s, actions[0]), actions[1..], i, goal);
    }
  }

  /** Bounded delivery: once a call of NotifyPoll has returned, three steps of a connected stream,
      whatever else happens in between, bring it to a snapshot that reflects every write before
      that call. */
  lemma DeliveredInThreeSteps(s: State, k: nat, i: nat, actions: seq<Action>)
    requires Valid(s) && k < |s.notifiers| && Returned(s.notifiers[k]) && i < |s.streams|
    requires Runs(s, actions) && OwnSteps(actions, i) >= 3
    ensures i < |Run(s, actions).streams|
    ensures !Run(s, actions).streams[i].phase.Joining?
    ensures Run(s, actions).streams[i].snap >= s.notifiers[k].goal
  {
    assert Informed(s.streams[i], s.notifiers[k].goal) || Pending(s.notifiers[k], i);
    assert Sane(s, s.notifiers[k]);
    RunApproaches(s, actions, i, s.notifiers[k].goal);
  }

  // ------------------------------------------------------- no spurious pushes

  /** The calls that have served stream i. */
  function Served(ns: seq<Notifier>, i: nat): nat {
    if |ns| == 0 then 0 else (if i < ns[0].next then 1 else 0) + Served(ns[1..], i)
  }

  lemma {:induction false} ServedUpdate(ns: seq<Notifier>, k: nat, n: Notifier, i: nat)
    requires k < |ns|
    ensures Served(ns[k := n], i) ==
      Served(ns, i) - (if i < ns[k].next then 1 else 0) + (if i < n.next then 1 else 0)
  {
    if k == 0 {
      assert ns[0 := n][1..] == ns[1..];
    } else {
      assert ns[k := n][1..] == ns[1..][k - 1 := n];
      ServedUpdate(ns[1..], k - 1, n, i);
    }
  }

  lemma {:induction false} ServedAppend(ns: seq<Notifier>, n: Notifier, i: nat)
    ensures Served(ns + [n], i) == Served(ns, i) + (if i < n.next then 1 else 0)
  {
    if |ns| == 0 {
      assert ns + [n] == [n];
    } else {
      assert (ns + [n])[1..] == ns[1..] + [n];
      ServedAppend(ns[1..], n, i);
    }
  }

  lemma {:induction false} ServedBound(ns: seq<Notifier>, i: nat)
    ensures Served(ns, i) <= |ns|
  {
    if |ns| > 0 {
      ServedBound(ns[1..], i);
    }
  }

  /** Snapshots taken, or already bound to be taken. */
  function Committed(st: Stream): nat {
    st.pushes + (if st.phase.Joining? || st.phase.Woken? then 1 else 0) + (if st.token then 1 else 0)
  }

  ghost predicate Frugal(s: State) {
    forall i :: 0 <= i < |s.streams| ==> Committed(s.streams[i]) <= 1 + Served(s.notifiers, i)
  }

  lemma StepFrugal(s: State, a: Action)
    requires Valid(s) && Frugal(s) && Enabled(s, a)
    ensures Frugal(Step(s, a))
  {
    var t := Step(s, a);
    forall i | 0 <= i < |t.streams| ensures Committed(t.streams[i]) <= 1 + Served(t.notifiers, i) {
      match a {
        case Send(k) => ServedUpdate(s.notifiers, k, t.notifiers[k], i);
        case NotifyBegin => ServedAppend(s.notifiers, Notifier(s.version, |s.streams|, 0), i);
        case _ =>
      }
      assert i < |s.streams| ==> Committed(s.streams[i]) <= 1 + Served(s.notifiers, i);
    }
  }

  lemma {:induction false} RunFrugal(s: State, actions: seq<Action>)
    requires Valid(s) && Frugal(s) && Runs(s, actions)
    ensures Frugal(Run(s, actions))
    decreases actions
  {
    if |actions| > 0 {
      StepValid(s, actions[0]);
      StepFrugal(s, actions[0]);
      RunFrugal(Step(s, actions[0]), actions[1..]);
    }
  }

  /** Notifications coalesce and never multiply: in every interleaving a stream pushes at most
      once on joining and once for each call of NotifyPoll that reached it. */
  lemma PushesBounded(version: nat, actions: seq<Action>, i: nat)
    requires Runs(State(version, [], []), actions)
    requires i < |Run(State(version, [], []), actions).streams|
    ensures var s := Run(State(version, [], []), actions);
            s.streams[i].pushes <= 1 + Served(s.notifiers, i) <= 1 + |s.notifiers|
  {
    RunFrugal(State(version, [], []), actions);
    var s := Run(State(version, [], []), actions);
    assert Committed(s.streams[i]) <= 1 + Served(s.notifiers, i);
    ServedBound(s.notifiers, i);
  }

  // ------------------------------------------------------ one call on its own

  function TokensOf(s: State): seq<bool> {
    seq(|s.streams|, i requires 0 <= i < |s.streams| => s.streams[i].token)
  }

  function Sends(k: nat, times: nat): seq<Action> {
    if times == 0 then [] else [Send(k)] + Sends(k, times - 1)
  }

  /** The steps of a call of NotifyPoll that nothing interrupts. */
  function WholeNotify(s: State): seq<Action> {
    [NotifyBegin] + Sends(|s.notifiers|, |s.streams|)
  }

  lemma {:induction false} SendsFill(s: State, k: nat, times: nat)
    requires k < |s.notifiers| && s.notifiers[k].count == |s.streams|
    requires s.notifiers[k].next + times == |s.streams|
    requires forall i :: 0 <= i < s.notifiers[k].next ==> s.streams[i].token
    ensures Runs(s, Sends(k, times))
    ensures var t := Run(s, Sends(k, times));
            && |t.notifiers| == |s.notifiers| && Returned(t.notifiers[k])
            && |t.streams| == |s.streams| && t.version == s.version
            && forall i :: 0 <= i < |t.streams| ==> t.streams[i] == s.streams[i].(token := true)
    decreases times
  {
    if times > 0 {
      var actions := Sends(k, times);
      assert actions[0] == Send(k) && actions[1..] == Sends(k, times - 1);
      SendsFill(Step(s, Send(k)), k, times - 1);
    }
  }

  /** A call on its own leaves a token with every subscriber and changes nothing else of them. */
  lemma UninterruptedNotify(s: State)
    ensures Runs(s, WholeNotify(s))
    ensures var t := Run(s, WholeNotify(s));
            && |t.streams| == |s.streams| && t.version == s.version
            && |t.notifiers| == |s.notifiers| + 1 && Returned(t.notifiers[|s.notifiers|])
            && forall i :: 0 <= i < |t.streams| ==> t.streams[i] == s.streams[i].(token := true)
  {
    var actions := WholeNotify(s);
    assert actions[0] == NotifyBegin && actions[1..] == Sends(|s.notifiers|, |s.streams|);
    SendsFill(Step(s, NotifyBegin), |s.notifiers|, |s.streams|);
  }

  // ------------------------------------------------------------- the objects

  /** A channel of capacity one. */
  class Channel {
    var full: bool

    constructor ()
      ensures !full
    {
      full := false;
    }

    /** The select with a default branch: never blocks, and leaves a full channel as it is. */
    method TrySend()
      modifies this
      ensures full
    {
      if !full {
        full := true;
      }
    }
  }

  class PollSubscriptions {
    var subs: seq<Channel>

    constructor ()
      ensures subs == []
    {
      subs := [];
    }

    ghost function Tokens(): seq<bool>
      reads this, subs
    {
      seq(|subs|, i requires 0 <= i < |subs| reads this, subs => subs[i].full)
    }

    method SubscribePolls() returns (ch: Channel)
      modifies this
      ensures fresh(ch) && subs == old(subs) + [ch]
      ensures Tokens() == old(Tokens()) + [false]
    {
      ch := new Channel();
      subs := subs + [ch];
    }

    /** The loop over the copied list is the machine's uninterrupted call, from any state whose
        streams hold these channels' tokens. */
    method NotifyPoll(ghost s: State)
      requires TokensOf(s) == Tokens()
      modifies subs
      ensures Runs(s, WholeNotify(s)) && Tokens() == TokensOf(Run(s, WholeNotify(s)))
    {
      var copied := subs;
      var k := 0;
      while k < |copied|
        invariant 0 <= k <= |copied|
        invariant forall i :: 0 <= i < k ==> copied[i].full
      {
        copied[k].TrySend();
        k := k + 1;
      }
      assert |TokensOf(s)| == |Tokens()|;
      UninterruptedNotify(s);
    }
  }
}
