/**
  The two processes of the message queue stressor as steps on a shared state. Messages all have
  the same priority, so the queue is first in, first out. Counters are 64 bits wide and wrap.
 */
module MessageQueue {
  import opened Basics

  const WRAP: nat := 0x1_0000_0000_0000_0000

  /** What a `uint64_t` shows of a count. */
  function Shown(count: nat): nat {
    count % WRAP
  }

  datatype Message = Message(value: nat, stop: bool)

  datatype Sender = Sending | Deciding | Stopping | Gone
  datatype Receiver = Receiving | SawStop | Quit

  /** `counter` and `expected` count without bound; the processes see them modulo 2^64. */
  datatype State = State(
    capacity: nat, queue: seq<Message>,
    sender: Sender, counter: nat,
    receiver: Receiver, expected: nat, complaints: nat)

  /** What may happen next, whatever the scheduler, the clock and the kernel decide. */
  datatype Action =
    | Send          // mq_send or mq_timedsend succeeds
    | SendFails     // ... or fails, and the loop ends
    | GoOn          // keep_stressing() is true
    | Leave         // keep_stressing() is false
    | SendStop      // the closing mq_send succeeds
    | StopFails     // ... or fails
    | Receive       // the receiver takes the oldest message
    | ReceiveFails  // mq_receive fails, or the child is stopped or killed

  predicate Enabled(s: State, a: Action) {
    match a
    case Send => s.sender == Sending && |s.queue| < s.capacity
    case SendFails => s.sender == Sending
    case GoOn => s.sender == Deciding
    case Leave => s.sender == Deciding
    case SendStop => s.sender == Stopping && |s.queue| < s.capacity
    case StopFails => s.sender == Stopping
    case Receive => s.receiver == Receiving && s.queue != []
    case ReceiveFails => s.receiver == Receiving
  }

  function Step(s: State, a: Action): State
    requires Enabled(s, a)
  {
    match a
    case Send =>
      s.(queue := s.queue + [Message(Shown(s.counter), false)], counter := s.counter + 1, sender := Deciding)
    case SendFails => s.(sender := Stopping)
    case GoOn => s.(sender := Sending)
    case Leave => s.(sender := Stopping)
    case SendStop => s.(queue := s.queue + [Message(Shown(s.counter), true)], sender := Gone)
    case StopFails => s.(sender := Gone)
    case Receive =>
      var m, rest := s.queue[0], s.(queue := s.queue[1..]);
      if m.stop then rest.(receiver := SawStop)
      else rest.(expected := s.expected + 1,
                 complaints := if m.value != Shown(s.expected) then s.complaints + 1 else s.complaints)
    case ReceiveFails => s.(receiver := Quit)
  }

  function Start(capacity: nat): State {
    State(capacity, [], Sending, 0, Receiving, 0, 0)
  }

  /** The state after the actions of `run`, if each is enabled in its turn. */
  function Run(capacity: nat, run: seq<Action>): Option<State> {
    if run == [] then Some(Start(capacity))
    else
      var before, a := Run(capacity, run[..|run| - 1]), run[|run| - 1];
      if before.Some? && Enabled(before.value, a) then Some(Step(before.value, a)) else None
  }

  /** The number of ordinary messages in the queue. */
  ghost function Ordinary(q: seq<Message>): nat {
    if q != [] && q[|q| - 1].stop then |q| - 1 else |q|
  }

  /** The queue is what has been sent and not received: consecutive values, then perhaps the stop. */
  ghost predicate Consistent(s: State) {
    && |s.queue| <= s.capacity
    && s.counter == s.expected + Ordinary(s.queue)
    && (forall j | 0 <= j < |s.queue| ::
          s.queue[j].value == Shown(s.expected + j) && (s.queue[j].stop ==> j == |s.queue| - 1))
    && (s.queue != [] && s.queue[|s.queue| - 1].stop ==> s.sender == Gone)
    && (s.receiver == SawStop ==> s.sender == Gone && s.queue == [])
    && s.complaints == 0
  }

  lemma ConsistentReceive(s: State)
    requires Consistent(s) && Enabled(s, Receive)
    ensures Consistent(Step(s, Receive))
  {
    hide Shown;
    var t := Step(s, Receive);
    assert s.queue[0].value == Shown(s.expected + 0);
    forall j | 0 <= j < |t.queue|
      ensures !s.queue[0].stop && t.queue[j].value == Shown(t.expected + j) && (t.queue[j].stop ==> j == |t.queue| - 1)
    {
      assert t.queue[j] == s.queue[j + 1];
      assert s.queue[j + 1].value == Shown(s.expected + (j + 1));
      assert s.expected + (j + 1) == s.expected + 1 + j;
    }
  }

  lemma ConsistentSend(s: State, a: Action)
    requires Consistent(s) && Enabled(s, a) && (a == Send || a == SendStop)
    ensures Consistent(Step(s, a))
  {
    hide Shown;
    var t, n := Step(s, a), |s.queue|;
    forall j | 0 <= j < |t.queue|
      ensures t.queue[j].value == Shown(t.expected + j) && (t.queue[j].stop ==> j == |t.queue| - 1)
    {
      if j < n { assert t.queue[j] == s.queue[j]; } else { assert s.counter == s.expected + n; }
    }
  }

  lemma ConsistentStep(s: State, a: Action)
    requires Consistent(s) && Enabled(s, a)
    ensures Consistent(Step(s, a))
  {
    hide Shown;
    match a {
      case Receive => ConsistentReceive(s);
      case Send => ConsistentSend(s, a);
      case SendStop => ConsistentSend(s, a);
      case _ =>
    }
  }

  /**
    In every interleaving the queue holds exactly the consecutive values not yet received, with
    the stop message last; the receiver's equality check never fails; and a receiver that has
    seen the stop message has received everything that was sent.
   */
  lemma {:induction false} EveryRun(capacity: nat, run: seq<Action>)
    requires Run(capacity, run).Some?
    ensures var s := Run(capacity, run).value;
      Consistent(s) && s.complaints == 0 && (s.receiver == SawStop ==> s.expected == s.counter && s.queue == [])
    decreases |run|
  {
    hide Step, Enabled;
    if run != [] {
      EveryRun(capacity, run[..|run| - 1]);
      ConsistentStep(Run(capacity, run[..|run| - 1]).value, run[|run| - 1]);
    }
  }

  ghost function Count(run: seq<Action>, a: Action): nat {
    if run == [] then 0 else Count(run[..|run| - 1], a) + if run[|run| - 1] == a then 1 else 0
  }

  lemma ShownApart(e: nat, k: nat)
    ensures Shown(e + k) == Shown(e) <==> k % WRAP == 0
  {
    assert k == WRAP * (k / WRAP) + k % WRAP && e == WRAP * (e / WRAP) + e % WRAP;
    if k % WRAP == 0 { assert e + k == WRAP * (e / WRAP + k / WRAP) + e % WRAP; }
  }

  /**
    The receiver's check is not idle: if a queue lost the `k` oldest messages, the next one would
    make it complain, unless the loss is a multiple of 2^64.
   */
  lemma LossIsNoticed(capacity: nat, run: seq<Action>, k: nat)
    requires Run(capacity, run).Some? && Run(capacity, run).value.receiver == Receiving
    requires k < |Run(capacity, run).value.queue| && !Run(capacity, run).value.queue[k].stop
    ensures var s := Run(capacity, run).value;
      Step(s.(queue := s.queue[k..]), Receive).complaints == if k % 0x1_0000_0000_0000_0000 == 0 then 0 else 1
  {
    hide Shown;
    var s := Run(capacity, run).value;
    EveryRun(capacity, run);
    assert Consistent(s) && s.queue[k].value == Shown(s.expected + k);
    hide Run, Consistent;
    ShownApart(s.expected, k);
    assert s.queue[k..][0] == s.queue[k];
  }

  /** Nothing is lost or duplicated: sends are receipts plus what is queued. */
  lemma {:induction false} SendsAreReceipts(capacity: nat, run: seq<Action>)
    requires Run(capacity, run).Some?
    ensures var s := Run(capacity, run).value;
      && Count(run, Send) == s.expected + Ordinary(s.queue)
      && Count(run, Receive) == s.expected + if s.receiver == SawStop then 1 else 0
    decreases |run|
  {
    EveryRun(capacity, run);
    CounterCountsSends(capacity, run);
    ReceiptsCounted(capacity, run);
  }

  lemma {:induction false} CounterCountsSends(capacity: nat, run: seq<Action>)
    requires Run(capacity, run).Some?
    ensures Run(capacity, run).value.counter == Count(run, Send)
    decreases |run|
  {
    if run != [] { CounterCountsSends(capacity, run[..|run| - 1]); }
  }

  lemma {:induction false} ReceiptsCounted(capacity: nat, run: seq<Action>)
    requires Run(capacity, run).Some?
    ensures var s := Run(capacity, run).value;
      Count(run, Receive) == s.expected + if s.receiver == SawStop then 1 else 0
    decreases |run|
  {
    if run != [] { ReceiptsCounted(capacity, run[..|run| - 1]); }
  }

  lemma RunSnoc(capacity: nat, run: seq<Action>, a: Action)
    requires Run(capacity, run).Some? && Enabled(Run(capacity, run).value, a)
    ensures Run(capacity, run + [a]) == Some(Step(Run(capacity, run).value, a))
  {
    assert (run + [a])[..|run|] == run;
  }

  /** What the sender did last. */
  ghost function LastOfSender(run: seq<Action>): Option<Action> {
    if run == [] then None
    else if run[|run| - 1] in {Receive, ReceiveFails} then LastOfSender(run[..|run| - 1])
    else Some(run[|run| - 1])
  }

  /**
    The sender tries to send the stop message exactly once, after a failed send or when told to
    stop, and is gone exactly when it has tried.
   */
  lemma {:induction false} StopsOnce(capacity: nat, run: seq<Action>)
    requires Run(capacity, run).Some?
    ensures var s := Run(capacity, run).value;
      && Count(run, SendStop) + Count(run, StopFails) <= 1
      && (s.sender == Gone <==> Count(run, SendStop) + Count(run, StopFails) == 1)
      && (s.sender == Stopping <==> LastOfSender(run) in {Some(SendFails), Some(Leave)})
      && Count(run, SendFails) + Count(run, Leave) == if s.sender in {Stopping, Gone} then 1 else 0
    decreases |run|
  {
    if run != [] { StopsOnce(capacity, run[..|run| - 1]); }
  }

  /** So after a failed send, or when told to stop, it can send the stop message as soon as there is room. */
  lemma StopCanBeSent(capacity: nat, run: seq<Action>)
    requires Run(capacity, run).Some? && LastOfSender(run) in {Some(SendFails), Some(Leave)}
    requires |Run(capacity, run).value.queue| < capacity
    ensures Run(capacity, run + [SendStop]).Some?
    ensures var s := Run(capacity, run + [SendStop]).value; s.queue != [] && s.queue[|s.queue| - 1].stop
  {
    StopsOnce(capacity, run);
    CapacityKept(capacity, run);
    RunSnoc(capacity, run, SendStop);
  }

  lemma {:induction false} CapacityKept(capacity: nat, run: seq<Action>)
    requires Run(capacity, run).Some?
    ensures Run(capacity, run).value.capacity == capacity
    decreases |run|
  {
    if run != [] { CapacityKept(capacity, run[..|run| - 1]); }
  }

  /** The stop message is queued or has been taken. */
  ghost predicate StopUnderway(s: State) {
    s.receiver == SawStop || (s.queue != [] && s.queue[|s.queue| - 1].stop)
  }

  lemma StopStep(s: State, a: Action)
    requires Consistent(s) && Enabled(s, a)
    ensures StopUnderway(Step(s, a)) <==> StopUnderway(s) || a == SendStop
    ensures Step(s, a).receiver == Quit <==> s.receiver == Quit || a == ReceiveFails
  {
    hide Shown;
    if a == Receive && |s.queue| > 1 { assert s.queue[1..][|s.queue| - 2] == s.queue[|s.queue| - 1]; }
  }

  lemma {:induction false} StopMessage(capacity: nat, run: seq<Action>)
    requires Run(capacity, run).Some?
    ensures var s := Run(capacity, run).value;
      && (Count(run, ReceiveFails) == 0 ==> s.receiver != Quit)
      && (Count(run, SendStop) > 0 <==> StopUnderway(s))
    decreases |run|
  {
    hide Step, Enabled, Consistent, StopUnderway;
    if run == [] {
      StopNotYet(capacity);
    } else {
      var init := run[..|run| - 1];
      StopMessage(capacity, init);
      EveryRun(capacity, init);
      StopStep(Run(capacity, init).value, run[|run| - 1]);
    }
  }

  lemma StopNotYet(capacity: nat)
    ensures !StopUnderway(Start(capacity))
  {}

  ghost function Repeat(a: Action, n: nat): seq<Action> {
    if n == 0 then [] else Repeat(a, n - 1) + [a]
  }

  lemma TakesOne(s: State)
    requires Consistent(s) && s.receiver == Receiving && s.queue != []
    ensures Enabled(s, Receive)
    ensures var t := Step(s, Receive);
      && t.queue == s.queue[1..] && t.sender == s.sender && t.counter == s.counter
      && (t.receiver == Receiving || (t.receiver == SawStop && |s.queue| == 1))
  {
    hide Shown;
  }

  /** A receiver that goes on takes all that is queued. */
  lemma {:induction false} Takes(capacity: nat, run: seq<Action>, n: nat)
    requires Run(capacity, run).Some? && Run(capacity, run).value.receiver == Receiving
    requires n <= |Run(capacity, run).value.queue|
    ensures Run(capacity, run + Repeat(Receive, n)).Some?
    ensures var s, t := Run(capacity, run).value, Run(capacity, run + Repeat(Receive, n)).value;
      && t.queue == s.queue[n..] && t.sender == s.sender && t.counter == s.counter
      && (t.receiver == Receiving || (t.receiver == SawStop && n == |s.queue|))
  {
    hide Step, Enabled, Consistent, Run;
    if n == 0 {
      assert run + [] == run;
    } else {
      Takes(capacity, run, n - 1);
      var part := run + Repeat(Receive, n - 1);
      EveryRun(capacity, part);
      TakesOne(Run(capacity, part).value);
      RunSnoc(capacity, part, Receive);
      assert run + Repeat(Receive, n) == part + [Receive];
    }
  }

  /**
    Once the stop message has been sent, a receiver that no call fails can take everything that
    is queued, and then has seen the stop message and received all that was sent.
   */
  lemma ReceiverIsTold(capacity: nat, run: seq<Action>)
    requires Run(capacity, run).Some? && Run(capacity, run).value.sender == Gone
    requires Count(run, StopFails) == 0 && Count(run, ReceiveFails) == 0
    ensures var s := Run(capacity, run).value;
      s.receiver == SawStop ||
      var all := run + Repeat(Receive, |s.queue|);
      && Run(capacity, all).Some?
      && Run(capacity, all).value.receiver == SawStop && Run(capacity, all).value.expected == s.counter
  {
    hide Shown, Step, Enabled;
    var s := Run(capacity, run).value;
    StopsOnce(capacity, run);
    StopMessage(capacity, run);
    if s.receiver != SawStop {
      var all := run + Repeat(Receive, |s.queue|);
      Takes(capacity, run, |s.queue|);
      CountRepeat(run, SendStop, |s.queue|);
      StopMessage(capacity, all);
      EveryRun(capacity, all);
    }
  }

  lemma {:induction false} CountRepeat(run: seq<Action>, a: Action, n: nat)
    requires a != Receive
    ensures Count(run + Repeat(Receive, n), a) == Count(run, a)
  {
    if n == 0 {
      assert run + [] == run;
    } else {
      CountRepeat(run, a, n - 1);
      var more := run + Repeat(Receive, n);
      assert more[..|more| - 1] == run + Repeat(Receive, n - 1);
    }
  }

  /** `n` messages sent and received one after the other. */
  ghost function Rounds(n: nat): seq<Action> {
    if n == 0 then [] else Rounds(n - 1) + [Send, GoOn, Receive]
  }

  lemma OneRound(capacity: nat, n: nat)
    requires capacity > 0
    ensures var s, m := State(capacity, [], Sending, n, Receiving, n, 0), Message(Shown(n), false);
      && Enabled(s, Send) && Step(s, Send) == State(capacity, [m], Deciding, n + 1, Receiving, n, 0)
      && var t := Step(s, Send);
         && Enabled(t, GoOn) && Step(t, GoOn) == State(capacity, [m], Sending, n + 1, Receiving, n, 0)
         && Enabled(Step(t, GoOn), Receive)
         && Step(Step(t, GoOn), Receive) == State(capacity, [], Sending, n + 1, Receiving, n + 1, 0)
  {
    hide Shown;
    var s := State(capacity, [], Sending, n, Receiving, n, 0);
    assert Step(s, Send).queue == [Message(Shown(n), false)];
  }

  /** Any number of messages can go through, whatever the capacity. */
  lemma {:induction false} GoesThrough(capacity: nat, n: nat)
    requires capacity > 0
    ensures Run(capacity, Rounds(n)) == Some(State(capacity, [], Sending, n, Receiving, n, 0))
  {
    hide Step, Enabled;
    if n > 0 {
      GoesThrough(capacity, n - 1);
      OneRound(capacity, n - 1);
      var r := Rounds(n - 1);
      RunSnoc(capacity, r, Send);
      RunSnoc(capacity, r + [Send], GoOn);
      RunSnoc(capacity, r + [Send] + [GoOn], Receive);
      assert r + [Send] + [GoOn] + [Receive] == Rounds(n);
    }
  }

  /** The last round: the sender is told to stop and says so. */
  lemma LastRound(capacity: nat, n: nat)
    requires capacity > 0
    ensures var m, e := Message(Shown(n), false), Message(Shown(n + 1), true);
      var t := State(capacity, [m], Deciding, n + 1, Receiving, n, 0);
      var u := State(capacity, [m], Stopping, n + 1, Receiving, n, 0);
      var v := State(capacity, [], Stopping, n + 1, Receiving, n + 1, 0);
      var w := State(capacity, [e], Gone, n + 1, Receiving, n + 1, 0);
      && Enabled(t, Leave) && Step(t, Leave) == u && Enabled(u, Receive) && Step(u, Receive) == v
      && Enabled(v, SendStop) && Step(v, SendStop) == w && Enabled(w, Receive)
      && Step(w, Receive) == State(capacity, [], Gone, n + 1, SawStop, n + 1, 0)
  {
    hide Shown;
  }

  /** After any number of them the sender can be told to stop, and both processes end with nothing lost. */
  lemma StopsAfter(capacity: nat, n: nat)
    requires capacity > 0
    ensures Run(capacity, Rounds(n) + [Send, Leave, Receive, SendStop, Receive])
         == Some(State(capacity, [], Gone, n + 1, SawStop, n + 1, 0))
  {
    hide Step, Enabled;
    var r := Rounds(n);
    GoesThrough(capacity, n);
    OneRound(capacity, n);
    LastRound(capacity, n);
    RunSnoc(capacity, r, Send);
    RunSnoc(capacity, r + [Send], Leave);
    RunSnoc(capacity, r + [Send] + [Leave], Receive);
    RunSnoc(capacity, r + [Send] + [Leave] + [Receive], SendStop);
    RunSnoc(capacity, r + [Send] + [Leave] + [Receive] + [SendStop], Receive);
    assert r + [Send] + [Leave] + [Receive] + [SendStop] + [Receive]
        == r + [Send, Leave, Receive, SendStop, Receive];
  }
}
