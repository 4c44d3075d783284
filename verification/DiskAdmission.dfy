/** Admission of disk work: any number of sink clones and one stream share one atomic counter. */
module DiskAdmission {
  /** The counter is a `usize`. */
  const USIZE := 0x1_0000_0000_0000_0000

  type SinkId = nat
  type TaskId = nat

  /** What tasks put into the outgoing channel: a piece that was found, or the final reply. */
  datatype Message = Piece | Reply(task: TaskId, ok: bool)

  /** `undoing` are the sinks between the two atomic steps of a refused `try_submit_work`; `releasing`
      says that the stream has received a successful reply and not called `complete_work` yet. */
  datatype State = State(
    counter: nat,
    undoing: set<SinkId>,
    releasing: bool,
    running: set<TaskId>,
    channel: seq<Message>,
    admitted: nat,
    readOk: nat,
    readErr: nat)

  const INITIAL := State(0, {}, false, {}, [], 0, 0, 0)

  /** Atomic steps. A probe is `fetch_add` and the comparison with what it returned; a refused sink
      undoes it with `fetch_sub` in a step of its own. The stream, of which there is one, receives a
      message and gives its unit back in a later step; sinks may probe in between. */
  datatype Step =
    | Probe(sink: SinkId)
    | Undo(sink: SinkId)
    | FindPiece(task: TaskId)
    | Finish(task: TaskId, ok: bool)
    | Receive
    | Release

  predicate Enabled(s: State, sinks: set<SinkId>, step: Step) {
    match step
    case Probe(k) => k in sinks && k !in s.undoing
    case Undo(k) => k in s.undoing
    case FindPiece(t) => t in s.running
    case Finish(t, _) => t in s.running
    case Receive => |s.channel| > 0 && !s.releasing
    case Release => s.releasing
  }

  function Apply(s: State, max: nat, step: Step): State {
    match step
    case Probe(k) =>
      var s1 := s.(counter := (s.counter + 1) % USIZE);
      if s.counter < max then s1.(running := s.running + {s.admitted}, admitted := s.admitted + 1)
      else s1.(undoing := s.undoing + {k})
    case Undo(k) => s.(counter := (s.counter - 1) % USIZE, undoing := s.undoing - {k})
    case FindPiece(_) => s.(channel := s.channel + [Piece])
    case Finish(t, ok) => s.(running := s.running - {t}, channel := s.channel + [Reply(t, ok)])
    case Receive =>
      if |s.channel| == 0 then s
      else
        var (m, s1) := (s.channel[0], s.(channel := s.channel[1..]));
        // Only successful replies lead to `complete_work`.
        if m.Piece? then s1
        else if m.ok then s1.(releasing := true, readOk := s.readOk + 1)
        else s1.(readErr := s.readErr + 1)
    case Release => s.(counter := (s.counter - 1) % USIZE, releasing := false)
  }

  predicate Possible(s: State, max: nat, sinks: set<SinkId>, steps: seq<Step>)
    decreases |steps|
  {
    |steps| == 0 || (Enabled(s, sinks, steps[0]) && Possible(Apply(s, max, steps[0]), max, sinks, steps[1..]))
  }

  function Run(s: State, max: nat, steps: seq<Step>): State
    decreases |steps|
  {
    if |steps| == 0 then s else Run(Apply(s, max, steps[0]), max, steps[1..])
  }

  // ---------------------------------------------------------------- the channel

  /** The messages tasks put into the channel, in order. */
  function Sent(steps: seq<Step>): seq<Message> {
    if |steps| == 0 then [] else Puts(steps[0]) + Sent(steps[1..])
  }

  function Puts(step: Step): seq<Message> {
    match step
    case FindPiece(_) => [Piece]
    case Finish(t, ok) => [Reply(t, ok)]
    case _ => []
  }

  /** The messages the stream receives. */
  function Received(s: State, max: nat, steps: seq<Step>): seq<Message>
    decreases |steps|
  {
    if |steps| == 0 then []
    else Takes(s, steps[0]) + Received(Apply(s, max, steps[0]), max, steps[1..])
  }

  function Takes(s: State, step: Step): seq<Message> {
    if step.Receive? && |s.channel| > 0 then [s.channel[0]] else []
  }

  /** What was received followed by what waits is what was there followed by what was sent: no message is lost,
      doubled or overtaken. */
  lemma {:induction false} ChannelInOrder(s: State, max: nat, steps: seq<Step>)
    ensures Received(s, max, steps) + Run(s, max, steps).channel == s.channel + Sent(steps)
    decreases |steps|
  {
    if |steps| == 0 {
      assert [] + s.channel == s.channel + [];
    } else {
      var s1 := Apply(s, max, steps[0]);
      ChannelInOrder(s1, max, steps[1..]);
      StepInOrder(s, max, steps[0], Sent(steps[1..]), Received(s1, max, steps[1..]), Run(s1, max, steps[1..]).channel);
    }
  }

  lemma StepChannel(s: State, max: nat, step: Step)
    ensures Takes(s, step) + Apply(s, max, step).channel == s.channel + Puts(step)
  {}

  lemma StepInOrder(s: State, max: nat, step: Step, later: seq<Message>, received: seq<Message>, left: seq<Message>)
    requires received + left == Apply(s, max, step).channel + later
    ensures Takes(s, step) + received + left == s.channel + (Puts(step) + later)
  {
    StepChannel(s, max, step);
    var (taken, put, channel) := (Takes(s, step), Puts(step), Apply(s, max, step).channel);
    hide Apply, Takes, Puts;
    assert taken + received + left == taken + (received + left);
    assert taken + (channel + later) == (taken + channel) + later;
    assert s.channel + (put + later) == (s.channel + put) + later;
  }

  // ---------------------------------------------------------------- the invariant

  function Replies(channel: seq<Message>): nat {
    if |channel| == 0 then 0
    else Replies(channel[..|channel| - 1]) + if channel[|channel| - 1].Reply? then 1 else 0
  }

  lemma {:induction false} RepliesFirst(channel: seq<Message>)
    requires |channel| > 0
    ensures Replies(channel) == Replies(channel[1..]) + if channel[0].Reply? then 1 else 0
  {
    if |channel| > 1 {
      RepliesFirst(channel[..|channel| - 1]);
      assert channel[..|channel| - 1][1..] == channel[1..][..|channel| - 2];
    } else {
      assert channel[1..] == [] && channel[..0] == [];
    }
  }

  /** Admitted work whose final reply has not been read. */
  function Unread(s: State): nat {
    |s.running| + Replies(s.channel)
  }

  /** The unit of a reply received and not released yet. */
  function Held(s: State): nat {
    if s.releasing then 1 else 0
  }

  /** The counter is the unread work, the refused probes not undone yet, the reply being released, and
      every error reply ever read; no work is counted twice or lost. */
  predicate Inv(s: State, max: nat, sinks: set<SinkId>) {
    && s.undoing <= sinks
    && (forall t :: t in s.running ==> t < s.admitted)
    && s.counter == Unread(s) + |s.undoing| + Held(s) + s.readErr
    && s.admitted == Unread(s) + s.readOk + s.readErr
    && Unread(s) + Held(s) + s.readErr <= max
  }

  /** So many sinks that the counter could wrap are not considered. */
  predicate Sized(max: nat, sinks: set<SinkId>) {
    max + |sinks| < USIZE
  }

  lemma InitInv(max: nat, sinks: set<SinkId>)
    ensures Inv(INITIAL, max, sinks)
  {}

  lemma SubsetSize(a: set<SinkId>, b: set<SinkId>)
    requires a <= b
    ensures |a| <= |b|
  {
    assert b == a + (b - a);
  }

  /** No wrap-around is possible: the counter stays below 2^64 and is positive whenever it goes down. */
  lemma CounterInRange(s: State, max: nat, sinks: set<SinkId>, step: Step)
    requires Inv(s, max, sinks) && Sized(max, sinks) && Enabled(s, sinks, step)
    ensures s.counter < USIZE
    ensures step.Probe? ==> s.counter + 1 < USIZE
    ensures step.Undo? ==> s.counter > 0
    ensures step.Release? ==> s.counter > 0
  {
    SubsetSize(s.undoing, sinks);
    if step.Probe? {
      SubsetSize(s.undoing + {step.sink}, sinks);
    }
  }

  lemma StepInv(s: State, max: nat, sinks: set<SinkId>, step: Step)
    requires Inv(s, max, sinks) && Sized(max, sinks) && Enabled(s, sinks, step)
    ensures Inv(Apply(s, max, step), max, sinks)
  {
    CounterInRange(s, max, sinks, step);
    if step.Probe? {
      ProbeInv(s, max, sinks, step.sink);
    } else if step.Undo? {
      UndoInv(s, max, sinks, step.sink);
    } else if step.Receive? {
      ReceiveInv(s, max, sinks);
    } else if step.Release? {
      ReleaseInv(s, max, sinks);
    } else {
      TaskInv(s, max, sinks, step);
    }
  }

  lemma ProbeIs(s: State, max: nat, k: SinkId)
    requires s.counter + 1 < USIZE
    ensures Apply(s, max, Probe(k))
         == if s.counter < max
            then s.(counter := s.counter + 1, running := s.running + {s.admitted}, admitted := s.admitted + 1)
            else s.(counter := s.counter + 1, undoing := s.undoing + {k})
  {}

  lemma ProbeInv(s: State, max: nat, sinks: set<SinkId>, k: SinkId)
    requires Inv(s, max, sinks) && s.counter + 1 < USIZE && k in sinks && k !in s.undoing
    ensures Inv(Apply(s, max, Probe(k)), max, sinks)
  {
    hide Replies, Apply;
    assert s.admitted !in s.running;
    ProbeIs(s, max, k);
    var s' := Apply(s, max, Probe(k));
    if s.counter < max {
      assert |s'.running| == |s.running| + 1;
    } else {
      assert |s'.undoing| == |s.undoing| + 1;
    }
  }

  lemma UndoInv(s: State, max: nat, sinks: set<SinkId>, k: SinkId)
    requires Inv(s, max, sinks) && 0 < s.counter < USIZE && k in s.undoing
    ensures Inv(Apply(s, max, Undo(k)), max, sinks)
  {
    assert (s.counter - 1) % USIZE == s.counter - 1;
    assert |s.undoing - {k}| == |s.undoing| - 1;
  }

  lemma TaskInv(s: State, max: nat, sinks: set<SinkId>, step: Step)
    requires Inv(s, max, sinks) && (step.FindPiece? || step.Finish?) && step.task in s.running
    ensures Inv(Apply(s, max, step), max, sinks)
  {
    var s' := Apply(s, max, step);
    assert s'.channel[..|s.channel|] == s.channel;
    assert |s.running - {step.task}| == |s.running| - 1;
  }

  lemma ReceiveInv(s: State, max: nat, sinks: set<SinkId>)
    requires Inv(s, max, sinks) && |s.channel| > 0 && !s.releasing
    ensures Inv(Apply(s, max, Receive), max, sinks)
  {
    RepliesFirst(s.channel);
    hide Replies;
  }

  lemma ReleaseInv(s: State, max: nat, sinks: set<SinkId>)
    requires Inv(s, max, sinks) && s.counter < USIZE && s.releasing
    ensures Inv(Apply(s, max, Release), max, sinks)
  {
    hide Replies;
    assert (s.counter - 1) % USIZE == s.counter - 1;
  }

  /** In every interleaving of any number of sinks with the stream, the accounting holds. */
  lemma {:induction false} RunInv(s: State, max: nat, sinks: set<SinkId>, steps: seq<Step>)
    requires Inv(s, max, sinks) && Sized(max, sinks) && Possible(s, max, sinks, steps)
    ensures Inv(Run(s, max, steps), max, sinks)
    ensures Run(s, max, steps).readErr >= s.readErr && Run(s, max, steps).admitted >= s.admitted
    decreases |steps|
  {
    hide Inv;
    if |steps| > 0 {
      StepInv(s, max, sinks, steps[0]);
      RunInv(Apply(s, max, steps[0]), max, sinks, steps[1..]);
    }
  }

  // ---------------------------------------------------------------- what follows

  /** From the start, unread admitted work never exceeds the capacity, less the reply being released and
      less one for every error reply read so far. */
  lemma CapacityRespected(max: nat, sinks: set<SinkId>, steps: seq<Step>)
    requires Sized(max, sinks) && Possible(INITIAL, max, sinks, steps)
    ensures var s := Run(INITIAL, max, steps);
      && Unread(s) + Held(s) + s.readErr <= max
      && s.counter == Unread(s) + |s.undoing| + Held(s) + s.readErr
      && s.admitted == Unread(s) + s.readOk + s.readErr
  {
    InitInv(max, sinks);
    RunInv(INITIAL, max, sinks, steps);
  }

  /** A probe is admitted exactly when unread work, pending undos, the reply being released and error
      replies read leave room. */
  lemma ProbeExact(s: State, max: nat, sinks: set<SinkId>, k: SinkId)
    requires Inv(s, max, sinks) && Sized(max, sinks) && Enabled(s, sinks, Probe(k))
    ensures Apply(s, max, Probe(k)).admitted > s.admitted <==> Unread(s) + |s.undoing| + Held(s) + s.readErr < max
  {
    StepInv(s, max, sinks, Probe(k));
  }

  /** Units held only for a moment can refuse a probe although all work has been read: here the only
      reply has been received and its unit not yet given back. */
  lemma RefusedWhileReleasing()
    ensures var steps := [Probe(0), Finish(0, true), Receive];
      var s := Run(INITIAL, 1, steps);
      && Possible(INITIAL, 1, {0, 1}, steps)
      && Unread(s) == 0 && s.undoing == {} && s.readErr == 0
      && Enabled(s, {0, 1}, Probe(1)) && Apply(s, 1, Probe(1)).admitted == s.admitted
  {
    var steps := [Probe(0), Finish(0, true), Receive];
    assert steps[1..] == [Finish(0, true), Receive] && steps[1..][1..] == [Receive] && steps[1..][1..][1..] == [];
    var s1 := State(1, {}, false, {0}, [], 1, 0, 0);
    var s2 := State(1, {}, false, {}, [Reply(0, true)], 1, 0, 0);
    var s3 := State(1, {}, true, {}, [], 1, 1, 0);
    assert Apply(INITIAL, 1, Probe(0)) == s1;
    assert Apply(s1, 1, Finish(0, true)) == s2;
    assert Apply(s2, 1, Receive) == s3;
    assert Run(s2, 1, [Receive]) == s3;
    assert Run(s1, 1, [Finish(0, true), Receive]) == s3;
  }

  /** When nothing is running, waiting, half undone or half released, the capacity is fully available again if and only
      if no reply was an error: each error reply keeps one unit for good. */
  lemma IdleCapacity(s: State, max: nat, sinks: set<SinkId>)
    requires Inv(s, max, sinks) && s.running == {} && s.channel == [] && s.undoing == {} && !s.releasing
    ensures s.counter == 0 <==> s.readErr == 0
    ensures s.counter == s.readErr == s.admitted - s.readOk
  {}

  /** After as many error replies as the capacity, nothing is ever admitted again. */
  lemma {:induction false} Exhausted(s: State, max: nat, sinks: set<SinkId>, steps: seq<Step>)
    requires Inv(s, max, sinks) && Sized(max, sinks) && Possible(s, max, sinks, steps) && s.readErr >= max
    ensures Run(s, max, steps).admitted == s.admitted
    decreases |steps|
  {
    if |steps| > 0 {
      var step := steps[0];
      StepInv(s, max, sinks, step);
      if step.Probe? { ProbeExact(s, max, sinks, step.sink); }
      Exhausted(Apply(s, max, step), max, sinks, steps[1..]);
    }
  }

  /** Such a state is reached by any capacity's worth of failing messages from a single sink. */
  function FailingRun(n: nat): seq<Step> {
    if n == 0 then [] else FailingRun(n - 1) + [Probe(0), Finish(n - 1, false), Receive]
  }

  lemma {:induction false} FailuresExhaust(max: nat, n: nat)
    requires n <= max < USIZE - 1
    ensures Possible(INITIAL, max, {0}, FailingRun(n))
    ensures Run(INITIAL, max, FailingRun(n)) == State(n, {}, false, {}, [], n, 0, n)
  {
    if n > 0 {
      FailuresExhaust(max, n - 1);
      var s := Run(INITIAL, max, FailingRun(n - 1));
      var tail := [Probe(0), Finish(n - 1, false), Receive];
      FailOnce(s, max, n - 1);
      RunAppend(INITIAL, max, {0}, FailingRun(n - 1), tail);
    }
  }

  lemma FailOnce(s: State, max: nat, n: nat)
    requires s == State(n, {}, false, {}, [], n, 0, n) && n < max < USIZE - 1
    ensures Possible(s, max, {0}, [Probe(0), Finish(n, false), Receive])
    ensures Run(s, max, [Probe(0), Finish(n, false), Receive]) == State(n + 1, {}, false, {}, [], n + 1, 0, n + 1)
  {
    var steps := [Probe(0), Finish(n, false), Receive];
    var s1 := Apply(s, max, Probe(0));
    assert s1 == State(n + 1, {}, false, {n}, [], n + 1, 0, n);
    var s2 := Apply(s1, max, Finish(n, false));
    assert s2 == State(n + 1, {}, false, {}, [Reply(n, false)], n + 1, 0, n);
    var s3 := Apply(s2, max, Receive);
    assert s3 == State(n + 1, {}, false, {}, [], n + 1, 0, n + 1);
    assert steps[1..] == [Finish(n, false), Receive] && steps[1..][1..] == [Receive] && steps[1..][1..][1..] == [];
    assert Run(s2, max, [Receive]) == s3;
    assert Run(s1, max, [Finish(n, false), Receive]) == s3;
  }

  lemma {:induction false} RunAppend(s: State, max: nat, sinks: set<SinkId>, a: seq<Step>, b: seq<Step>)
    requires Possible(s, max, sinks, a) && Possible(Run(s, max, a), max, sinks, b)
    ensures Possible(s, max, sinks, a + b) && Run(s, max, a + b) == Run(Run(s, max, a), max, b)
    decreases |a|
  {
    hide Apply, Enabled;
    if |a| == 0 {
      assert a + b == b;
    } else {
      assert (a + b)[1..] == a[1..] + b;
      RunAppend(Apply(s, max, a[0]), max, sinks, a[1..], b);
    }
  }

  // ---------------------------------------------------------------- the counter as an object

  class AtomicUsize {
    var value: nat

    constructor ()
      ensures value == 0
    {
      value := 0;
    }

    method FetchAdd() returns (before: nat)
      modifies this
      ensures before == old(value) && value == (old(value) + 1) % USIZE
    {
      before := value;
      value := (value + 1) % USIZE;
    }

    method FetchSub()
      modifies this
      ensures value == (old(value) - 1) % USIZE
    {
      value := (value - 1) % USIZE;
    }
  }

  class DiskManagerSink {
    const maxCapacity: nat
    const curCapacity: AtomicUsize

    constructor (maxCapacity: nat, curCapacity: AtomicUsize)
      ensures this.maxCapacity == maxCapacity && this.curCapacity == curCapacity
    {
      this.maxCapacity := maxCapacity;
      this.curCapacity := curCapacity;
    }

    /** `try_submit_work`, when no other step comes between its own: a refusal leaves no trace. */
    method TrySubmitWork() returns (ok: bool)
      requires curCapacity.value < USIZE - 1
      modifies curCapacity
      ensures ok <==> old(curCapacity.value) < maxCapacity
      ensures curCapacity.value == old(curCapacity.value) + if ok then 1 else 0
    {
      var before := curCapacity.FetchAdd();
      if before < maxCapacity { return true; }
      curCapacity.FetchSub();
      ok := false;
    }
  }
}
