/** The sending side: packets queued, in flight and acknowledged, and the bytes counted as in flight. */
module UtpWindow {
  import opened Common
  import opened UtpSack

  const MSS := 1400
  const CHUNK_SIZE := 1380
  const U32 := 0x1_0000_0000

  /** `hand` is the packet `send` has taken from the queue and not yet put into the window. */
  datatype Sender = Sender(
    window: seq<Pkt>,
    hand: Option<Pkt>,
    unsent: seq<Pkt>,
    currWindow: nat,
    seqNr: u16,
    lastAcked: u16,
    duplicateAcks: nat)

  /** Header and payload. */
  function PktLen(p: Pkt): nat {
    20 + |p.payload|
  }

  function TotalLen(ps: seq<Pkt>): nat {
    if |ps| == 0 then 0 else TotalLen(ps[..|ps| - 1]) + PktLen(ps[|ps| - 1])
  }

  // ---------------------------------------------------------------- queueing

  /** `chunks`: pieces of at most 1380 bytes. */
  function Chunks(buf: Bytes): (r: seq<Bytes>)
    ensures forall i :: 0 <= i < |r| ==> 0 < |r[i]| <= CHUNK_SIZE
  {
    if |buf| == 0 then []
    else if |buf| <= CHUNK_SIZE then [buf]
    else [buf[..CHUNK_SIZE]] + Chunks(buf[CHUNK_SIZE..])
  }

  function Enqueue(s: Sender, chunk: Bytes): Sender {
    s.(unsent := s.unsent + [Pkt(s.seqNr, chunk)], seqNr := (s.seqNr + 1) % U16)
  }

  function EnqueueAll(s: Sender, chunks: seq<Bytes>): Sender {
    if |chunks| == 0 then s else Enqueue(EnqueueAll(s, chunks[..|chunks| - 1]), chunks[|chunks| - 1])
  }

  // ---------------------------------------------------------------- acknowledgements

  /** `position`: the first packet with the number, from i on. */
  function FirstAt(w: seq<Pkt>, n: u16, i: nat): (r: nat)
    requires i <= |w|
    ensures i <= r <= |w|
    ensures forall k :: i <= k < r ==> w[k].seqNr != n
    ensures r < |w| ==> w[r].seqNr == n
    decreases |w| - i
  {
    if i < |w| && w[i].seqNr != n then FirstAt(w, n, i + 1) else i
  }

  /** The window after its first k packets were removed one by one; the counter is a u32. */
  function Forget(s: Sender, k: nat): Sender
    requires k <= |s.window|
    decreases k
  {
    if k == 0 then s
    else Forget(s.(window := s.window[1..], currWindow := (s.currWindow - PktLen(s.window[0])) % U32), k - 1)
  }

  /** How many packets the last acknowledged number covers. */
  function Covered(s: Sender): (k: nat)
    ensures k <= |s.window|
  {
    var i := FirstAt(s.window, s.lastAcked, 0);
    if i < |s.window| then i + 1 else 0
  }

  /** `advance_send_window`. */
  function Advance(s: Sender): Sender {
    Forget(s, Covered(s))
  }

  /** The first lines of `handle_state_packet`. */
  function NoteAck(s: Sender, n: u16): Sender {
    if n == s.lastAcked then s.(duplicateAcks := s.duplicateAcks + 1) else s.(lastAcked := n, duplicateAcks := 1)
  }

  function NoteAll(s: Sender, ns: seq<u16>): Sender {
    if |ns| == 0 then s else NoteAck(NoteAll(s, ns[..|ns| - 1]), ns[|ns| - 1])
  }

  /** The count of duplicates is the number of equal acknowledgements that came last. */
  lemma {:induction false} DuplicatesCount(s: Sender, ns: seq<u16>, k: nat)
    requires 0 < k <= |ns| && forall i :: |ns| - k <= i < |ns| ==> ns[i] == ns[|ns| - 1]
    requires ns[|ns| - 1] != if k < |ns| then ns[|ns| - k - 1] else s.lastAcked
    ensures NoteAll(s, ns).duplicateAcks == k && NoteAll(s, ns).lastAcked == ns[|ns| - 1]
    decreases k
  {
    var init := ns[..|ns| - 1];
    if k > 1 {
      DuplicatesCount(s, init, k - 1);
    } else if |init| > 0 {
      LastNoted(s, init);
    }
  }

  lemma LastNoted(s: Sender, ns: seq<u16>)
    requires |ns| > 0
    ensures NoteAll(s, ns).lastAcked == ns[|ns| - 1]
  {}

  // ---------------------------------------------------------------- runs

  /** What can happen to the sending side. Receiving, and with it acknowledgements, may happen while a
      packet is in hand. An acknowledgement is noted and the window advanced in two steps, since more may
      arrive in between, while lost packets are sent again. A packet whose sending fails is dropped with
      the error. */
  datatype Event = Write(buf: Bytes) | Take | Sent | SendFailed | Noted(n: u16) | Advanced

  predicate Enabled(s: Sender, e: Event) {
    match e
    case Write(_) => s.hand.None?
    case Take => s.hand.None? && |s.unsent| > 0
    case Sent => s.hand.Some?
    case SendFailed => s.hand.Some?
    case Noted(_) => true
    case Advanced => true
  }

  function Apply(s: Sender, e: Event): Sender
    requires Enabled(s, e)
  {
    match e
    case Write(buf) => EnqueueAll(s, Chunks(buf))
    case Take => s.(hand := Some(s.unsent[0]), unsent := s.unsent[1..])
    case Sent =>
      s.(window := s.window + [s.hand.value], currWindow := (s.currWindow + PktLen(s.hand.value)) % U32, hand := None)
    case SendFailed => s.(hand := None)
    case Noted(n) => NoteAck(s, n)
    case Advanced => Advance(s)
  }

  predicate Possible(s: Sender, es: seq<Event>)
    decreases |es|
  {
    |es| == 0 || (Enabled(s, es[0]) && Possible(Apply(s, es[0]), es[1..]))
  }

  function Run(s: Sender, es: seq<Event>): Sender
    requires Possible(s, es)
    decreases |es|
  {
    if |es| == 0 then s else Run(Apply(s, es[0]), es[1..])
  }

  function Connected(seqNr: u16, lastAcked: u16): Sender {
    Sender([], None, [], 0, seqNr, lastAcked, 0)
  }

  // ---------------------------------------------------------------- the in-flight counter

  lemma {:induction false} TotalSplits(a: seq<Pkt>, b: seq<Pkt>)
    ensures TotalLen(a + b) == TotalLen(a) + TotalLen(b)
  {
    if |b| == 0 {
      assert a + b == a;
    } else {
      TotalSplits(a, b[..|b| - 1]);
      assert (a + b)[..|a + b| - 1] == a + b[..|b| - 1];
    }
  }

  lemma {:induction false} ForgetIs(s: Sender, k: nat)
    requires k <= |s.window|
    ensures Forget(s, k) == s.(window := s.window[k..], currWindow := Forget(s, k).currWindow)
    ensures s.currWindow == TotalLen(s.window) % U32 ==>
      Forget(s, k).currWindow == TotalLen(s.window[k..]) % U32
    decreases k
  {
    if k > 0 {
      var s1 := s.(window := s.window[1..], currWindow := (s.currWindow - PktLen(s.window[0])) % U32);
      ForgetIs(s1, k - 1);
      assert s.window[1..][k - 1..] == s.window[k..];
      FirstLen(s.window);
      hide TotalLen, PktLen;
      ModSubtract(TotalLen(s.window), PktLen(s.window[0]));
    } else {
      assert s.window[0..] == s.window;
    }
  }

  lemma FirstLen(ps: seq<Pkt>)
    requires |ps| > 0
    ensures TotalLen(ps) == PktLen(ps[0]) + TotalLen(ps[1..])
  {
    TotalSplits(ps[..1], ps[1..]);
    assert ps == ps[..1] + ps[1..];
    assert TotalLen(ps[..1]) == PktLen(ps[0]) by { assert ps[..1][..0] == []; }
  }

  lemma ModSubtract(x: int, y: int)
    ensures (x % U32 - y) % U32 == (x - y) % U32
  {}

  lemma ModAdd(x: int, y: int)
    ensures (x % U32 + y) % U32 == (x + y) % U32
  {}

  /** The counter is the number of bytes in the window, as far as 32 bits can tell. */
  predicate Counts(s: Sender) {
    s.currWindow == TotalLen(s.window) % U32
  }

  lemma {:induction false} EnqueueKeeps(s: Sender, chunks: seq<Bytes>)
    ensures var s' := EnqueueAll(s, chunks);
      s'.window == s.window && s'.currWindow == s.currWindow && s'.hand == s.hand
  {
    if |chunks| > 0 { EnqueueKeeps(s, chunks[..|chunks| - 1]); }
  }

  lemma StepCounts(s: Sender, e: Event)
    requires Counts(s) && Enabled(s, e)
    ensures Counts(Apply(s, e))
  {
    match e
    case Write(buf) => EnqueueKeeps(s, Chunks(buf));
    case Take =>
    case Sent =>
      TotalSplits(s.window, [s.hand.value]);
      assert TotalLen([s.hand.value]) == PktLen(s.hand.value) by { assert [s.hand.value][..0] == []; }
      ModAdd(TotalLen(s.window), PktLen(s.hand.value));
    case SendFailed =>
    case Noted(_) =>
    case Advanced => ForgetIs(s, Covered(s));
  }

  /** No packet is longer than the largest the library sends. */
  predicate Small(ps: seq<Pkt>) {
    forall i :: 0 <= i < |ps| ==> PktLen(ps[i]) <= MSS
  }

  function HandList(s: Sender): seq<Pkt> {
    if s.hand.Some? then [s.hand.value] else []
  }

  /** Everything not acknowledged, oldest first. */
  function Outstanding(s: Sender): seq<Pkt> {
    s.window + HandList(s) + s.unsent
  }

  predicate Accounted(s: Sender) {
    Counts(s) && Small(Outstanding(s))
  }

  lemma {:induction false} WriteSmall(s: Sender, chunks: seq<Bytes>)
    requires Small(Outstanding(s)) && forall i :: 0 <= i < |chunks| ==> |chunks[i]| <= CHUNK_SIZE
    ensures Small(Outstanding(EnqueueAll(s, chunks)))
  {
    if |chunks| > 0 {
      WriteSmall(s, chunks[..|chunks| - 1]);
      var s1 := EnqueueAll(s, chunks[..|chunks| - 1]);
      hide EnqueueAll;
      var p := Pkt(s1.seqNr, chunks[|chunks| - 1]);
      assert Outstanding(Enqueue(s1, chunks[|chunks| - 1])) == Outstanding(s1) + [p];
    }
  }

  lemma StepSmall(s: Sender, e: Event)
    requires Small(Outstanding(s)) && Enabled(s, e)
    ensures Small(Outstanding(Apply(s, e)))
  {
    match e
    case Write(buf) => WriteSmall(s, Chunks(buf));
    case SendFailed => SmallParts(s.window, HandList(s), s.unsent);
    case _ => StepOutstanding(s, e);
  }

  lemma SmallParts(a: seq<Pkt>, b: seq<Pkt>, c: seq<Pkt>)
    requires Small(a + b + c)
    ensures Small(a) && Small(a + [] + c)
  {
    var o := a + b + c;
    assert forall i :: 0 <= i < |a| ==> o[i] == a[i];
    assert forall i :: 0 <= i < |c| ==> o[|a| + |b| + i] == c[i];
  }

  /** In every run, with or without failed sends, the counter is the number of bytes in the window exactly
      as long as that number fits 32 bits, as it does for 3067833 packets of the largest size. */
  lemma {:induction false} RunCounts(s: Sender, es: seq<Event>)
    requires Accounted(s) && Possible(s, es)
    ensures var s' := Run(s, es);
      && Accounted(s')
      && (s'.currWindow == TotalLen(s'.window) <==> TotalLen(s'.window) < U32)
      && (MSS * |s'.window| < U32 ==> s'.currWindow == TotalLen(s'.window))
    decreases |es|
  {
    if |es| == 0 {
      CounterExact(s);
    } else {
      StepCounts(s, es[0]);
      StepSmall(s, es[0]);
      hide Counts, Small, Outstanding, Apply, Enabled;
      RunCounts(Apply(s, es[0]), es[1..]);
    }
  }

  lemma CounterExact(s: Sender)
    requires Accounted(s)
    ensures s.currWindow == TotalLen(s.window) <==> TotalLen(s.window) < U32
    ensures MSS * |s.window| < U32 ==> TotalLen(s.window) < U32
  {
    SmallParts(s.window, HandList(s), s.unsent);
    TotalBounded(s.window);
  }

  lemma {:induction false} TotalBounded(ps: seq<Pkt>)
    requires Small(ps)
    ensures TotalLen(ps) <= MSS * |ps|
  {
    if |ps| > 0 { TotalBounded(ps[..|ps| - 1]); }
  }

  /** The counter never underflows: while the window's bytes fit 32 bits, every single removal finds at
      least the length of the packet it takes off. */
  lemma RemovalFits(s: Sender, k: nat)
    requires Accounted(s) && TotalLen(s.window) < U32 && k < |s.window|
    ensures var s' := Forget(s, k);
      s'.window == s.window[k..] && s'.currWindow == TotalLen(s.window[k..]) >= PktLen(s.window[k])
  {
    hide TotalLen, Forget, PktLen, Small, Outstanding, Counts;
    ForgetExact(s, k);
    FirstLen(s.window[k..]);
  }

  lemma ForgetExact(s: Sender, k: nat)
    requires Counts(s) && TotalLen(s.window) < U32 && k <= |s.window|
    ensures Forget(s, k) == s.(window := s.window[k..], currWindow := TotalLen(s.window[k..]))
    ensures s.currWindow == TotalLen(s.window) == TotalLen(s.window[..k]) + TotalLen(s.window[k..])
  {
    hide TotalLen, Forget, PktLen;
    ForgetIs(s, k);
    TotalSplits(s.window[..k], s.window[k..]);
    assert s.window == s.window[..k] + s.window[k..];
    NoWrap(TotalLen(s.window[k..]));
  }

  /** Nor does it overflow: putting a packet into the window adds its length while the sum fits. */
  lemma AdditionFits(s: Sender)
    requires Accounted(s) && s.hand.Some? && TotalLen(s.window) + PktLen(s.hand.value) < U32
    ensures var s' := Apply(s, Sent); s'.currWindow == s.currWindow + PktLen(s.hand.value) == TotalLen(s'.window)
  {
    TotalSplits(s.window, [s.hand.value]);
    FirstLen([s.hand.value]);
    hide PktLen;
    NoWrap(TotalLen(s.window));
    NoWrap(TotalLen(s.window) + PktLen(s.hand.value));
  }

  lemma NoWrap(x: nat)
    requires x < U32
    ensures x % U32 == x
  {}

  // ---------------------------------------------------------------- numbering

  /** Numbers follow each other and end just before `end`. */
  predicate Numbered(ps: seq<Pkt>, end: int) {
    forall i :: 0 <= i < |ps| ==> ps[i].seqNr == (end - |ps| + i) % U16
  }

  /** Outstanding packets are numbered one after the other up to the next number. */
  predicate InSequence(s: Sender) {
    Numbered(Outstanding(s), s.seqNr)
  }

  lemma NumberedTail(ps: seq<Pkt>, end: int, k: nat)
    requires Numbered(ps, end) && k <= |ps|
    ensures Numbered(ps[k..], end)
  {
    forall i | 0 <= i < |ps| - k
      ensures ps[k..][i].seqNr == (end - (|ps| - k) + i) % U16
    {
      assert ps[k..][i] == ps[k + i];
    }
  }

  lemma NumberedPush(ps: seq<Pkt>, end: u16, p: Pkt)
    requires Numbered(ps, end) && p.seqNr == end
    ensures Numbered(ps + [p], (end + 1) % U16)
  {
    forall i | 0 <= i < |ps| + 1
      ensures (ps + [p])[i].seqNr == ((end + 1) % U16 - (|ps| + 1) + i) % U16
    {
      ModShift(end + 1, i - (|ps| + 1));
    }
  }

  lemma ModShift(x: int, y: int)
    ensures (x % U16 + y) % U16 == (x + y) % U16
  {}

  lemma EnqueueInSequence(s: Sender, chunk: Bytes)
    requires InSequence(s)
    ensures InSequence(Enqueue(s, chunk))
    ensures Outstanding(Enqueue(s, chunk)) == Outstanding(s) + [Pkt(s.seqNr, chunk)]
  {
    NumberedPush(Outstanding(s), s.seqNr, Pkt(s.seqNr, chunk));
    assert Outstanding(Enqueue(s, chunk)) == Outstanding(s) + [Pkt(s.seqNr, chunk)];
  }

  lemma ForgetOutstanding(s: Sender, k: nat)
    requires k <= |s.window|
    ensures Outstanding(Forget(s, k)) == Outstanding(s)[k..] && Forget(s, k).seqNr == s.seqNr
  {
    ForgetIs(s, k);
    assert (s.window + HandList(s) + s.unsent)[k..] == s.window[k..] + HandList(s) + s.unsent;
  }

  /** Acknowledgements take a prefix off the outstanding packets; everything but a failed send and a
      write leaves them as they are. */
  lemma StepOutstanding(s: Sender, e: Event)
    requires Enabled(s, e) && !e.Write? && !e.SendFailed?
    ensures Apply(s, e).seqNr == s.seqNr
    ensures var k := if e.Advanced? then Covered(s) else 0;
      k <= |s.window| <= |Outstanding(s)| && Outstanding(Apply(s, e)) == Outstanding(s)[k..]
  {
    assert Outstanding(s)[0..] == Outstanding(s);
    match e
    case Take => assert Outstanding(Apply(s, e)) == Outstanding(s);
    case Sent => assert Outstanding(Apply(s, e)) == Outstanding(s);
    case Noted(n) => assert Outstanding(NoteAck(s, n)) == Outstanding(s);
    case Advanced => ForgetOutstanding(s, Covered(s));
  }

  lemma {:induction false} WriteInSequence(s: Sender, chunks: seq<Bytes>)
    requires InSequence(s)
    ensures InSequence(EnqueueAll(s, chunks))
    ensures PayloadOf(Outstanding(EnqueueAll(s, chunks))) == PayloadOf(Outstanding(s)) + Concat(chunks)
  {
    hide InSequence, Outstanding, Enqueue, PayloadOf;
    if |chunks| > 0 {
      var init := chunks[..|chunks| - 1];
      WriteInSequence(s, init);
      var s1 := EnqueueAll(s, init);
      var last := chunks[|chunks| - 1];
      EnqueueInSequence(s1, last);
      PayloadSplits(Outstanding(s1), [Pkt(s1.seqNr, last)]);
      PayloadOfOne(Pkt(s1.seqNr, last));
      assert PayloadOf(Outstanding(s)) + (Concat(init) + last) == PayloadOf(Outstanding(s)) + Concat(init) + last;
    } else {
      assert PayloadOf(Outstanding(s)) + [] == PayloadOf(Outstanding(s));
    }
  }

  lemma StepInSequence(s: Sender, e: Event)
    requires InSequence(s) && Enabled(s, e) && !e.SendFailed?
    ensures InSequence(Apply(s, e))
  {
    if e.Write? {
      WriteInSequence(s, Chunks(e.buf));
    } else {
      StepOutstanding(s, e);
      var k := if e.Advanced? then Covered(s) else 0;
      hide Apply, Outstanding;
      NumberedTail(Outstanding(s), s.seqNr, k);
    }
  }

  predicate NoFailure(es: seq<Event>) {
    forall i :: 0 <= i < |es| ==> !es[i].SendFailed?
  }

  /** In every run without a failed send, window, packet in hand and queue together stay numbered one
      after the other modulo 2^16, ending just before the next number. */
  lemma {:induction false} RunInSequence(s: Sender, es: seq<Event>)
    requires InSequence(s) && Possible(s, es) && NoFailure(es)
    ensures InSequence(Run(s, es))
    decreases |es|
  {
    hide InSequence, Apply;
    if |es| > 0 {
      StepInSequence(s, es[0]);
      RunInSequence(Apply(s, es[0]), es[1..]);
    }
  }

  lemma NextDiffers(x: int)
    ensures x % U16 != (x + 1) % U16
  {}

  /** A failed send leaves a hole in the numbering unless nothing is in flight before it. */
  lemma FailureLeavesHole(s: Sender)
    requires Numbered(Outstanding(s), s.seqNr) && s.hand.Some?
    ensures var s' := Apply(s, SendFailed);
      Numbered(Outstanding(s'), s'.seqNr) <==> s.window == []
  {
    var s' := Apply(s, SendFailed);
    var (o, o') := (Outstanding(s), Outstanding(s'));
    var k := |s.window|;
    assert |o| == |o'| + 1;
    forall i | 0 <= i < |o'|
      ensures i < k ==> o'[i] == o[i]
      ensures i >= k ==> o'[i] == o[i + 1]
    {}
    if k > 0 {
      assert o'[0].seqNr == (s.seqNr - |o|) % U16;
      NextDiffers(s.seqNr - |o|);
      assert o'[0].seqNr != (s'.seqNr - |o'| + 0) % U16;
    } else {
      forall i | 0 <= i < |o'|
        ensures o'[i].seqNr == (s'.seqNr - |o'| + i) % U16
      {
        assert o[i + 1].seqNr == (s.seqNr - |o| + (i + 1)) % U16;
      }
    }
  }

  /** While at most 65536 packets are outstanding, an acknowledgement for one in flight removes exactly
      that packet and the ones sent before it, and the counter goes down by exactly their bytes. */
  lemma AckRemovesThrough(s: Sender, n: u16, k: nat)
    requires InSequence(s) && Accounted(s) && |Outstanding(s)| <= U16
    requires k < |s.window| && s.window[k].seqNr == n
    ensures var s' := Advance(NoteAck(s, n));
      && s'.window == s.window[k + 1..] && s'.hand == s.hand && s'.unsent == s.unsent
      && s'.lastAcked == n
      && s.currWindow == TotalLen(s.window)
      && s'.currWindow == s.currWindow - TotalLen(s.window[..k + 1])
  {
    assert |s.window| <= |Outstanding(s)|;
    var s1 := NoteAck(s, n);
    assert Counts(s1);
    hide TotalLen, Forget, InSequence, Small, Outstanding, Advance, Counts, NoteAck;
    AckedIs(s, n, k);
    CounterExact(s);
    ForgetExact(s1, k + 1);
  }

  lemma AckedIs(s: Sender, n: u16, k: nat)
    requires InSequence(s) && |Outstanding(s)| <= U16 && k < |s.window| && s.window[k].seqNr == n
    ensures Advance(NoteAck(s, n)) == Forget(NoteAck(s, n), k + 1)
  {
    var i := FirstAt(s.window, n, 0);
    var o := Outstanding(s);
    assert o[i] == s.window[i] && o[k] == s.window[k];
    hide Forget, Outstanding;
    DistinctNumbers(o, s.seqNr, i, k);
  }

  lemma DistinctNumbers(ps: seq<Pkt>, end: int, i: nat, j: nat)
    requires Numbered(ps, end) && |ps| <= U16 && i < |ps| && j < |ps| && ps[i].seqNr == ps[j].seqNr
    ensures i == j
  {}

  /** An acknowledgement for anything else changes neither window nor counter. */
  lemma StrayAck(s: Sender, n: u16)
    requires !Buffered(s.window, n)
    ensures var s' := Advance(NoteAck(s, n)); s'.window == s.window && s'.currWindow == s.currWindow
  {
    var i := FirstAt(s.window, n, 0);
    ForgetIs(NoteAck(s, n), 0);
  }

  // ---------------------------------------------------------------- nothing is lost or reordered

  function Concat(chunks: seq<Bytes>): Bytes {
    if |chunks| == 0 then [] else Concat(chunks[..|chunks| - 1]) + chunks[|chunks| - 1]
  }

  function PayloadOf(ps: seq<Pkt>): Bytes {
    if |ps| == 0 then [] else PayloadOf(ps[..|ps| - 1]) + ps[|ps| - 1].payload
  }

  lemma NoPayload()
    ensures PayloadOf([]) == []
  {}

  lemma PayloadOfOne(p: Pkt)
    ensures PayloadOf([p]) == p.payload
  {
    assert [p][..0] == [];
  }

  lemma {:induction false} PayloadSplits(a: seq<Pkt>, b: seq<Pkt>)
    ensures PayloadOf(a + b) == PayloadOf(a) + PayloadOf(b)
  {
    if |b| == 0 {
      assert a + b == a;
    } else {
      PayloadSplits(a, b[..|b| - 1]);
      assert (a + b)[..|a + b| - 1] == a + b[..|b| - 1];
    }
  }

  lemma {:induction false} ConcatFirst(first: Bytes, rest: seq<Bytes>)
    ensures Concat([first] + rest) == first + Concat(rest)
  {
    if |rest| == 0 {
      assert ([first] + rest)[..0] == [];
    } else {
      ConcatFirst(first, rest[..|rest| - 1]);
      assert ([first] + rest)[..|rest|] == [first] + rest[..|rest| - 1];
    }
  }

  /** Splitting into chunks loses nothing. */
  lemma {:induction false} ChunksJoin(buf: Bytes)
    ensures Concat(Chunks(buf)) == buf
  {
    if |buf| > CHUNK_SIZE {
      ChunksJoin(buf[CHUNK_SIZE..]);
      ConcatFirst(buf[..CHUNK_SIZE], Chunks(buf[CHUNK_SIZE..]));
    } else if |buf| > 0 {
      assert [buf][..0] == [];
    }
  }

  /** Every packet but the last is full: packet i carries the bytes from 1380 * i on. */
  lemma {:induction false} ChunksFull(buf: Bytes, i: nat)
    requires i * CHUNK_SIZE < |buf|
    ensures i < |Chunks(buf)| && Chunks(buf)[i] == Piece(buf, i * CHUNK_SIZE)
    ensures (|Chunks(buf)| - 1) * CHUNK_SIZE < |buf| <= |Chunks(buf)| * CHUNK_SIZE
  {
    if |buf| > CHUNK_SIZE {
      var rest := buf[CHUNK_SIZE..];
      assert Chunks(buf) == [buf[..CHUNK_SIZE]] + Chunks(rest);
      hide Chunks, Piece;
      ChunksFull(rest, if i == 0 then 0 else i - 1);
      PieceShifts(buf, i * CHUNK_SIZE);
    }
  }

  /** At most 1380 bytes from a position on. */
  function Piece(buf: Bytes, from: nat): Bytes
    requires from <= |buf|
  {
    buf[from..if from + CHUNK_SIZE <= |buf| then from + CHUNK_SIZE else |buf|]
  }

  lemma PieceShifts(buf: Bytes, from: nat)
    requires CHUNK_SIZE < |buf| && from <= |buf|
    ensures from == 0 ==> Piece(buf, 0) == buf[..CHUNK_SIZE]
    ensures from >= CHUNK_SIZE ==> Piece(buf, from) == Piece(buf[CHUNK_SIZE..], from - CHUNK_SIZE)
  {}

  /** Everything the user wrote during a run. */
  function Written(es: seq<Event>): Bytes {
    if |es| == 0 then [] else (if es[0].Write? then es[0].buf else []) + Written(es[1..])
  }

  /** The packets an event removes from the window. */
  function Freed(s: Sender, e: Event): seq<Pkt> {
    s.window[..if e.Advanced? then Covered(s) else 0]
  }

  /** The packets acknowledged during a run, in the order they left the window. */
  function Released(s: Sender, es: seq<Event>): seq<Pkt>
    requires Possible(s, es)
    decreases |es|
  {
    if |es| == 0 then [] else Freed(s, es[0]) + Released(Apply(s, es[0]), es[1..])
  }

  /** In every run without a failed send, what was acknowledged followed by what is outstanding carries
      exactly the bytes written, in order: nothing is lost, repeated or reordered on the way. */
  lemma {:induction false} Conservation(s: Sender, es: seq<Event>)
    requires InSequence(s) && Possible(s, es) && NoFailure(es)
    ensures PayloadOf(Released(s, es)) + PayloadOf(Outstanding(Run(s, es)))
         == PayloadOf(Outstanding(s)) + Written(es)
    decreases |es|
  {
    hide InSequence, Apply, Outstanding, PayloadOf, Freed, Enabled;
    if |es| == 0 {
      NoPayload();
    } else {
      StepInSequence(s, es[0]);
      var s1 := Apply(s, es[0]);
      Conservation(s1, es[1..]);
      StepConserves(s, es[0]);
      PayloadSplits(Freed(s, es[0]), Released(s1, es[1..]));
      var w := if es[0].Write? then es[0].buf else [];
      Regroup(PayloadOf(Freed(s, es[0])), PayloadOf(Released(s1, es[1..])), PayloadOf(Outstanding(Run(s1, es[1..]))),
              PayloadOf(Outstanding(s1)), Written(es[1..]), PayloadOf(Outstanding(s)), w);
    }
  }

  lemma Regroup(a: Bytes, b: Bytes, c: Bytes, d: Bytes, e: Bytes, f: Bytes, g: Bytes)
    requires b + c == d + e && a + d == f + g
    ensures (a + b) + c == f + (g + e)
  {
    assert (a + b) + c == a + (b + c);
    assert a + (d + e) == (a + d) + e;
    assert (f + g) + e == f + (g + e);
  }

  lemma StepConserves(s: Sender, e: Event)
    requires InSequence(s) && Enabled(s, e) && !e.SendFailed?
    ensures PayloadOf(Freed(s, e)) + PayloadOf(Outstanding(Apply(s, e)))
         == PayloadOf(Outstanding(s)) + if e.Write? then e.buf else []
  {
    if e.Write? {
      WriteInSequence(s, Chunks(e.buf));
      ChunksJoin(e.buf);
      hide InSequence, Outstanding, EnqueueAll, Chunks, PayloadOf;
      assert Freed(s, e) == [];
      NoPayload();
      assert [] + PayloadOf(Outstanding(Apply(s, e))) == PayloadOf(Outstanding(Apply(s, e)));
    } else {
      hide InSequence, Apply, Outstanding, PayloadOf, Freed;
      FreedIsPrefix(s, e);
      PayloadSplits(Freed(s, e), Outstanding(Apply(s, e)));
      assert PayloadOf(Outstanding(s)) + [] == PayloadOf(Outstanding(s));
    }
  }

  lemma FreedIsPrefix(s: Sender, e: Event)
    requires Enabled(s, e) && !e.SendFailed? && !e.Write?
    ensures Freed(s, e) + Outstanding(Apply(s, e)) == Outstanding(s)
  {
    StepOutstanding(s, e);
    hide Apply, Covered;
    var k := |Freed(s, e)|;
    assert Outstanding(s)[..k] == Freed(s, e);
    assert Outstanding(s) == Outstanding(s)[..k] + Outstanding(s)[k..];
  }

  /** So in every run of a new connection: the counter is exact while 32 bits hold it, and, without a failed
      send, numbers follow each other and acknowledged and outstanding packets carry what was written. */
  lemma ConnectionRun(seqNr: u16, lastAcked: u16, es: seq<Event>)
    requires Possible(Connected(seqNr, lastAcked), es)
    ensures var (c, s) := (Connected(seqNr, lastAcked), Run(Connected(seqNr, lastAcked), es));
      && Accounted(s)
      && (s.currWindow == TotalLen(s.window) <==> TotalLen(s.window) < U32)
      && (MSS * |s.window| < U32 ==> s.currWindow == TotalLen(s.window))
      && (NoFailure(es) ==> InSequence(s) && PayloadOf(Released(c, es)) + PayloadOf(Outstanding(s)) == Written(es))
  {
    var c := Connected(seqNr, lastAcked);
    assert Outstanding(c) == [] && InSequence(c) && Accounted(c);
    NoPayload();
    hide Connected, Outstanding, InSequence, Counts, Small, PayloadOf, Released, Written;
    RunCounts(c, es);
    if NoFailure(es) {
      RunInSequence(c, es);
      Conservation(c, es);
      assert [] + Written(es) == Written(es);
    }
  }

  // ---------------------------------------------------------------- the sending side as an object

  /** A state packet that arrives: the number it acknowledges, and the ones that arrive while the packets it
      shows to be lost are sent again. */
  datatype Ack = Ack(n: u16, during: seq<Ack>)

  /** `handle_state_packet` as far as it concerns the window. */
  function HandleAck(s: Sender, a: Ack): (s': Sender)
    ensures s'.hand == s.hand && s'.unsent == s.unsent
    decreases a
  {
    var s1 := HandleAcks(NoteAck(s, a.n), a.during);
    ForgetIs(s1, Covered(s1));
    Advance(s1)
  }

  function HandleAcks(s: Sender, acks: seq<Ack>): (s': Sender)
    ensures s'.hand == s.hand && s'.unsent == s.unsent
    decreases acks
  {
    if |acks| == 0 then s else HandleAck(HandleAcks(s, acks[..|acks| - 1]), acks[|acks| - 1])
  }

  /** The bytes `handle_state_packet` reports to congestion control as newly acknowledged. */
  function NewlyAcked(s: Sender, n: u16): nat {
    TotalLen(s.window[..Covered(NoteAck(s, n))])
  }

  /** What the network does while packet i of a `send` waits: acknowledgements that arrive, and whether
      the datagram can be sent. */
  datatype Network = Network(acks: nat -> seq<Ack>, ok: nat -> bool)

  /** `send`. */
  function SendAll(s: Sender, net: Network, i: nat): (r: (Sender, bool))
    requires s.hand.None?
    decreases |s.unsent|
  {
    if |s.unsent| == 0 then (s, true)
    else
      var s1 := HandleAcks(Apply(s, Take), net.acks(i));
      if !net.ok(i) then (Apply(s1, SendFailed), false) else SendAll(Apply(s1, Sent), net, i + 1)
  }

  /** One round of `send`, spelled out. */
  lemma SendStep(s: Sender, net: Network, i: nat)
    requires s.hand.None? && |s.unsent| > 0
    ensures var p := s.unsent[0];
      var s1 := HandleAcks(s.(hand := Some(p), unsent := s.unsent[1..]), net.acks(i));
      SendAll(s, net, i)
      == if !net.ok(i) then (s1.(hand := None), false)
         else SendAll(s1.(window := s1.window + [p], currWindow := (s1.currWindow + PktLen(p)) % U32, hand := None), net, i + 1)
  {
    hide HandleAcks;
  }

  datatype SendResult = Accepted(len: nat) | Failed | ConnectionClosed

  /** `send_to`. */
  function SendTo(s: Sender, closed: bool, buf: Bytes, net: Network): (r: (Sender, SendResult))
    requires s.hand.None?
  {
    if closed then (s, ConnectionClosed)
    else
      EnqueueKeeps(s, Chunks(buf));
      var (s', ok) := SendAll(EnqueueAll(s, Chunks(buf)), net, 0);
      (s', if ok then Accepted(|buf|) else Failed)
  }

  lemma {:induction false} RunAppend(s: Sender, a: seq<Event>, b: seq<Event>)
    requires Possible(s, a) && Possible(Run(s, a), b)
    ensures Possible(s, a + b) && Run(s, a + b) == Run(Run(s, a), b)
    decreases |a|
  {
    hide Apply, Enabled;
    if |a| == 0 {
      assert a + b == b;
    } else {
      assert (a + b)[1..] == a[1..] + b;
      RunAppend(Apply(s, a[0]), a[1..], b);
    }
  }

  lemma RunOne(s: Sender, e: Event)
    requires Enabled(s, e)
    ensures Possible(s, [e]) && Run(s, [e]) == Apply(s, e)
  {
    assert Possible(Apply(s, e), [e][1..]);
  }

  /** The events leave from s for s' without any write, and without a failure iff ok. */
  predicate Leads(s: Sender, es: seq<Event>, s': Sender, ok: bool) {
    && Possible(s, es) && Run(s, es) == s'
    && (NoFailure(es) <==> ok)
    && forall i :: 0 <= i < |es| ==> !es[i].Write?
  }

  lemma LeadsOn(s: Sender, a: seq<Event>, s': Sender, b: seq<Event>, s'': Sender, ok: bool)
    requires Leads(s, a, s', true) && Leads(s', b, s'', ok)
    ensures Leads(s, a + b, s'', ok)
  {
    RunAppend(s, a, b);
    hide Possible, Run;
    if !ok {
      var i :| 0 <= i < |b| && b[i].SendFailed?;
      assert (a + b)[|a| + i].SendFailed?;
    }
  }

  lemma LeadsOne(s: Sender, e: Event)
    requires Enabled(s, e) && !e.Write?
    ensures Leads(s, [e], Apply(s, e), !e.SendFailed?)
  {
    RunOne(s, e);
    assert [e][0] == e;
  }

  /** Handling an acknowledgement, with everything that arrives during its resends, is a run of the steps
      above. */
  lemma {:induction false} AckIsRun(s: Sender, a: Ack) returns (es: seq<Event>)
    ensures Leads(s, es, HandleAck(s, a), true)
    decreases a
  {
    var s1 := NoteAck(s, a.n);
    var s2 := HandleAcks(s1, a.during);
    LeadsOne(s, Noted(a.n));
    LeadsOne(s2, Advanced);
    assert HandleAck(s, a) == Apply(s2, Advanced);
    hide Leads, Apply, HandleAck;
    var during := AcksAreRun(s1, a.during);
    LeadsOn(s, [Noted(a.n)], s1, during, s2, true);
    LeadsOn(s, [Noted(a.n)] + during, s2, [Advanced], HandleAck(s, a), true);
    es := [Noted(a.n)] + during + [Advanced];
  }

  lemma {:induction false} AcksAreRun(s: Sender, acks: seq<Ack>) returns (es: seq<Event>)
    ensures Leads(s, es, HandleAcks(s, acks), true)
    decreases acks
  {
    if |acks| == 0 {
      es := [];
    } else {
      hide Leads, HandleAck;
      var init := AcksAreRun(s, acks[..|acks| - 1]);
      var s1 := HandleAcks(s, acks[..|acks| - 1]);
      var last := AckIsRun(s1, acks[|acks| - 1]);
      LeadsOn(s, init, s1, last, HandleAcks(s, acks), true);
      es := init + last;
    }
  }

  /** `send` is a run of the steps above, without a failed send exactly when it reports success. */
  lemma {:induction false} SendIsRun(s: Sender, net: Network, i: nat) returns (es: seq<Event>)
    requires s.hand.None?
    ensures Leads(s, es, SendAll(s, net, i).0, SendAll(s, net, i).1)
    ensures SendAll(s, net, i).0.hand.None?
    ensures SendAll(s, net, i).1 ==> SendAll(s, net, i).0.unsent == []
    decreases |s.unsent|
  {
    if |s.unsent| == 0 {
      es := [];
    } else {
      var t := Apply(s, Take);
      var s1 := HandleAcks(t, net.acks(i));
      LeadsOne(s, Take);
      var acks := AcksAreRun(t, net.acks(i));
      var e := if net.ok(i) then Sent else SendFailed;
      var s2 := Apply(s1, e);
      LeadsOne(s1, e);
      assert s2.hand.None? && s2.unsent == s.unsent[1..];
      hide Leads, Apply, HandleAcks;
      LeadsOn(s, [Take], t, acks, s1, true);
      LeadsOn(s, [Take] + acks, s1, [e], s2, net.ok(i));
      es := [Take] + acks + [e];
      if net.ok(i) {
        var rest := SendIsRun(s2, net, i + 1);
        LeadsOn(s, es, s2, rest, SendAll(s, net, i).0, SendAll(s, net, i).1);
        es := es + rest;
      }
    }
  }

  lemma {:induction false} WrittenNothing(es: seq<Event>)
    requires forall i :: 0 <= i < |es| ==> !es[i].Write?
    ensures Written(es) == []
  {
    if |es| > 0 { WrittenNothing(es[1..]); }
  }

  /** On a closed socket `send_to` changes nothing. Otherwise it is a run of the steps above. After one
      that reports success, and with it the whole length, nothing is left unsent, the packets in flight
      are numbered up to the next number, and released and in-flight packets carry what was outstanding
      before followed by the new buffer. After one that fails, the counter is still right. */
  lemma SendToAccounts(s: Sender, closed: bool, buf: Bytes, net: Network) returns (es: seq<Event>)
    requires InSequence(s) && Accounted(s) && s.hand.None?
    ensures var (s', result) := SendTo(s, closed, buf, net);
      && Possible(s, es) && Run(s, es) == s'
      && Accounted(s') && s'.hand.None?
      && (result.ConnectionClosed? <==> closed) && (closed ==> s' == s)
      && (result.Accepted? ==> result.len == |buf| && InSequence(s') && s'.unsent == [] && Outstanding(s') == s'.window)
      && (result.Accepted? ==> PayloadOf(Released(s, es)) + PayloadOf(s'.window) == PayloadOf(Outstanding(s)) + buf)
  {
    if closed {
      es := [];
    } else {
      es := SendAccounts(s, buf, net);
    }
  }

  lemma SendAccounts(s: Sender, buf: Bytes, net: Network) returns (es: seq<Event>)
    requires InSequence(s) && Accounted(s) && s.hand.None?
    ensures EnqueueAll(s, Chunks(buf)).hand.None?
    ensures var (s', ok) := SendAll(EnqueueAll(s, Chunks(buf)), net, 0);
      && Possible(s, es) && Run(s, es) == s'
      && Accounted(s') && s'.hand.None?
      && (ok ==> InSequence(s') && s'.unsent == [] && Outstanding(s') == s'.window)
      && (ok ==> PayloadOf(Released(s, es)) + PayloadOf(s'.window) == PayloadOf(Outstanding(s)) + buf)
  {
    var s1 := Apply(s, Write(buf));
    EnqueueKeeps(s, Chunks(buf));
    var sends := SendIsRun(s1, net, 0);
    RunOne(s, Write(buf));
    RunAppend(s, [Write(buf)], sends);
    es := [Write(buf)] + sends;
    assert s1 == EnqueueAll(s, Chunks(buf));
    var (s', ok) := SendAll(s1, net, 0);
    hide Apply, Possible, Run, SendAll, EnqueueAll, Chunks, InSequence, Counts, Small, PayloadOf, Released, Written;
    RunCounts(s, es);
    WrittenNothing(sends);
    WrittenFirst(buf, sends);
    if ok {
      RunInSequence(s, es);
      Conservation(s, es);
      assert Outstanding(s') == s'.window;
      assert buf + [] == buf;
    }
  }

  lemma WrittenFirst(buf: Bytes, es: seq<Event>)
    ensures Written([Write(buf)] + es) == buf + Written(es)
  {
    assert ([Write(buf)] + es)[1..] == es;
  }

  class UtpSender {
    var sendWindow: seq<Pkt>
    var unsentQueue: seq<Pkt>
    var currWindow: nat
    var seqNr: u16
    var lastAcked: u16
    var duplicateAckCount: nat
    var closed: bool

    /** The sending side while `hand` is being sent. */
    ghost function View(hand: Option<Pkt>): Sender
      reads this
    {
      Sender(sendWindow, hand, unsentQueue, currWindow, seqNr, lastAcked, duplicateAckCount)
    }

    constructor (seqNr: u16, lastAcked: u16)
      ensures View(None) == Connected(seqNr, lastAcked) && !closed
    {
      sendWindow, unsentQueue, currWindow := [], [], 0;
      this.seqNr, this.lastAcked, duplicateAckCount, closed := seqNr, lastAcked, 0, false;
    }

    /** `advance_send_window`. */
    method AdvanceSendWindow(ghost hand: Option<Pkt>)
      modifies this`sendWindow, this`currWindow
      ensures View(hand) == Advance(old(View(hand)))
    {
      var position := 0;
      while position < |sendWindow| && sendWindow[position].seqNr != lastAcked
        invariant 0 <= position <= |sendWindow|
        invariant FirstAt(sendWindow, lastAcked, position) == FirstAt(sendWindow, lastAcked, 0)
      {
        position := position + 1;
      }
      if position < |sendWindow| {
        for k := 0 to position + 1
          invariant k <= position + 1 && position + 1 - k <= |sendWindow|
          invariant Forget(View(hand), position + 1 - k) == Forget(old(View(hand)), position + 1)
        {
          currWindow := (currWindow - PktLen(sendWindow[0])) % U32;
          sendWindow := sendWindow[1..];
        }
      }
    }

    /** The first half of `handle_state_packet`: the acknowledgement is noted and its bytes are counted. */
    method NoteStatePacket(n: u16, ghost hand: Option<Pkt>) returns (newlyAcked: nat)
      modifies this
      ensures View(hand) == NoteAck(old(View(hand)), n)
      ensures newlyAcked == NewlyAcked(old(View(hand)), n)
    {
      if n == lastAcked {
        duplicateAckCount := duplicateAckCount + 1;
      } else {
        lastAcked := n;
        duplicateAckCount := 1;
      }
      newlyAcked := 0;
      var index := FirstAt(sendWindow, n, 0);
      assert sendWindow[..0] == [];
      if index < |sendWindow| {
        for k := 0 to index + 1
          invariant newlyAcked == TotalLen(sendWindow[..k])
        {
          assert sendWindow[..k + 1][..k] == sendWindow[..k];
          newlyAcked := newlyAcked + PktLen(sendWindow[k]);
        }
      }
    }

    /** `handle_state_packet` as far as it concerns the window. */
    method HandleStatePacket(a: Ack, ghost hand: Option<Pkt>) returns (newlyAcked: nat)
      modifies this
      ensures View(hand) == HandleAck(old(View(hand)), a)
      ensures newlyAcked == NewlyAcked(old(View(hand)), a.n)
      decreases a
    {
      newlyAcked := NoteStatePacket(a.n, hand);
      hide Advance, NoteAck, NewlyAcked;
      ReceiveAcks(a.during, hand);
      AdvanceSendWindow(hand);
    }

    /** Acknowledgements that arrive while a packet waits to be sent. */
    method ReceiveAcks(acks: seq<Ack>, ghost hand: Option<Pkt>)
      modifies this
      ensures View(hand) == HandleAcks(old(View(hand)), acks)
      decreases acks
    {
      assert acks[..0] == [];
      for k := 0 to |acks|
        invariant View(hand) == HandleAcks(old(View(hand)), acks[..k])
      {
        hide HandleAck;
        assert acks[..k + 1][..k] == acks[..k];
        var newlyAcked := HandleStatePacket(acks[k], hand);
      }
      assert acks[..|acks|] == acks;
    }

    /** One round of `send`. */
    method SendFirst(net: Network, i: nat) returns (ok: bool)
      requires |unsentQueue| > 0
      modifies this
      ensures ok == net.ok(i) && unsentQueue == old(unsentQueue)[1..]
      ensures var (s, p) := (old(View(None)), old(unsentQueue)[0]);
        var s1 := HandleAcks(s.(hand := Some(p), unsent := s.unsent[1..]), net.acks(i));
        View(None)
        == if !ok then s1.(hand := None)
           else s1.(window := s1.window + [p], currWindow := (s1.currWindow + PktLen(p)) % U32, hand := None)
    {
      hide HandleAcks;
      var packet := unsentQueue[0];
      unsentQueue := unsentQueue[1..];
      ReceiveAcks(net.acks(i), Some(packet));
      ok := net.ok(i);
      if ok {
        currWindow := (currWindow + PktLen(packet)) % U32;
        sendWindow := sendWindow + [packet];
      }
    }

    /** `send`. */
    method Send(net: Network) returns (ok: bool)
      modifies this
      ensures (View(None), ok) == SendAll(old(View(None)), net, 0)
    {
      hide HandleAcks;
      var i := 0;
      while |unsentQueue| > 0
        invariant SendAll(View(None), net, i) == SendAll(old(View(None)), net, 0)
        decreases |unsentQueue|
      {
        SendStep(View(None), net, i);
        hide SendAll;
        ok := SendFirst(net, i);
        if !ok { return; }
        i := i + 1;
      }
      ok := true;
    }

    /** `send_to`. */
    method WriteBuffer(buf: Bytes, net: Network) returns (result: SendResult)
      modifies this
      ensures (View(None), result) == SendTo(old(View(None)), old(closed), buf, net)
    {
      if closed { return ConnectionClosed; }
      var chunks := Chunks(buf);
      assert chunks[..0] == [];
      for k := 0 to |chunks|
        invariant View(None) == EnqueueAll(old(View(None)), chunks[..k])
      {
        assert chunks[..k + 1][..k] == chunks[..k];
        unsentQueue := unsentQueue + [Pkt(seqNr, chunks[k])];
        seqNr := (seqNr + 1) % U16;
      }
      assert chunks[..|chunks|] == chunks;
      var ok := Send(net);
      result := if ok then Accepted(|buf|) else Failed;
    }
  }
}
