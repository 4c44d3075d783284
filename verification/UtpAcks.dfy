/** Acknowledgements that arrive while the packets another one shows to be lost are sent again. */
module UtpAcks {
  import opened Common
  import opened UtpSack
  import opened UtpWindow

  const MIN_CWND := 2

  /** The most packets a selective acknowledgement, 252 bytes long, speaks of. */
  const MAX_MASK_BITS := 2016

  // ---------------------------------------------------------------- what leaves the window

  /** The numbers of the acknowledgements that no other interrupts, in the order they arrive. */
  function Leaves(a: Ack): (ns: seq<u16>)
    ensures |ns| > 0
    decreases a
  {
    if |a.during| == 0 then [a.n] else AllLeaves(a.during)
  }

  function AllLeaves(acks: seq<Ack>): (ns: seq<u16>)
    ensures |acks| > 0 ==> |ns| > 0
    decreases acks
  {
    if |acks| == 0 then [] else AllLeaves(acks[..|acks| - 1]) + Leaves(acks[|acks| - 1])
  }

  /** The first m packets are those up to the last one whose number is among the given. */
  predicate Through(w: seq<Pkt>, ns: seq<u16>, m: nat) {
    && m <= |w|
    && (forall i :: 0 <= i < |w| && w[i].seqNr in ns ==> i < m)
    && (m > 0 ==> w[m - 1].seqNr in ns)
  }

  lemma ThroughBoth(w: seq<Pkt>, a: seq<u16>, i: nat, b: seq<u16>, j: nat)
    requires Through(w, a, i) && Through(w[i..], b, j)
    ensures Through(w, a + b, i + j)
  {
    forall k | 0 <= k < |w| && w[k].seqNr in a + b ensures k < i + j {
      if k >= i { assert w[i..][k - i] == w[k]; }
    }
    if j > 0 { assert w[i..][j - 1] == w[i + j - 1]; }
  }

  /** What an acknowledgement leaves behind once everything that arrived during its resends is handled. */
  predicate Removes(s: Sender, s': Sender, ns: seq<u16>, m: nat) {
    && Through(s.window, ns, m) && s'.window == s.window[m..]
    && s'.hand == s.hand && s'.unsent == s.unsent && s'.seqNr == s.seqNr
    && (|ns| > 0 ==> s'.lastAcked == ns[|ns| - 1])
  }

  predicate Numberable(s: Sender) {
    InSequence(s) && |Outstanding(s)| <= U16
  }

  lemma RemovesNumberable(s: Sender, s': Sender, ns: seq<u16>, m: nat)
    requires Numberable(s) && Removes(s, s', ns, m)
    ensures Numberable(s')
  {
    assert Outstanding(s') == Outstanding(s)[m..];
    NumberedTail(Outstanding(s), s.seqNr, m);
  }

  lemma CoveredThrough(s: Sender)
    requires Numberable(s)
    ensures Through(s.window, [s.lastAcked], Covered(s))
  {
    var o := Outstanding(s);
    forall i, j | 0 <= i < |s.window| && 0 <= j < |s.window| && s.window[i].seqNr == s.window[j].seqNr ensures i == j {
      assert o[i] == s.window[i] && o[j] == s.window[j];
      DistinctNumbers(o, s.seqNr, i, j);
    }
  }

  /** However acknowledgements interrupt each other, what leaves the window is what the uninterrupted ones
      cover. */
  lemma {:induction false} AckRemoves(s: Sender, a: Ack) returns (m: nat)
    requires Numberable(s)
    ensures Removes(s, HandleAck(s, a), Leaves(a), m)
    decreases a
  {
    var s1 := NoteAck(s, a.n);
    assert Outstanding(s1) == Outstanding(s);
    var s2 := HandleAcks(s1, a.during);
    assert HandleAck(s, a) == Forget(s2, Covered(s2));
    if |a.during| == 0 {
      m := Covered(s1);
      CoveredThrough(s1);
      ForgetIs(s1, m);
    } else {
      m := AcksRemove(s1, a.during);
      assert Leaves(a) == AllLeaves(a.during);
      hide HandleAcks, HandleAck, AllLeaves, Leaves, Numberable;
      NothingLeft(s2, s.window, AllLeaves(a.during), m);
    }
  }

  lemma NothingLeft(s: Sender, w: seq<Pkt>, ns: seq<u16>, m: nat)
    requires Through(w, ns, m) && s.window == w[m..] && |ns| > 0 && s.lastAcked == ns[|ns| - 1]
    ensures Covered(s) == 0
  {
    assert forall i :: 0 <= i < |s.window| ==> s.window[i] == w[m + i];
  }

  lemma {:induction false} AcksRemove(s: Sender, acks: seq<Ack>) returns (m: nat)
    requires Numberable(s)
    ensures Removes(s, HandleAcks(s, acks), AllLeaves(acks), m)
    decreases acks
  {
    if |acks| == 0 {
      m := 0;
    } else {
      var (init, last) := (acks[..|acks| - 1], acks[|acks| - 1]);
      var s1 := HandleAcks(s, init);
      hide Numberable, Removes, HandleAck, Leaves;
      var i := AcksRemove(s, init);
      RemovesNumberable(s, s1, AllLeaves(init), i);
      var j := AckRemoves(s1, last);
      RemovesBoth(s, s1, HandleAck(s1, last), AllLeaves(init), i, Leaves(last), j);
      m := i + j;
    }
  }

  lemma RemovesBoth(s: Sender, s1: Sender, s2: Sender, a: seq<u16>, i: nat, b: seq<u16>, j: nat)
    requires Removes(s, s1, a, i) && Removes(s1, s2, b, j) && |b| > 0
    ensures Removes(s, s2, a + b, i + j)
  {
    ThroughBoth(s.window, a, i, b, j);
    hide Through;
    assert s.window[i..][j..] == s.window[i + j..];
  }

  /** The packets reported as newly acknowledged have all left the window at the end if and only if an
      uninterrupted acknowledgement, the reporting one or one that arrived during its resends, covers
      them. */
  lemma ReportedLeavesExactly(s: Sender, a: Ack, k: nat)
    requires InSequence(s) && |Outstanding(s)| <= U16 && k < |s.window| && s.window[k].seqNr == a.n
    ensures NewlyAcked(s, a.n) == TotalLen(s.window[..k + 1])
    ensures var left := |HandleAck(s, a).window|;
      left <= |s.window| && HandleAck(s, a).window == s.window[|s.window| - left..]
    ensures |HandleAck(s, a).window| < |s.window| - k
       <==> exists i :: k <= i < |s.window| && s.window[i].seqNr in Leaves(a)
  {
    NotedNumberable(s, a.n);
    assert Numberable(s);
    hide Through, Covered, NoteAck, Numberable, InSequence, Outstanding, HandleAck, Leaves, TotalLen, FirstAt;
    CoversExactly(NoteAck(s, a.n), a.n, k);
    var m := AckRemoves(s, a);
    ThroughReaches(s.window, Leaves(a), m, k);
  }

  lemma NotedNumberable(s: Sender, n: u16)
    ensures var s' := NoteAck(s, n);
      s'.window == s.window && s'.lastAcked == n && (Numberable(s') <==> Numberable(s))
  {
    assert Outstanding(NoteAck(s, n)) == Outstanding(s);
  }

  lemma CoversExactly(s: Sender, n: u16, k: nat)
    requires Numberable(s) && s.lastAcked == n && k < |s.window| && s.window[k].seqNr == n
    ensures Covered(s) == k + 1
  {
    var (o, i) := (Outstanding(s), FirstAt(s.window, n, 0));
    assert o[i] == s.window[i] && o[k] == s.window[k];
    hide Outstanding;
    DistinctNumbers(o, s.seqNr, i, k);
  }

  lemma ThroughReaches(w: seq<Pkt>, ns: seq<u16>, m: nat, k: nat)
    requires Through(w, ns, m) && k < |w|
    ensures m > k <==> exists i :: k <= i < |w| && w[i].seqNr in ns
  {
    if m > k { assert w[m - 1].seqNr in ns; }
  }

  /** When nothing is sent again in between, these are the bytes that leave the window. */
  lemma ReportedIsRemoved(s: Sender, n: u16)
    ensures TotalLen(s.window) == NewlyAcked(s, n) + TotalLen(HandleAck(s, Ack(n, [])).window)
  {
    var (s1, k) := (NoteAck(s, n), Covered(NoteAck(s, n)));
    assert HandleAck(s, Ack(n, [])) == Forget(s1, k);
    ForgetIs(s1, k);
    TotalSplits(s.window[..k], s.window[k..]);
    assert s.window == s.window[..k] + s.window[k..];
  }

  // ---------------------------------------------------------------- when acknowledgements interrupt

  /** Sending a packet waits, and receives, only while this many bytes are in flight. */
  const LEAST_WAIT := MIN_CWND * MSS

  /** Something can arrive while an acknowledgement is handled only if a packet is sent again, which has one
      of the numbers after the acknowledged one that a mask of at most 252 bytes can speak of, and only if
      enough is in flight for the sending to wait. */
  predicate Interruptible(s: Sender, n: u16) {
    && s.currWindow >= LEAST_WAIT
    && exists i :: 0 <= i < |s.window| && 1 <= (s.window[i].seqNr - n) % U16 <= 1 + MAX_MASK_BITS
  }

  /** Acknowledgements that interrupt each other only as the code lets them. */
  predicate CanArrive(s: Sender, a: Ack)
    decreases a
  {
    (|a.during| > 0 ==> Interruptible(s, a.n)) && CanAllArrive(NoteAck(s, a.n), a.during)
  }

  predicate CanAllArrive(s: Sender, acks: seq<Ack>)
    decreases acks
  {
    |acks| > 0 ==>
      var s1 := HandleAcks(s, acks[..|acks| - 1]);
      CanAllArrive(s, acks[..|acks| - 1]) && s1.currWindow >= LEAST_WAIT && CanArrive(s1, acks[|acks| - 1])
  }

  /** An acknowledgement for the last packet in flight, or one that comes while less than two packets of the
      largest size are in flight, is not interrupted, and the packets it reports leave the window. */
  lemma UninterruptedRemoves(s: Sender, a: Ack, k: nat)
    requires Numberable(s) && CanArrive(s, a) && k < |s.window| && s.window[k].seqNr == a.n
    requires s.currWindow < LEAST_WAIT || (k == |s.window| - 1 && |s.window| < U16 - MAX_MASK_BITS)
    ensures HandleAck(s, a).window == s.window[k + 1..]
    ensures NewlyAcked(s, a.n) == TotalLen(s.window[..k + 1])
  {
    if s.currWindow >= LEAST_WAIT {
      NothingAfterLast(s);
    }
    assert a.during == [];
    var s1 := NoteAck(s, a.n);
    NotedNumberable(s, a.n);
    CoversExactly(s1, a.n, k);
    assert HandleAck(s, a) == Forget(s1, k + 1);
    hide HandleAck, Numberable, TotalLen;
    ForgetIs(s1, k + 1);
  }

  lemma NothingAfterLast(s: Sender)
    requires Numberable(s) && 0 < |s.window| < U16 - MAX_MASK_BITS
    ensures !Interruptible(s, s.window[|s.window| - 1].seqNr)
  {
    var (o, last) := (Outstanding(s), |s.window| - 1);
    forall i | 0 <= i < |s.window|
      ensures !(1 <= (s.window[i].seqNr - s.window[last].seqNr) % U16 <= 1 + MAX_MASK_BITS)
    {
      assert o[i] == s.window[i] && o[last] == s.window[last];
      Apart(s.seqNr - |o|, i, last);
    }
  }

  lemma Apart(base: int, i: nat, j: nat)
    ensures ((base + i) % U16 - (base + j) % U16) % U16 == (i - j) % U16
  {}

  /** Any other acknowledgement for a packet in flight may be interrupted, and then what it reports can stay:
      when an older number arrives during the resend, nothing leaves the window. */
  lemma ReportedButKept(s: Sender, k: nat, older: u16)
    requires Numberable(s) && k + 1 < |s.window| && s.currWindow >= LEAST_WAIT && !Buffered(s.window, older)
    ensures var a := Ack(s.window[k].seqNr, [Ack(older, [])]);
      && CanArrive(s, a)
      && NewlyAcked(s, a.n) == TotalLen(s.window[..k + 1])
      && HandleAck(s, a).window == s.window
  {
    var a := Ack(s.window[k].seqNr, [Ack(older, [])]);
    NextInFlight(s, k);
    OneInterrupts(s, a.n, older);
    NotedNumberable(s, a.n);
    hide HandleAck, Numberable, Leaves, TotalLen, Covered, CanArrive, Interruptible, NoteAck;
    CoversExactly(NoteAck(s, a.n), a.n, k);
    var m := AckRemoves(s, a);
    NothingThrough(s.window, older, m);
  }

  lemma NothingThrough(w: seq<Pkt>, n: u16, m: nat)
    requires Through(w, [n], m) && !Buffered(w, n)
    ensures m == 0
  {}

  lemma OneInterrupts(s: Sender, n: u16, late: u16)
    requires Interruptible(s, n)
    ensures var a := Ack(n, [Ack(late, [])]); CanArrive(s, a) && Leaves(a) == [late]
  {
    var (s1, during) := (NoteAck(s, n), [Ack(late, [])]);
    assert during[..0] == [];
    hide Interruptible;
    assert HandleAcks(s1, []) == s1 && CanAllArrive(s1, []) && CanAllArrive(NoteAck(s1, late), []);
    assert CanArrive(s1, Ack(late, []));
    assert AllLeaves([]) == [] && Leaves(Ack(late, [])) == [late];
    assert s1.currWindow >= LEAST_WAIT;
  }

  lemma NextInFlight(s: Sender, k: nat)
    requires Numberable(s) && k + 1 < |s.window| && s.currWindow >= LEAST_WAIT
    ensures Interruptible(s, s.window[k].seqNr)
  {
    var o := Outstanding(s);
    assert o[k] == s.window[k] && o[k + 1] == s.window[k + 1];
    Apart(s.seqNr - |o|, k + 1, k);
  }

  // ---------------------------------------------------------------- such a run

  /** The payload of a packet of the largest size. */
  function Full(): (payload: Bytes)
    ensures |payload| == CHUNK_SIZE
  {
    seq(CHUNK_SIZE, _ => 0)
  }

  lemma SendOne(s: Sender, payload: Bytes)
    requires s.hand.None? && s.unsent == [] && 0 < |payload| <= CHUNK_SIZE
    ensures var es := [Write(payload), Take, Sent];
      && Possible(s, es) && NoFailure(es)
      && Run(s, es) == s.(window := s.window + [Pkt(s.seqNr, payload)],
                          currWindow := (s.currWindow + 20 + |payload|) % U32, seqNr := (s.seqNr + 1) % U16)
  {
    var es := [Write(payload), Take, Sent];
    assert Chunks(payload) == [payload];
    assert [payload][..0] == [];
    assert EnqueueAll(s, [payload]) == Enqueue(s, payload);
    assert es[1..] == [Take, Sent] && es[1..][1..] == [Sent] && es[1..][1..][1..] == [];
    var s1 := s.(unsent := [Pkt(s.seqNr, payload)], seqNr := (s.seqNr + 1) % U16);
    assert Apply(s, es[0]) == s1;
    var s2 := s1.(unsent := [], hand := Some(Pkt(s.seqNr, payload)));
    assert Apply(s1, Take) == s2;
    RunOne(s2, Sent);
  }

  /** n packets of the largest size sent on a new connection. */
  lemma {:induction false} SendFull(first: u16, n: nat) returns (es: seq<Event>)
    requires n * MSS < U32
    ensures var c := Connected(first, (first - 1) % U16);
      && Possible(c, es) && NoFailure(es)
      && var s := Run(c, es);
        && |s.window| == n && s.currWindow == n * MSS && s.hand.None? && s.unsent == []
        && s.seqNr == (first + n) % U16 && s.lastAcked == (first - 1) % U16
        && forall i :: 0 <= i < n ==> s.window[i] == Pkt((first + i) % U16, Full())
  {
    if n == 0 {
      es := [];
    } else {
      var c := Connected(first, (first - 1) % U16);
      es := SendFull(first, n - 1);
      var s := Run(c, es);
      hide Full, Connected, Run, Possible;
      SendOne(s, Full());
      RunAppend(c, es, [Write(Full()), Take, Sent]);
      ModShift(first + (n - 1), 1);
      es := es + [Write(Full()), Take, Sent];
    }
  }

  /** On a new connection, with five packets of the largest size in flight, the first of them is
      acknowledged, and a late copy of the acknowledgement before that arrives while the second is sent
      again: the first is reported as newly acknowledged and stays in the window. */
  lemma LateCopyKeepsPackets(first: u16) returns (es: seq<Event>)
    ensures var c := Connected(first, (first - 1) % U16);
      && Possible(c, es)
      && var s := Run(c, es);
        var a := Ack(first, [Ack(s.lastAcked, [])]);
        && |s.window| == 5 && s.window[0].seqNr == first && s.lastAcked == (first - 1) % U16
        && CanArrive(s, a)
        && NewlyAcked(s, first) == MSS
        && HandleAck(s, a).window == s.window
  {
    hide Run, Possible, CanArrive, HandleAck, Numberable, NewlyAcked, Full;
    es := SendFull(first, 5);
    var c := Connected(first, (first - 1) % U16);
    var s := Run(c, es);
    ConnectionRun(first, (first - 1) % U16, es);
    FullNumberable(s, first, 5);
    ReportedButKept(s, 0, s.lastAcked);
  }

  lemma FullNumberable(s: Sender, first: u16, n: nat)
    requires 0 < n == |s.window| < U16 && InSequence(s) && s.hand.None? && s.unsent == []
    requires s.lastAcked == (first - 1) % U16
    requires forall i :: 0 <= i < n ==> s.window[i] == Pkt((first + i) % U16, Full())
    ensures Numberable(s) && !Buffered(s.window, s.lastAcked) && s.window[0].seqNr == first
    ensures TotalLen(s.window[..1]) == MSS
  {
    assert Outstanding(s) == s.window;
    forall i | 0 <= i < n ensures s.window[i].seqNr != s.lastAcked {
      assert s.window[i].seqNr == (first + i) % U16;
    }
    FirstLen(s.window[..1]);
    assert s.window[..1][1..] == [];
  }
}
