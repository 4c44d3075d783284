/** Out-of-order packets and the bit mask that reports them. */
module UtpSack {
  import opened Common
  import opened Bits
  import opened UtpPacket

  const U16 := 0x1_0000

  type u16 = n: nat | n < U16

  /** A data packet: its sequence number and its payload. */
  datatype Pkt = Pkt(seqNr: u16, payload: Bytes)

  // ---------------------------------------------------------------- the incoming buffer

  predicate Ascending(buf: seq<Pkt>) {
    forall i, j :: 0 <= i < j < |buf| ==> buf[i].seqNr < buf[j].seqNr
  }

  predicate Buffered(buf: seq<Pkt>, n: u16) {
    exists i :: 0 <= i < |buf| && buf[i].seqNr == n
  }

  function CountBelow(buf: seq<Pkt>, n: u16): (c: nat)
    ensures c <= |buf|
  {
    if |buf| == 0 then 0
    else CountBelow(buf[..|buf| - 1], n) + if buf[|buf| - 1].seqNr < n then 1 else 0
  }

  /** `insert_into_buffer`. */
  function Insert(buf: seq<Pkt>, p: Pkt): seq<Pkt> {
    if |buf| > 0 && p.seqNr > buf[|buf| - 1].seqNr then buf + [p]
    else
      var i := CountBelow(buf, p.seqNr);
      if i == |buf| || buf[i].seqNr != p.seqNr then buf[..i] + [p] + buf[i..] else buf
  }

  lemma {:induction false} CountSplits(buf: seq<Pkt>, n: u16)
    requires Ascending(buf)
    ensures forall i :: 0 <= i < |buf| ==> (buf[i].seqNr < n <==> i < CountBelow(buf, n))
  {
    if |buf| > 0 {
      var init := buf[..|buf| - 1];
      CountSplits(init, n);
      assert forall i :: 0 <= i < |init| ==> buf[i] == init[i];
    }
  }

  /** The buffer stays sorted without duplicates; a packet whose number is already there is dropped,
      any other is added, and nothing else changes. */
  lemma InsertKeepsSorted(buf: seq<Pkt>, p: Pkt)
    requires Ascending(buf)
    ensures Ascending(Insert(buf, p))
    ensures Buffered(buf, p.seqNr) ==> Insert(buf, p) == buf
    ensures !Buffered(buf, p.seqNr) ==> multiset(Insert(buf, p)) == multiset(buf) + multiset{p}
  {
    CountSplits(buf, p.seqNr);
    var i := CountBelow(buf, p.seqNr);
    hide CountBelow;
    assert buf == buf[..i] + buf[i..];
    if Buffered(buf, p.seqNr) {
      var j :| 0 <= j < |buf| && buf[j].seqNr == p.seqNr;
      assert j == i;
    }
  }

  /** Every run of arrivals and removals keeps the buffer sorted. */
  datatype BufferOp = Arrive(p: Pkt) | TakeFirst

  function RunBuffer(ops: seq<BufferOp>): seq<Pkt> {
    if |ops| == 0 then []
    else
      var buf := RunBuffer(ops[..|ops| - 1]);
      match ops[|ops| - 1]
      case Arrive(p) => Insert(buf, p)
      case TakeFirst => if |buf| == 0 then buf else buf[1..]
  }

  lemma {:induction false} RunKeepsSorted(ops: seq<BufferOp>)
    ensures Ascending(RunBuffer(ops))
  {
    if |ops| > 0 {
      RunKeepsSorted(ops[..|ops| - 1]);
      if ops[|ops| - 1].Arrive? {
        InsertKeepsSorted(RunBuffer(ops[..|ops| - 1]), ops[|ops| - 1].p);
      }
      hide Insert;
    }
  }

  // ---------------------------------------------------------------- the bit mask

  /** Bit i of a mask, least significant bit of the first byte first. */
  predicate MaskBit(mask: Bytes, i: nat)
    requires i < 8 * |mask|
  {
    BitAt(mask[i / 8], i % 8)
  }

  /** The packet is one the mask reports: it comes after the first missing one (16-bit comparison). */
  predicate Stashed(ack: u16, n: u16) {
    n > (ack + 1) % U16
  }

  /** The bit a packet is reported at (16-bit subtraction). */
  function Offset(ack: u16, n: u16): u16 {
    (n - ack - 2) % U16
  }

  /** Grow the mask until the byte exists and the length is a multiple of four. */
  function Grow(mask: Bytes, at: nat): (r: Bytes)
    ensures at < |r| && |r| % 4 == 0
    ensures mask <= r && forall i :: |mask| <= i < |r| ==> r[i] == 0
    decreases if at < |mask| then 0 else at + 1 - |mask|, (4 - |mask| % 4) % 4
  {
    if at >= |mask| || |mask| % 4 != 0 then Grow(mask + [0], at) else mask
  }

  /** How many bytes are missing to a multiple of four. */
  function Gap(n: nat): nat {
    if n % 4 == 0 then 0 else 4 - n % 4
  }

  lemma GapNext(n: nat)
    requires n % 4 != 0
    ensures Gap(n + 1) == Gap(n) - 1
  {}

  lemma {:induction false} GrowLength(mask: Bytes, at: nat)
    ensures at >= |mask| ==> |Grow(mask, at)| <= at + 4
    ensures at < |mask| ==> |Grow(mask, at)| == |mask| + Gap(|mask|)
    decreases if at < |mask| then 0 else at + 1 - |mask|, Gap(|mask|)
  {
    if at >= |mask| {
      GrowStep(mask, at);
      hide Grow;
      GrowLength(mask + [0], at);
    } else if |mask| % 4 != 0 {
      GrowStep(mask, at);
      GapNext(|mask|);
      hide Grow, Gap;
      GrowLength(mask + [0], at);
    }
  }

  lemma GrowStep(mask: Bytes, at: nat)
    requires at >= |mask| || |mask| % 4 != 0
    ensures Grow(mask, at) == Grow(mask + [0], at)
  {}

  /** Bounds the bytes still to be added to a mask of the given length. */
  function PadLeft(length: nat, at: nat): nat {
    (if at < length then 0 else at + 1 - length) * 4 + (4 - length % 4) % 4
  }

  lemma PadLess(length: nat, at: nat)
    requires at >= length || length % 4 != 0
    ensures PadLeft(length + 1, at) < PadLeft(length, at)
  {}

  lemma GrowDone(mask: Bytes, at: nat)
    requires at < |mask| && |mask| % 4 == 0
    ensures Grow(mask, at) == mask
  {}

  function SetBit(x: byte, k: nat): (r: byte)
    requires k < 8
  {
    BitBytes(x, k);
    BitOr(x, Pow2(k))
  }

  lemma BitBytes(x: byte, k: nat)
    requires k < 8
    ensures BitOr(x, Pow2(k)) < 256
  {
    Pow2Values();
    Pow2Grows(k, 7);
    assert Pow2(8) == 2 * Pow2(7);
    OrBound(x, Pow2(k), 8);
  }

  /** One step of the loop in `build_selective_ack`. */
  function Mark(mask: Bytes, offset: nat): Bytes {
    var grown := Grow(mask, offset / 8);
    grown[offset / 8 := SetBit(grown[offset / 8], offset % 8)]
  }

  /** `build_selective_ack`. */
  function BuildSack(ack: u16, buf: seq<Pkt>): Bytes {
    if |buf| == 0 then []
    else
      var (mask, n) := (BuildSack(ack, buf[..|buf| - 1]), buf[|buf| - 1].seqNr);
      if Stashed(ack, n) then Mark(mask, Offset(ack, n)) else mask
  }

  lemma MarkBit(mask: Bytes, offset: nat, i: nat)
    requires |mask| % 4 == 0 && i < 8 * |Mark(mask, offset)|
    ensures MaskBit(Mark(mask, offset), i) <==> i == offset || (i < 8 * |mask| && MaskBit(mask, i))
  {
    var grown := Grow(mask, offset / 8);
    OrBit(grown[offset / 8], Pow2(offset % 8), i % 8);
    OneBit(offset % 8, i % 8);
    ZeroBit(i % 8);
    hide Grow, BitOr, Pow2, BitAt;
    assert i == offset <==> i / 8 == offset / 8 && i % 8 == offset % 8;
    assert i / 8 < |mask| ==> grown[i / 8] == mask[i / 8];
  }

  /** Some packet in the buffer is reported at bit i. */
  predicate Reported(ack: u16, buf: seq<Pkt>, i: nat) {
    exists j :: 0 <= j < |buf| && Stashed(ack, buf[j].seqNr) && Offset(ack, buf[j].seqNr) == i
  }

  /** The mask is as long as the highest reported bit demands, in groups of 32 bits, and its bits are
      exactly the reported packets. */
  lemma {:induction false} SackBits(ack: u16, buf: seq<Pkt>)
    ensures var mask := BuildSack(ack, buf);
      && |mask| % 4 == 0
      && (forall j :: 0 <= j < |buf| && Stashed(ack, buf[j].seqNr) ==> Offset(ack, buf[j].seqNr) < 8 * |mask|)
      && (forall i :: 0 <= i < 8 * |mask| ==> (MaskBit(mask, i) <==> Reported(ack, buf, i)))
      && (|mask| > 0 ==> exists j :: 0 <= j < |buf| && Stashed(ack, buf[j].seqNr) && 8 * |mask| <= Offset(ack, buf[j].seqNr) + 32)
  {
    if |buf| > 0 {
      var (init, last) := (buf[..|buf| - 1], buf[|buf| - 1].seqNr);
      SackBits(ack, init);
      var (m, mask) := (BuildSack(ack, init), BuildSack(ack, buf));
      assert forall j :: 0 <= j < |init| ==> buf[j] == init[j];
      if Stashed(ack, last) {
        forall i | 0 <= i < 8 * |mask|
          ensures MaskBit(mask, i) <==> i == Offset(ack, last) || (i < 8 * |m| && MaskBit(m, i))
        {
          MarkBit(m, Offset(ack, last), i);
        }
        GrowLength(m, Offset(ack, last) / 8);
        hide MaskBit, SetBit, Offset, Stashed, Grow;
        ReportedGrows(ack, buf);
        if Offset(ack, last) / 8 >= |m| {
          assert 8 * |mask| <= Offset(ack, buf[|buf| - 1].seqNr) + 32;
        } else {
          assert |mask| == |m|;
          var j :| 0 <= j < |init| && Stashed(ack, init[j].seqNr) && 8 * |m| <= Offset(ack, init[j].seqNr) + 32;
          assert buf[j] == init[j];
        }
      } else {
        hide MaskBit, Offset;
        ReportedGrows(ack, buf);
      }
    }
  }

  lemma ReportedGrows(ack: u16, buf: seq<Pkt>)
    requires |buf| > 0
    ensures forall i :: Reported(ack, buf, i) <==>
      Reported(ack, buf[..|buf| - 1], i) || (Stashed(ack, buf[|buf| - 1].seqNr) && Offset(ack, buf[|buf| - 1].seqNr) == i)
  {
    hide Stashed, Offset;
    var init := buf[..|buf| - 1];
    forall i | Reported(ack, init, i)
      ensures Reported(ack, buf, i)
    {
      var j :| 0 <= j < |init| && Stashed(ack, init[j].seqNr) && Offset(ack, init[j].seqNr) == i;
      assert buf[j] == init[j];
    }
    forall i | Reported(ack, buf, i)
      ensures Reported(ack, init, i) || (Stashed(ack, buf[|buf| - 1].seqNr) && Offset(ack, buf[|buf| - 1].seqNr) == i)
    {
      var j :| 0 <= j < |buf| && Stashed(ack, buf[j].seqNr) && Offset(ack, buf[j].seqNr) == i;
      assert j < |init| ==> buf[j] == init[j];
    }
  }

  /** The sequence number a receiver takes bit i for. */
  function SeqAt(ack: u16, i: nat): u16 {
    (ack + 2 + i) % U16
  }

  lemma OffsetOfSeq(ack: u16, n: u16, i: nat)
    requires i < U16
    ensures Offset(ack, n) == i <==> n == SeqAt(ack, i)
  {}

  /** Bit i is set exactly when the packet it stands for, numbered ack + 2 + i, is buffered and compares
      above ack + 1: so it tells the truth about the buffer unless that packet is buffered with a
      number that wrapped around to ack + 1 or below. */
  lemma SackTruth(ack: u16, buf: seq<Pkt>, i: nat)
    requires i < 8 * |BuildSack(ack, buf)|
    ensures var n := SeqAt(ack, i);
      MaskBit(BuildSack(ack, buf), i) <==> Buffered(buf, n) && n > (ack + 1) % U16
  {
    hide MaskBit, BuildSack, Buffered;
    BitIsStashed(ack, buf, i);
  }

  lemma BitIsStashed(ack: u16, buf: seq<Pkt>, i: nat)
    requires i < 8 * |BuildSack(ack, buf)|
    ensures var n := SeqAt(ack, i);
      MaskBit(BuildSack(ack, buf), i) <==> Buffered(buf, n) && Stashed(ack, n)
  {
    SackBits(ack, buf);
    hide MaskBit, BuildSack, Stashed;
    assert 8 * |BuildSack(ack, buf)| <= U16;
    var n := SeqAt(ack, i);
    if Reported(ack, buf, i) {
      var j :| 0 <= j < |buf| && Stashed(ack, buf[j].seqNr) && Offset(ack, buf[j].seqNr) == i;
      OffsetOfSeq(ack, buf[j].seqNr, i);
    }
    if Buffered(buf, n) {
      var j :| 0 <= j < |buf| && buf[j].seqNr == n;
      OffsetOfSeq(ack, n, i);
    }
  }

  predicate HasBit(mask: Bytes, i: nat) {
    i < 8 * |mask| && MaskBit(mask, i)
  }

  /** The mask reports every buffered packet if and only if all their numbers compare above ack + 1,
      that is, if none has wrapped around. */
  lemma SackComplete(ack: u16, buf: seq<Pkt>)
    ensures (forall j :: 0 <= j < |buf| ==> HasBit(BuildSack(ack, buf), Offset(ack, buf[j].seqNr)))
       <==> (forall j :: 0 <= j < |buf| ==> buf[j].seqNr > (ack + 1) % U16)
  {
    SackBits(ack, buf);
    forall j | 0 <= j < |buf|
      ensures HasBit(BuildSack(ack, buf), Offset(ack, buf[j].seqNr)) <==> buf[j].seqNr > (ack + 1) % U16
    {
      var i := Offset(ack, buf[j].seqNr);
      OffsetOfSeq(ack, buf[j].seqNr, i);
      if i < 8 * |BuildSack(ack, buf)| { SackTruth(ack, buf, i); }
      hide MaskBit, BuildSack, Offset;
    }
  }

  /** A wrapped packet is left out of a mask long enough to report it. */
  lemma WrappedIsLost()
    ensures var (ack, buf) := (65530, [Pkt(0, []), Pkt(65533, [])]);
      && Ascending(buf) && Buffered(buf, SeqAt(ack, 4))
      && 4 < 8 * |BuildSack(ack, buf)| && !MaskBit(BuildSack(ack, buf), 4)
  {
    var buf := [Pkt(0, []), Pkt(65533, [])];
    SackBits(65530, buf);
    assert buf[0].seqNr == SeqAt(65530, 4);
    assert Stashed(65530, buf[1].seqNr);
    SackTruth(65530, buf, 4);
  }

  /** Every reported packet fits a mask of at most 252 bytes. */
  predicate OffsetsFit(ack: u16, buf: seq<Pkt>) {
    forall j :: 0 <= j < |buf| && Stashed(ack, buf[j].seqNr) ==> Offset(ack, buf[j].seqNr) < 2016
  }

  /** From buffer to wire and back: the reply carries the mask as its last extension, its other parts
      unchanged, if and only if every reported packet is less than 2016 past the first missing one. */
  lemma SackOnWire(b: Bytes, ack: u16, buf: seq<Pkt>)
    requires IsPacket(b) && BuildSack(ack, buf) != []
    ensures var (mask, r) := (BuildSack(ack, buf), WithSack(b, BuildSack(ack, buf)));
      (IsPacket(r) && Extensions(r) == Extensions(b) + [Extension(SELECTIVE_ACK, mask)] && Payload(r) == Payload(b))
      <==> OffsetsFit(ack, buf)
  {
    SackBits(ack, buf);
    hide BuildSack, MaskBit, Stashed, Offset, IsPacket, WithSack;
    SackExact(b, BuildSack(ack, buf));
  }

  // ---------------------------------------------------------------- reading the mask

  /** `count_ones` of a byte. */
  function OnesIn(x: byte, k: nat): nat
    requires k <= 8
  {
    if k == 0 then 0 else OnesIn(x, k - 1) + if BitAt(x, k - 1) then 1 else 0
  }

  /** `BitIterator::count_ones`. */
  function CountOnes(mask: Bytes): nat {
    if |mask| == 0 then 0 else CountOnes(mask[..|mask| - 1]) + OnesIn(mask[|mask| - 1], 8)
  }

  function SetBits(mask: Bytes, n: nat): set<nat>
    requires n <= 8 * |mask|
  {
    set i | 0 <= i < n && MaskBit(mask, i)
  }

  lemma MaskBitIs(mask: Bytes, i: nat)
    requires i < 8 * |mask|
    ensures MaskBit(mask, i) <==> BitAt(mask[i / 8], i % 8)
  {}

  lemma {:induction false} OnesOfByte(mask: Bytes, k: nat)
    requires |mask| > 0 && k <= 8
    ensures var base := 8 * (|mask| - 1);
      |SetBits(mask, base + k)| == |SetBits(mask, base)| + OnesIn(mask[|mask| - 1], k)
  {
    if k > 0 {
      OnesOfByte(mask, k - 1);
      var i := 8 * (|mask| - 1) + k - 1;
      assert i / 8 == |mask| - 1 && i % 8 == k - 1;
      hide BitAt, MaskBit;
      assert MaskBit(mask, i) <==> BitAt(mask[|mask| - 1], k - 1) by { MaskBitIs(mask, i); }
      var (s, s') := (SetBits(mask, i), SetBits(mask, i + 1));
      assert s' == if MaskBit(mask, i) then s + {i} else s;
    }
  }

  /** The number of ones is the number of set bits, so of reported packets. */
  lemma {:induction false} OnesAreSetBits(mask: Bytes)
    ensures CountOnes(mask) == |SetBits(mask, 8 * |mask|)|
  {
    if |mask| > 0 {
      var init := mask[..|mask| - 1];
      OnesAreSetBits(init);
      OnesOfByte(mask, 8);
      assert SetBits(mask, 8 * |init|) == SetBits(init, 8 * |init|);
    }
  }

  /** `BitIterator`. */
  class BitIterator {
    const bytes: Bytes
    var nextIndex: nat

    ghost predicate Valid()
      reads this
    {
      nextIndex <= 8 * |bytes|
    }

    constructor (source: Bytes)
      ensures Valid() && bytes == source && nextIndex == 0
    {
      bytes := source;
      nextIndex := 0;
    }

    method Next() returns (r: Option<bool>)
      requires Valid()
      modifies this
      ensures Valid()
      ensures old(nextIndex) < 8 * |bytes| ==>
        nextIndex == old(nextIndex) + 1 && r == Some(MaskBit(bytes, old(nextIndex)))
      ensures old(nextIndex) == 8 * |bytes| ==> nextIndex == old(nextIndex) && r == None
    {
      if nextIndex == 8 * |bytes| { return None; }
      var (byteIndex, bitIndex) := (nextIndex / 8, nextIndex % 8);
      var bit := BitAnd(Shr(bytes[byteIndex], bitIndex), 1);
      AndOne(Shr(bytes[byteIndex], bitIndex));
      nextIndex := nextIndex + 1;
      r := Some(bit == 1);
    }
  }

  // ---------------------------------------------------------------- the receiving side as an object

  class Receiver {
    var incoming: seq<Pkt>
    var ackNr: u16
    var lastDropped: u16

    constructor ()
      ensures incoming == [] && ackNr == 0 && lastDropped == 0
    {
      incoming, ackNr, lastDropped := [], 0, 0;
    }

    /** `insert_into_buffer`. */
    method InsertIntoBuffer(p: Pkt)
      modifies this`incoming
      ensures incoming == Insert(old(incoming), p)
    {
      if |incoming| > 0 && p.seqNr > incoming[|incoming| - 1].seqNr {
        incoming := incoming + [p];
        return;
      }
      var i := 0;
      assert incoming[..0] == [];
      for k := 0 to |incoming|
        invariant i == CountBelow(incoming[..k], p.seqNr)
      {
        assert incoming[..k + 1][..k] == incoming[..k];
        if incoming[k].seqNr < p.seqNr { i := i + 1; }
      }
      assert incoming[..|incoming|] == incoming;
      if i == |incoming| || incoming[i].seqNr != p.seqNr {
        incoming := incoming[..i] + [p] + incoming[i..];
      }
    }

    /** `advance_incoming_buffer`. */
    method AdvanceIncomingBuffer() returns (r: Option<Pkt>)
      modifies this
      ensures old(incoming) == [] ==> r == None && incoming == [] && unchanged(this)
      ensures old(incoming) != [] ==>
        && r.Some? && old(incoming) == [r.value] + incoming
        && ackNr == lastDropped == r.value.seqNr
    {
      if |incoming| == 0 { return None; }
      r := Some(incoming[0]);
      ackNr := incoming[0].seqNr;
      lastDropped := ackNr;
      incoming := incoming[1..];
    }

    /** The inner loop of `build_selective_ack`. */
    static method Pad(sack: Bytes, at: nat) returns (r: Bytes)
      ensures r == Grow(sack, at)
    {
      hide Grow, PadLeft;
      r := sack;
      while at >= |r| || |r| % 4 != 0
        invariant Grow(r, at) == Grow(sack, at)
        decreases PadLeft(|r|, at)
      {
        GrowStep(r, at);
        PadLess(|r|, at);
        r := r + [0];
      }
      GrowDone(r, at);
    }

    /** `build_selective_ack`. */
    method BuildSelectiveAck() returns (sack: Bytes)
      ensures sack == BuildSack(ackNr, incoming)
    {
      hide Grow, SetBit;
      sack := [];
      assert incoming[..0] == [];
      for k := 0 to |incoming|
        invariant sack == BuildSack(ackNr, incoming[..k])
      {
        assert incoming[..k + 1][..k] == incoming[..k];
        if incoming[k].seqNr > (ackNr + 1) % U16 {
          var diff := (incoming[k].seqNr - ackNr - 2) % U16;
          sack := Pad(sack, diff / 8);
          sack := sack[diff / 8 := SetBit(sack[diff / 8], diff % 8)];
        }
      }
      assert incoming[..|incoming|] == incoming;
    }
  }
}
