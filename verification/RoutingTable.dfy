/** The Kademlia routing table: up to 160 buckets, of which only the last may be split. */
module RoutingTable {
  import opened Common
  import opened ShaHash
  import opened RoutingBucket

  const MAX_BUCKETS := 160

  type Table = t: seq<Slots> | 1 <= |t| <= MAX_BUCKETS witness [EMPTY_SLOTS]

  /** `bucket_placement`: the ideal bucket, or the last one while the ideal one does not exist. */
  function Placement(sameBits: nat, buckets: nat): nat
    requires buckets > 0
  {
    if sameBits >= buckets then buckets - 1 else sameBits
  }

  /** `can_split_bucket`. */
  predicate CanSplit(buckets: nat, index: nat) {
    index + 1 == buckets && index != MAX_BUCKETS - 1
  }

  /** `RoutingTable::add_node`. */
  function AddNode(t: Table, self: Hash, n: Node, now: Time): (r: Table)
    ensures |r| >= |t|
    decreases MAX_BUCKETS - |t|, 2
  {
    if StatusAt(n, now).Bad? then t
    else
      var sameBits := LeadingBitCount(self, n.id);
      if sameBits != MAX_BUCKETS then BucketNode(t, self, n, sameBits, now) else t
  }

  /** `RoutingTable::bucket_node`. */
  function BucketNode(t: Table, self: Hash, n: Node, sameBits: nat, now: Time): (r: Table)
    ensures |r| >= |t|
    decreases MAX_BUCKETS - |t|, 1
  {
    var index := Placement(sameBits, |t|);
    var (slots, ok) := BucketAdd(t[index], n, now);
    if ok then t[index := slots]
    else if CanSplit(|t|, index) then BucketNode(SplitLast(t, self, now), self, n, sameBits, now)
    else t
  }

  /** `RoutingTable::split_bucket` once splitting is known to be allowed. */
  function SplitLast(t: Table, self: Hash, now: Time): (r: Table)
    requires |t| < MAX_BUCKETS
    ensures |r| > |t|
    decreases MAX_BUCKETS - |t|, 0
  {
    Redistribute(t[..|t| - 1] + [EMPTY_SLOTS, EMPTY_SLOTS], self, t[|t| - 1], 0, now)
  }

  /** The loop that adds the nodes of the popped bucket again, from slot i. */
  function Redistribute(t: Table, self: Hash, popped: Slots, i: nat, now: Time): (r: Table)
    requires i <= MAX_BUCKET_SIZE
    ensures |r| >= |t|
    decreases MAX_BUCKETS - |t|, 3, MAX_BUCKET_SIZE - i
  {
    if i == MAX_BUCKET_SIZE then t
    else Redistribute(AddNode(t, self, popped[i], now), self, popped, i + 1, now)
  }

  // ---------------------------------------------------------------- where nodes are

  /** A real node belongs in bucket i of a table with that many buckets. */
  predicate Belongs(self: Hash, n: Node, i: nat, buckets: nat) {
    var bits := LeadingBitCount(self, n.id);
    if i + 1 < buckets then bits == i else i <= bits < MAX_BUCKETS
  }

  /** Every bucket is packed, and every real node is where its id puts it. */
  predicate Placed(t: Table, self: Hash) {
    forall i :: 0 <= i < |t| ==> BucketPlaced(t[i], self, i, |t|)
  }

  predicate BucketPlaced(s: Slots, self: Hash, i: nat, buckets: nat) {
    Packed(s) && forall j :: 0 <= j < MAX_BUCKET_SIZE && Real(s[j]) ==> Belongs(self, s[j], i, buckets)
  }

  lemma EmptyBucketPlaced(self: Hash, i: nat, buckets: nat)
    ensures BucketPlaced(EMPTY_SLOTS, self, i, buckets)
  {}

  lemma BucketAddPlaced(s: Slots, self: Hash, i: nat, buckets: nat, n: Node, now: Time)
    requires BucketPlaced(s, self, i, buckets)
    requires Pingable(n, now) ==> Belongs(self, n, i, buckets)
    ensures BucketPlaced(BucketAdd(s, n, now).0, self, i, buckets)
  {
    AddKeepsPacked(s, n, now);
    AddChangesOneSlot(s, n, now);
    hide Packed, BucketAdd, Belongs;
  }

  /** Adding a node, with all the splitting it causes, keeps every node where it belongs. */
  lemma {:induction false} AddNodePlaced(t: Table, self: Hash, n: Node, now: Time)
    requires Placed(t, self)
    ensures Placed(AddNode(t, self, n, now), self)
    decreases MAX_BUCKETS - |t|, 2
  {
    hide BucketPlaced, StatusAt;
    if !StatusAt(n, now).Bad? && LeadingBitCount(self, n.id) != MAX_BUCKETS {
      BucketNodePlaced(t, self, n, now);
    }
  }

  lemma {:induction false} BucketNodePlaced(t: Table, self: Hash, n: Node, now: Time)
    requires Placed(t, self) && LeadingBitCount(self, n.id) < MAX_BUCKETS
    ensures Placed(BucketNode(t, self, n, LeadingBitCount(self, n.id), now), self)
    decreases MAX_BUCKETS - |t|, 1
  {
    hide BucketPlaced, BucketAdd;
    var bits := LeadingBitCount(self, n.id);
    var index := Placement(bits, |t|);
    var (slots, ok) := BucketAdd(t[index], n, now);
    if ok {
      BucketAddPlaced(t[index], self, index, |t|, n, now);
    } else if CanSplit(|t|, index) {
      SplitPlaced(t, self, now);
      BucketNodePlaced(SplitLast(t, self, now), self, n, now);
    }
  }

  lemma {:induction false} SplitPlaced(t: Table, self: Hash, now: Time)
    requires Placed(t, self) && |t| < MAX_BUCKETS
    ensures Placed(SplitLast(t, self, now), self)
    decreases MAX_BUCKETS - |t|, 0
  {
    hide Packed, Redistribute;
    var split := t[..|t| - 1] + [EMPTY_SLOTS, EMPTY_SLOTS];
    forall i | 0 <= i < |split|
      ensures BucketPlaced(split[i], self, i, |split|)
    {
      if i < |t| - 1 {
        assert BucketPlaced(t[i], self, i, |t|);
      } else {
        EmptyBucketPlaced(self, i, |split|);
      }
    }
    RedistributePlaced(split, self, t[|t| - 1], 0, now);
  }

  lemma {:induction false} RedistributePlaced(t: Table, self: Hash, popped: Slots, i: nat, now: Time)
    requires Placed(t, self) && i <= MAX_BUCKET_SIZE
    ensures Placed(Redistribute(t, self, popped, i, now), self)
    decreases MAX_BUCKETS - |t|, 3, MAX_BUCKET_SIZE - i
  {
    hide Placed, AddNode;
    if i < MAX_BUCKET_SIZE {
      AddNodePlaced(t, self, popped[i], now);
      RedistributePlaced(AddNode(t, self, popped[i], now), self, popped, i + 1, now);
    }
  }

  // ---------------------------------------------------------------- splitting loses no Good node

  predicate TableHoldsGood(t: Table, n: Node, now: Time) {
    exists i :: 0 <= i < |t| && HoldsGood(t[i], n, now)
  }

  ghost predicate KeepsGood(t: Table, t': Table, now: Time) {
    forall g :: TableHoldsGood(t, g, now) ==> TableHoldsGood(t', g, now)
  }

  /** A node of a popped bucket, offered to a table that ends in two buckets with room, is placed there
      at once: no refusal, hence no split. */
  lemma AddNodeWithRoom(t: Table, self: Hash, n: Node, now: Time, used: nat)
    requires |t| >= 2 && Placed(t, self) && used < MAX_BUCKET_SIZE
    requires UsesAtMost(t[|t| - 2], used) && UsesAtMost(t[|t| - 1], used)
    requires Real(n) ==> Belongs(self, n, |t| - 2, |t| - 1)
    ensures var r := AddNode(t, self, n, now);
      && |r| == |t|
      && r[..|t| - 2] == t[..|t| - 2]
      && UsesAtMost(r[|t| - 2], used + 1) && UsesAtMost(r[|t| - 1], used + 1)
      && KeepsGood(t, r, now)
      && (StatusAt(n, now).Good? ==> TableHoldsGood(r, n, now))
  {
    hide BucketAdd, StatusAt, Packed, HoldsGood, LeadingBitCount, KeepsGood;
    if StatusAt(n, now).Bad? {
      UnchangedKeepsGood(t, now);
    } else {
      PingableIsReal(n, now);
      var index := Placement(LeadingBitCount(self, n.id), |t|);
      assert BucketPlaced(t[index], self, index, |t|);
      AddWithRoom(t[index], n, now, used);
      var slots := BucketAdd(t[index], n, now).0;
      ReplaceBucketKeepsGood(t, index, n, now);
      AddedIsHeld(t[index], n, now);
      if StatusAt(n, now).Good? {
        assert HoldsGood(t[index := slots][index], n, now);
      }
    }
  }

  lemma UnchangedKeepsGood(t: Table, now: Time)
    ensures KeepsGood(t, t, now)
  {}

  lemma PingableIsReal(n: Node, now: Time)
    requires !StatusAt(n, now).Bad?
    ensures Real(n)
  {}

  lemma ReplaceBucketKeepsGood(t: Table, index: nat, n: Node, now: Time)
    requires index < |t|
    ensures KeepsGood(t, t[index := BucketAdd(t[index], n, now).0], now)
  {
    hide BucketAdd, HoldsGood;
    var t' := t[index := BucketAdd(t[index], n, now).0];
    forall g | TableHoldsGood(t, g, now)
      ensures TableHoldsGood(t', g, now)
    {
      var i :| 0 <= i < |t| && HoldsGood(t[i], g, now);
      if i == index { AddKeepsGood(t[i], n, now, g); }
      assert HoldsGood(t'[i], g, now);
    }
  }

  lemma {:induction false} RedistributeSpreads(t: Table, self: Hash, popped: Slots, i: nat, now: Time)
    requires |t| >= 2 && Placed(t, self) && i <= MAX_BUCKET_SIZE
    requires UsesAtMost(t[|t| - 2], i) && UsesAtMost(t[|t| - 1], i)
    requires BucketPlaced(popped, self, |t| - 2, |t| - 1)
    ensures var r := Redistribute(t, self, popped, i, now);
      && |r| == |t|
      && r[..|t| - 2] == t[..|t| - 2]
      && KeepsGood(t, r, now)
      && forall j :: i <= j < MAX_BUCKET_SIZE && StatusAt(popped[j], now).Good? ==> TableHoldsGood(r, popped[j], now)
    decreases MAX_BUCKET_SIZE - i
  {
    hide Packed, StatusAt, AddNode, Belongs, UsesAtMost, Placed, TableHoldsGood;
    if i < MAX_BUCKET_SIZE {
      AddNodeWithRoom(t, self, popped[i], now, i);
      AddNodePlaced(t, self, popped[i], now);
      RedistributeSpreads(AddNode(t, self, popped[i], now), self, popped, i + 1, now);
    }
  }

  /** A split adds exactly one bucket (no split happens inside a split), leaves the other buckets alone
      and keeps every Good node. */
  lemma SplitKeepsGood(t: Table, self: Hash, now: Time)
    requires Placed(t, self) && |t| < MAX_BUCKETS
    ensures var r := SplitLast(t, self, now);
      |r| == |t| + 1 && r[..|t| - 1] == t[..|t| - 1] && KeepsGood(t, r, now)
  {
    hide Packed, Redistribute, StatusAt, UsesAtMost, BucketPlaced;
    var split := t[..|t| - 1] + [EMPTY_SLOTS, EMPTY_SLOTS];
    FreshTail(t, self);
    RedistributeSpreads(split, self, t[|t| - 1], 0, now);
    var r := SplitLast(t, self, now);
    assert split[..|t| - 1] == t[..|t| - 1];
    forall g | TableHoldsGood(t, g, now)
      ensures TableHoldsGood(r, g, now)
    {
      var i :| 0 <= i < |t| && HoldsGood(t[i], g, now);
      if i < |t| - 1 {
        assert r[i] == r[..|t| - 1][i] == t[i];
      } else {
        var j :| 0 <= j < MAX_BUCKET_SIZE && SameNode(t[i][j], g) && StatusAt(t[i][j], now).Good?;
        var k :| 0 <= k < |r| && HoldsGood(r[k], t[i][j], now);
        assert HoldsGood(r[k], g, now);
      }
    }
  }

  lemma FreshTail(t: Table, self: Hash)
    requires Placed(t, self) && |t| < MAX_BUCKETS
    ensures var split := t[..|t| - 1] + [EMPTY_SLOTS, EMPTY_SLOTS];
      && Placed(split, self)
      && UsesAtMost(split[|split| - 2], 0) && UsesAtMost(split[|split| - 1], 0)
      && BucketPlaced(t[|t| - 1], self, |split| - 2, |split| - 1)
  {
    hide Packed;
    var split := t[..|t| - 1] + [EMPTY_SLOTS, EMPTY_SLOTS];
    forall i | 0 <= i < |split|
      ensures BucketPlaced(split[i], self, i, |split|)
    {
      if i < |t| - 1 {
        assert BucketPlaced(t[i], self, i, |t|);
      } else {
        EmptyBucketPlaced(self, i, |split|);
      }
    }
  }

  /** At a fixed clock, no addition loses a Good node, however many splits it causes. */
  lemma AddNodeKeepsGood(t: Table, self: Hash, n: Node, now: Time)
    requires Placed(t, self)
    ensures KeepsGood(t, AddNode(t, self, n, now), now)
  {
    hide Placed, StatusAt, TableHoldsGood;
    if !StatusAt(n, now).Bad? && LeadingBitCount(self, n.id) != MAX_BUCKETS {
      BucketNodeKeepsGood(t, self, n, LeadingBitCount(self, n.id), now);
    }
  }

  lemma {:induction false} BucketNodeKeepsGood(t: Table, self: Hash, n: Node, sameBits: nat, now: Time)
    requires Placed(t, self)
    ensures KeepsGood(t, BucketNode(t, self, n, sameBits, now), now)
    decreases MAX_BUCKETS - |t|
  {
    hide Placed, BucketAdd, TableHoldsGood;
    var index := Placement(sameBits, |t|);
    var (slots, ok) := BucketAdd(t[index], n, now);
    if ok {
      ReplaceBucketKeepsGood(t, index, n, now);
    } else if CanSplit(|t|, index) {
      SplitKeepsGood(t, self, now);
      SplitPlaced(t, self, now);
      BucketNodeKeepsGood(SplitLast(t, self, now), self, n, sameBits, now);
    }
  }

  /** Bucket i of a table with that many buckets stays as it is: it is not the last one, or there are 160. */
  predicate Final(buckets: nat, i: nat) {
    i + 1 < buckets || buckets == MAX_BUCKETS
  }

  /** A live node with another id than ours ends up in its bucket, unless that bucket is final and refuses it. */
  lemma {:induction false} BucketNodeOutcome(t: Table, self: Hash, n: Node, sameBits: nat, now: Time)
    requires Pingable(n, now)
    ensures var r := BucketNode(t, self, n, sameBits, now);
      var index := Placement(sameBits, |r|);
      Holds(r[index], n) || (Final(|r|, index) && !BucketAdd(r[index], n, now).1)
    decreases MAX_BUCKETS - |t|
  {
    hide BucketAdd, Holds, Pingable, SplitLast;
    var index := Placement(sameBits, |t|);
    var (slots, ok) := BucketAdd(t[index], n, now);
    if ok {
      AddedIsHeld(t[index], n, now);
    } else if CanSplit(|t|, index) {
      BucketNodeOutcome(SplitLast(t, self, now), self, n, sameBits, now);
    }
  }

  /** In a placed table a live node ends up in its bucket as the very record offered, unless that bucket
      holds it with a better status, or is final and refuses it. */
  lemma {:induction false} BucketNodeRecords(t: Table, self: Hash, n: Node, sameBits: nat, now: Time)
    requires Placed(t, self) && Pingable(n, now)
    ensures var r := BucketNode(t, self, n, sameBits, now);
      var index := Placement(sameBits, |r|);
      || n in r[index]
      || HeldBetter(r[index], n, now)
      || (Final(|r|, index) && !BucketAdd(r[index], n, now).1)
    decreases MAX_BUCKETS - |t|
  {
    hide BucketAdd, Packed, HeldBetter, Pingable, SplitLast;
    var index := Placement(sameBits, |t|);
    assert BucketPlaced(t[index], self, index, |t|);
    AddedRecord(t[index], n, now);
    if !BucketAdd(t[index], n, now).1 && CanSplit(|t|, index) {
      SplitPlaced(t, self, now);
      BucketNodeRecords(SplitLast(t, self, now), self, n, sameBits, now);
    }
  }

  /** So after adding a Good node with another id than ours, its bucket holds exactly the times offered, unless
      it is final and full of other Good nodes. */
  lemma GoodNodeRecorded(t: Table, self: Hash, n: Node, now: Time)
    requires Placed(t, self) && StatusAt(n, now).Good? && n.id != self
    ensures var r := AddNode(t, self, n, now);
      var index := Placement(LeadingBitCount(self, n.id), |r|);
      || n in r[index]
      || (Final(|r|, index)
          && forall j :: 0 <= j < MAX_BUCKET_SIZE ==> StatusAt(r[index][j], now).Good? && !SameNode(r[index][j], n))
  {
    FullPrefix(self, n.id);
    var bits := LeadingBitCount(self, n.id);
    hide LeadingBitCount, BucketAdd;
    BucketNodeRecords(t, self, n, bits, now);
    var r := AddNode(t, self, n, now);
    RefusesWhenFull(r[Placement(bits, |r|)], n, now);
  }

  /** Every slot holds another node at least as well regarded. */
  predicate FullAgainst(s: Slots, n: Node, now: Time) {
    forall j :: 0 <= j < MAX_BUCKET_SIZE ==> !SameNode(s[j], n) && !Below(StatusAt(s[j], now), StatusAt(n, now))
  }

  /** A table grows only for a live node that belongs in the last of its fewer than 160 buckets, when every slot
      there holds another node at least as well regarded. */
  lemma GrowsOnlyWhenFull(t: Table, self: Hash, n: Node, now: Time)
    requires |AddNode(t, self, n, now)| > |t|
    ensures |t| < MAX_BUCKETS && Pingable(n, now) && |t| - 1 <= LeadingBitCount(self, n.id) < MAX_BUCKETS
    ensures FullAgainst(t[|t| - 1], n, now)
  {
    FullPrefix(self, n.id);
    var bits := LeadingBitCount(self, n.id);
    hide LeadingBitCount, BucketAdd, SplitLast;
    RefusesWhenFull(t[Placement(bits, |t|)], n, now);
  }

  // ---------------------------------------------------------------- every run

  /** `local_request`, `remote_request` and `remote_response` on a stored node. */
  datatype Touch = LocalRequest | RemoteRequest | RemoteResponse

  function Touched(n: Node, touch: Touch, now: Time): Node {
    match touch
    case LocalRequest => if StatusAt(n, now).Good? then n else n.(refreshRequests := n.refreshRequests + 1)
    case RemoteRequest => n.(lastRequest := Some(now))
    case RemoteResponse => n.(lastResponse := Some(now), refreshRequests := 0)
  }

  /** Our requests at the given times, with nothing heard from the node in between. */
  function Requested(n: Node, times: seq<Time>): Node {
    if |times| == 0 then n else Touched(Requested(n, times[..|times| - 1]), LocalRequest, times[|times| - 1])
  }

  /** Left alone, a node only loses standing. */
  lemma StatusOnlyDecays(n: Node, now: Time, later: Time)
    requires now <= later
    ensures !Below(StatusAt(n, now), StatusAt(n, later))
  {}

  /** A node that once responded is Good for 15 minutes after each request of its own, and one that never did is
      not. */
  lemma RequestKeepsGood(n: Node, request: Time, now: Time)
    requires now - request < MAX_LAST_SEEN
    ensures StatusAt(Touched(n, RemoteRequest, request), now) == if Real(n) then Good else Bad
  {}

  /** A node that responded at the given time was heard from less than 15 minutes ago, by that response or by a
      request of its own. */
  predicate HeardFrom(response: Time, lastRequest: Option<Time>, now: Time) {
    now - response < MAX_LAST_SEEN || (lastRequest.Some? && now - lastRequest.value < MAX_LAST_SEEN)
  }

  /** Requests sent while the node is Good are not held against it, the others are counted. */
  lemma {:induction false} RequestsCount(n: Node, response: Time, times: seq<Time>)
    requires n.lastResponse == Some(response)
    requires forall i :: 0 <= i < |times| ==> !HeardFrom(response, n.lastRequest, times[i])
    ensures Requested(n, times) == n.(refreshRequests := n.refreshRequests + |times|)
  {
    if |times| > 0 { RequestsCount(n, response, times[..|times| - 1]); }
  }

  lemma {:induction false} RequestsForgiven(n: Node, response: Time, times: seq<Time>)
    requires n.lastResponse == Some(response)
    requires forall i :: 0 <= i < |times| ==> HeardFrom(response, n.lastRequest, times[i])
    ensures Requested(n, times) == n
  {
    if |times| > 0 { RequestsForgiven(n, response, times[..|times| - 1]); }
  }

  /** What a silent node comes to. From its last response on it is Good for as long as it was heard from within
      15 minutes, however often we ask; after that it is Questionable until we have asked twice in vain, and
      from then on Bad. */
  lemma SilentNodeTurnsBad(n: Node, response: Time, early: seq<Time>, late: seq<Time>, now: Time)
    requires forall i :: 0 <= i < |early| ==> HeardFrom(response, n.lastRequest, early[i])
    requires forall i :: 0 <= i < |late| ==> !HeardFrom(response, n.lastRequest, late[i])
    ensures StatusAt(Requested(Requested(Touched(n, RemoteResponse, response), early), late), now)
         == if HeardFrom(response, n.lastRequest, now) then Good else if |late| < 2 then Questionable else Bad
  {
    var heard := Touched(n, RemoteResponse, response);
    assert heard.lastResponse == Some(response) && heard.lastRequest == n.lastRequest;
    RequestsForgiven(heard, response, early);
    RequestsCount(heard, response, late);
  }

  /** One operation on the table, at its own reading of the clock. */
  datatype Op = Add(n: Node, now: Time) | Mark(bucket: nat, slot: nat, touch: Touch, now: Time)

  function Apply(t: Table, self: Hash, op: Op): Table {
    match op
    case Add(n, now) => AddNode(t, self, n, now)
    case Mark(i, j, touch, now) =>
      if i < |t| && j < MAX_BUCKET_SIZE && Pingable(t[i][j], now)
      then t[i := t[i][j := Touched(t[i][j], touch, now)]]
      else t
  }

  function Run(t: Table, self: Hash, ops: seq<Op>): Table {
    if |ops| == 0 then t else Apply(Run(t, self, ops[..|ops| - 1]), self, ops[|ops| - 1])
  }

  lemma MarkPlaced(t: Table, self: Hash, i: nat, j: nat, touch: Touch, now: Time)
    requires Placed(t, self)
    ensures Placed(Apply(t, self, Mark(i, j, touch, now)), self)
  {
    if i < |t| && j < MAX_BUCKET_SIZE && Pingable(t[i][j], now) {
      var s' := t[i][j := Touched(t[i][j], touch, now)];
      assert BucketPlaced(t[i], self, i, |t|);
      assert SameNode(s'[j], t[i][j]) && Real(s'[j]) && Real(t[i][j]);
      assert Packed(s');
      hide Packed;
      assert BucketPlaced(s', self, i, |t|);
    }
  }

  /** After any sequence of additions and status updates, at any clock readings: between 1 and 160
      buckets, and every real node in the bucket its id asks for. */
  lemma {:induction false} RunPlaced(self: Hash, ops: seq<Op>)
    ensures Placed(Run([EMPTY_SLOTS], self, ops), self)
  {
    if |ops| == 0 {
      EmptyBucketPlaced(self, 0, 1);
    } else {
      RunPlaced(self, ops[..|ops| - 1]);
      hide Placed;
      var t := Run([EMPTY_SLOTS], self, ops[..|ops| - 1]);
      match ops[|ops| - 1]
      case Add(n, now) => AddNodePlaced(t, self, n, now);
      case Mark(i, j, touch, now) => MarkPlaced(t, self, i, j, touch, now);
    }
  }

  /** In such a table our own id never appears and no two real entries share id and address. */
  lemma PlacedIsUnique(t: Table, self: Hash, i: nat, j: nat, k: nat, l: nat)
    requires Placed(t, self)
    requires i < |t| && j < MAX_BUCKET_SIZE && Real(t[i][j])
    requires k < |t| && l < MAX_BUCKET_SIZE && Real(t[k][l])
    ensures t[i][j].id != self
    ensures (i, j) != (k, l) ==> !SameNode(t[i][j], t[k][l])
  {
    assert BucketPlaced(t[i], self, i, |t|) && BucketPlaced(t[k], self, k, |t|);
    FullPrefix(self, t[i][j].id);
    hide LeadingBitCount;
    if i == k && j < l {
      assert !SameNode(t[i][j], t[k][l]);
    } else if i == k && l < j {
      assert !SameNode(t[k][l], t[i][j]);
    } else if i != k {
      assert Belongs(self, t[i][j], i, |t|) && Belongs(self, t[k][l], k, |t|);
    }
  }

  // ---------------------------------------------------------------- looking a node up

  /** Bucket i is handed out as sorted; the last of fewer than 160 is the assorted one. */
  predicate IsSorted(t: Table, i: int) {
    0 <= i < |t| && (i + 1 < |t| || |t| == MAX_BUCKETS)
  }

  predicate HoldsPingable(s: Slots, n: Node, now: Time) {
    exists j :: 0 <= j < MAX_BUCKET_SIZE && SameNode(s[j], n) && Pingable(s[j], now)
  }

  /** `find_node` succeeds: the bucket reached through the `Buckets` iterator holds the node. Position
      160 of that iterator is the assorted bucket, positions of buckets not yet created are empty. */
  predicate Finds(t: Table, self: Hash, n: Node, now: Time) {
    var index := LeadingBitCount(self, n.id);
    if index == MAX_BUCKETS then |t| < MAX_BUCKETS && HoldsPingable(t[|t| - 1], n, now)
    else IsSorted(t, index) && HoldsPingable(t[index], n, now)
  }

  /** In a reachable table a lookup finds exactly the live nodes of sorted buckets: a node stored in
      the assorted bucket is never found. */
  lemma FindsSortedOnly(t: Table, self: Hash, n: Node, now: Time)
    requires Placed(t, self)
    ensures Finds(t, self, n, now) <==> exists i :: IsSorted(t, i) && HoldsPingable(t[i], n, now)
  {
    FullPrefix(self, n.id);
    var last := t[|t| - 1];
    forall j | 0 <= j < MAX_BUCKET_SIZE && Real(last[j])
      ensures last[j].id != self
    {
      PlacedIsUnique(t, self, |t| - 1, j, |t| - 1, j);
    }
    forall i | IsSorted(t, i) && HoldsPingable(t[i], n, now)
      ensures LeadingBitCount(self, n.id) == i
    {
      var j :| 0 <= j < MAX_BUCKET_SIZE && SameNode(t[i][j], n) && Pingable(t[i][j], now);
      assert BucketPlaced(t[i], self, i, |t|);
      assert Belongs(self, t[i][j], i, |t|);
    }
  }

  /** The first node added to a new table, whatever its id, is held as Good and not found. */
  lemma FirstNodeMissed(self: Hash, n: Node, now: Time)
    requires StatusAt(n, now).Good? && n.id != self
    ensures var t := Run([EMPTY_SLOTS], self, [Add(n, now)]);
      TableHoldsGood(t, n, now) && HoldsPingable(t[0], n, now) && !Finds(t, self, n, now)
  {
    var ops := [Add(n, now)];
    assert ops[..0] == [];
    FullPrefix(self, n.id);
    var t := Run([EMPTY_SLOTS], self, ops);
    EmptyAccepts(n, now);
    AddedIsHeld(EMPTY_SLOTS, n, now);
    var bits := LeadingBitCount(self, n.id);
    hide LeadingBitCount, BucketAdd;
    var slots := BucketAdd(EMPTY_SLOTS, n, now).0;
    assert Placement(bits, 1) == 0;
    assert BucketNode([EMPTY_SLOTS], self, n, bits, now) == [EMPTY_SLOTS][0 := slots] == [slots];
    assert t == Apply(Run([EMPTY_SLOTS], self, []), self, Add(n, now)) == [slots];
    assert HoldsGood(t[0], n, now);
    var j :| 0 <= j < MAX_BUCKET_SIZE && SameNode(t[0][j], n) && StatusAt(t[0][j], now).Good?;
  }

  lemma EmptyAccepts(n: Node, now: Time)
    ensures BucketAdd(EMPTY_SLOTS, n, now).1
  {
    AddWithRoom(EMPTY_SLOTS, n, now, 0);
  }

  // ---------------------------------------------------------------- the table as an object

  class TableObject {
    const nodeId: Hash
    var buckets: seq<Bucket>

    ghost predicate Valid()
      reads this
    {
      && 1 <= |buckets| <= MAX_BUCKETS
      && (forall i :: 0 <= i < |buckets| ==> buckets[i].Valid())
      && (forall i, j :: 0 <= i < j < |buckets| ==> buckets[i].nodes != buckets[j].nodes)
    }

    ghost function Repr(): set<object>
      reads this
    {
      set i | 0 <= i < |buckets| :: buckets[i].nodes
    }

    ghost function View(): (t: Table)
      requires Valid()
      reads this, Repr()
      ensures |t| == |buckets|
    {
      seq(|buckets|, i requires 0 <= i < |buckets| && buckets[i].Valid() reads this, Repr() => buckets[i].View())
    }

    constructor (nodeId: Hash)
      ensures Valid() && fresh(Repr()) && this.nodeId == nodeId
      ensures View() == [EMPTY_SLOTS]
    {
      this.nodeId := nodeId;
      var b := new Bucket();
      buckets := [b];
    }

    method Add(n: Node, now: Time)
      requires Valid()
      modifies this, Repr()
      ensures Valid() && fresh(Repr() - old(Repr()))
      ensures View() == AddNode(old(View()), nodeId, n, now)
      decreases MAX_BUCKETS - |buckets|, 2
    {
      if StatusAt(n, now).Bad? { return; }
      var sameBits := LeadingBitCount(nodeId, n.id);
      if sameBits != MAX_BUCKETS {
        Place(n, sameBits, now);
      }
    }

    method Place(n: Node, sameBits: nat, now: Time)
      requires Valid()
      modifies this, Repr()
      ensures Valid() && fresh(Repr() - old(Repr()))
      ensures View() == BucketNode(old(View()), nodeId, n, sameBits, now)
      decreases MAX_BUCKETS - |buckets|, 1
    {
      hide BucketAdd, SplitLast;
      var index := Placement(sameBits, |buckets|);
      var ok := AddToBucket(index, n, now);
      if !ok {
        var wasSplit := Split(index, now);
        if wasSplit {
          Place(n, sameBits, now);
        }
      }
    }

    method AddToBucket(index: nat, n: Node, now: Time) returns (ok: bool)
      requires Valid() && index < |buckets|
      modifies buckets[index].nodes
      ensures Valid()
      ensures ok == BucketAdd(old(View())[index], n, now).1
      ensures View() == old(View())[index := BucketAdd(old(View())[index], n, now).0]
      ensures !ok ==> View() == old(View())
    {
      ok := buckets[index].AddNode(n, now);
    }

    method Split(index: nat, now: Time) returns (ok: bool)
      requires Valid() && index < |buckets|
      modifies this, Repr()
      ensures Valid() && fresh(Repr() - old(Repr()))
      ensures ok == CanSplit(old(|buckets|), index)
      ensures ok ==> old(|buckets|) < |buckets| && View() == SplitLast(old(View()), nodeId, now)
      ensures !ok ==> View() == old(View())
      decreases MAX_BUCKETS - |buckets|, 0
    {
      ok := CanSplit(|buckets|, index);
      if !ok { return; }
      var last := buckets[|buckets| - 1];
      var popped: Slots := last.nodes[..];
      ghost var split := View()[..|buckets| - 1] + [EMPTY_SLOTS, EMPTY_SLOTS];
      ExtendTail();
      assert View() == split;
      for i := 0 to MAX_BUCKET_SIZE
        invariant Valid() && fresh(Repr() - old(Repr())) && |buckets| > old(|buckets|)
        invariant Redistribute(View(), nodeId, popped, i, now) == Redistribute(split, nodeId, popped, 0, now)
      {
        Add(popped[i], now);
      }
    }

    /** Pop the last bucket and push two new ones. */
    method ExtendTail()
      requires Valid() && |buckets| < MAX_BUCKETS
      modifies this
      ensures Valid() && fresh(Repr() - old(Repr())) && |buckets| == old(|buckets|) + 1
      ensures View() == old(View())[..old(|buckets|) - 1] + [EMPTY_SLOTS, EMPTY_SLOTS]
    {
      var left := new Bucket();
      var right := new Bucket();
      buckets := buckets[..|buckets| - 1] + [left, right];
    }
  }
}
