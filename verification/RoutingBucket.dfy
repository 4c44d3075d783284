/** Nodes of the distributed hash table and the eight-slot buckets that hold them. */
module RoutingBucket {
  import opened Common
  import opened ShaHash

  /** An instant or a duration, in nanoseconds. */
  type Time = int
  const MINUTE: Time := 60_000_000_000
  const MAX_LAST_SEEN: Time := 15 * MINUTE
  const MAX_REFRESH_REQUESTS := 2
  const MAX_BUCKET_SIZE := 8

  datatype SocketAddr = SocketAddr(ip: nat, port: nat)

  /** In increasing order of preference. */
  datatype Status = Bad | Questionable | Good

  predicate Below(a: Status, b: Status) {
    (a.Bad? && !b.Bad?) || (a.Questionable? && b.Good?)
  }

  datatype Node = Node(id: Hash, addr: SocketAddr, lastRequest: Option<Time>, lastResponse: Option<Time>,
                       refreshRequests: nat)

  /** `Node::as_bad`. */
  function AsBad(id: Hash, addr: SocketAddr): Node {
    Node(id, addr, None, None, 0)
  }

  /** The node every slot of a new bucket holds. */
  const PLACEHOLDER: Node :=
    AsBad([0, 0, 0, 0, 0, 0, 0, 0, 0, 0, 0, 0, 0, 0, 0, 0, 0, 0, 0, 0], SocketAddr(0x7f000001, 0))

  /** `Node::status` at a given reading of the clock. */
  function StatusAt(n: Node, now: Time): Status {
    match n.lastResponse
    case None => Bad
    case Some(response) =>
      if now - response < MAX_LAST_SEEN then Good
      else if n.lastRequest.Some? && now - n.lastRequest.value < MAX_LAST_SEEN then Good
      else if n.refreshRequests < MAX_REFRESH_REQUESTS then Questionable
      else Bad
  }

  predicate Pingable(n: Node, now: Time) {
    !StatusAt(n, now).Bad?
  }

  /** Node equality: id and address only. */
  predicate SameNode(a: Node, b: Node) {
    a.id == b.id && a.addr == b.addr
  }

  /** A node that once responded, as opposed to a placeholder. */
  predicate Real(n: Node) {
    n.lastResponse.Some?
  }

  // ---------------------------------------------------------------- adding a node to a bucket

  const EMPTY_SLOTS: seq<Node> :=
    [PLACEHOLDER, PLACEHOLDER, PLACEHOLDER, PLACEHOLDER, PLACEHOLDER, PLACEHOLDER, PLACEHOLDER, PLACEHOLDER]

  type Slots = s: seq<Node> | |s| == MAX_BUCKET_SIZE witness EMPTY_SLOTS

  function FirstSame(s: Slots, n: Node, i: nat): (r: nat)
    requires i <= MAX_BUCKET_SIZE
    ensures i <= r <= MAX_BUCKET_SIZE
    ensures forall k :: i <= k < r ==> !SameNode(s[k], n)
    ensures r < MAX_BUCKET_SIZE ==> SameNode(s[r], n)
    decreases MAX_BUCKET_SIZE - i
  {
    if i == MAX_BUCKET_SIZE || SameNode(s[i], n) then i else FirstSame(s, n, i + 1)
  }

  function FirstBelow(s: Slots, status: Status, now: Time, i: nat): (r: nat)
    requires i <= MAX_BUCKET_SIZE
    ensures i <= r <= MAX_BUCKET_SIZE
    ensures forall k :: i <= k < r ==> !Below(StatusAt(s[k], now), status)
    ensures r < MAX_BUCKET_SIZE ==> Below(StatusAt(s[r], now), status)
    decreases MAX_BUCKET_SIZE - i
  {
    if i == MAX_BUCKET_SIZE || Below(StatusAt(s[i], now), status) then i else FirstBelow(s, status, now, i + 1)
  }

  /** `Bucket::add_node`: the slots afterwards, and whether the node was dealt with. */
  function BucketAdd(s: Slots, n: Node, now: Time): (r: (Slots, bool))
  {
    var status := StatusAt(n, now);
    if status.Bad? then (s, true)
    else
      var same := FirstSame(s, n, 0);
      if same < MAX_BUCKET_SIZE then
        (if Below(status, StatusAt(s[same], now)) then s else s[same := n], true)
      else
        var lower := FirstBelow(s, status, now, 0);
        if lower < MAX_BUCKET_SIZE then (s[lower := n], true) else (s, false)
  }

  /** Real nodes fill the slots from the front, each once; every other slot is a placeholder. */
  predicate Packed(s: Slots) {
    && (forall i, j :: 0 <= i < j < MAX_BUCKET_SIZE && Real(s[j]) ==> Real(s[i]))
    && (forall i :: 0 <= i < MAX_BUCKET_SIZE && !Real(s[i]) ==> s[i] == PLACEHOLDER)
    && (forall i, j :: 0 <= i < j < MAX_BUCKET_SIZE && Real(s[j]) ==> !SameNode(s[i], s[j]))
  }

  /** No real node at or beyond slot k. */
  predicate UsesAtMost(s: Slots, k: nat) {
    forall i :: k <= i < MAX_BUCKET_SIZE ==> !Real(s[i])
  }

  predicate Holds(s: Slots, n: Node) {
    exists i :: 0 <= i < MAX_BUCKET_SIZE && SameNode(s[i], n) && Real(s[i])
  }

  predicate HoldsGood(s: Slots, n: Node, now: Time) {
    exists i :: 0 <= i < MAX_BUCKET_SIZE && SameNode(s[i], n) && StatusAt(s[i], now).Good?
  }

  /** What changes is at most one slot, which receives the node. */
  lemma AddChangesOneSlot(s: Slots, n: Node, now: Time)
    ensures var r := BucketAdd(s, n, now).0;
      r == s || (exists i :: 0 <= i < MAX_BUCKET_SIZE && r == s[i := n] && Real(n)
                  && (SameNode(s[i], n) || Below(StatusAt(s[i], now), StatusAt(n, now))))
  {
    var same := FirstSame(s, n, 0);
    var lower := FirstBelow(s, StatusAt(n, now), now, 0);
    if !StatusAt(n, now).Bad? {
      if same < MAX_BUCKET_SIZE {
        assert SameNode(s[same], n);
      } else if lower < MAX_BUCKET_SIZE {
        assert Below(StatusAt(s[lower], now), StatusAt(n, now));
      }
    }
  }

  /** Adding keeps a bucket packed: the chosen slot is never beyond the first placeholder. */
  lemma AddKeepsPacked(s: Slots, n: Node, now: Time)
    requires Packed(s)
    ensures Packed(BucketAdd(s, n, now).0)
  {
    var r := BucketAdd(s, n, now).0;
    var same := FirstSame(s, n, 0);
    var lower := FirstBelow(s, StatusAt(n, now), now, 0);
    if r != s {
      var slot := if same < MAX_BUCKET_SIZE then same else lower;
      assert r == s[slot := n] && Real(n);
      hide BucketAdd;
      assert SlotFor(s, n, slot) by {
        if same < MAX_BUCKET_SIZE {
          SameSlot(s, n, same);
        } else {
          LowerSlot(s, n, now, lower);
        }
      }
      FillSlot(s, n, slot);
    }
  }

  /** The node may stand in the slot: real nodes come before it, and no other slot holds it. */
  predicate SlotFor(s: Slots, n: Node, slot: nat) {
    && slot < MAX_BUCKET_SIZE
    && (forall i :: 0 <= i < slot ==> Real(s[i]))
    && forall j :: 0 <= j < MAX_BUCKET_SIZE && j != slot && Real(s[j]) ==> !SameNode(s[j], n)
  }

  lemma SameSlot(s: Slots, n: Node, same: nat)
    requires Packed(s) && same < MAX_BUCKET_SIZE && SameNode(s[same], n)
    requires forall k :: 0 <= k < same ==> !SameNode(s[k], n)
    ensures SlotFor(s, n, same)
  {
    if !Real(s[same]) {
      assert s[same] == PLACEHOLDER;
    }
    forall j | same < j < MAX_BUCKET_SIZE && Real(s[j])
      ensures !SameNode(s[j], n)
    {
      assert !SameNode(s[same], s[j]);
    }
  }

  lemma LowerSlot(s: Slots, n: Node, now: Time, lower: nat)
    requires Packed(s) && Pingable(n, now) && lower < MAX_BUCKET_SIZE
    requires forall k :: 0 <= k < MAX_BUCKET_SIZE ==> !SameNode(s[k], n)
    requires forall k :: 0 <= k < lower ==> !Below(StatusAt(s[k], now), StatusAt(n, now))
    ensures SlotFor(s, n, lower)
  {
    forall i | 0 <= i < lower
      ensures Real(s[i])
    {
      assert !Below(StatusAt(s[i], now), StatusAt(n, now));
    }
  }

  lemma FillSlot(s: Slots, n: Node, slot: nat)
    requires Packed(s) && Real(n) && SlotFor(s, n, slot)
    ensures Packed(s[slot := n])
  {}

  /** While a slot is free, a live node is always dealt with, and at most one more slot is used. */
  lemma AddWithRoom(s: Slots, n: Node, now: Time, k: nat)
    requires Packed(s) && UsesAtMost(s, k) && k < MAX_BUCKET_SIZE
    ensures BucketAdd(s, n, now).1
    ensures UsesAtMost(BucketAdd(s, n, now).0, k + 1)
  {
    assert s[k] == PLACEHOLDER;
  }

  /** A Good node is never displaced by a different node. */
  lemma AddKeepsGood(s: Slots, n: Node, now: Time, g: Node)
    requires HoldsGood(s, g, now)
    ensures HoldsGood(BucketAdd(s, n, now).0, g, now)
  {
    var i :| 0 <= i < MAX_BUCKET_SIZE && SameNode(s[i], g) && StatusAt(s[i], now).Good?;
    var r := BucketAdd(s, n, now).0;
    assert SameNode(r[i], g) && StatusAt(r[i], now).Good?;
  }

  /** A node that was dealt with is in the bucket, at least as well regarded as it was offered. */
  lemma AddedIsHeld(s: Slots, n: Node, now: Time)
    requires BucketAdd(s, n, now).1 && Pingable(n, now)
    ensures Holds(BucketAdd(s, n, now).0, n)
    ensures StatusAt(n, now).Good? ==> HoldsGood(BucketAdd(s, n, now).0, n, now)
  {
    var r := BucketAdd(s, n, now).0;
    var same := FirstSame(s, n, 0);
    var slot := if same < MAX_BUCKET_SIZE then same else FirstBelow(s, StatusAt(n, now), now, 0);
    assert SameNode(r[slot], n) && Real(r[slot]);
  }

  predicate HeldBetter(s: Slots, n: Node, now: Time) {
    exists i :: 0 <= i < MAX_BUCKET_SIZE && SameNode(s[i], n) && Below(StatusAt(n, now), StatusAt(s[i], now))
  }

  /** A live node that is dealt with is in the bucket as the very record offered, with its times, if and only
      if the bucket did not hold it with a better status; then, and when it is refused, nothing changes. */
  lemma AddedRecord(s: Slots, n: Node, now: Time)
    requires Packed(s) && Pingable(n, now)
    ensures var (r, ok) := BucketAdd(s, n, now);
      && (n in r <==> ok && !HeldBetter(s, n, now))
      && (HeldBetter(s, n, now) ==> ok)
      && (!ok || HeldBetter(s, n, now) ==> r == s)
  {
    var same := FirstSame(s, n, 0);
    var (r, ok) := BucketAdd(s, n, now);
    if same < MAX_BUCKET_SIZE {
      assert forall j :: same < j < MAX_BUCKET_SIZE && Real(s[j]) ==> !SameNode(s[same], s[j]);
      if Below(StatusAt(n, now), StatusAt(s[same], now)) {
        assert HeldBetter(s, n, now);
        forall j | 0 <= j < MAX_BUCKET_SIZE ensures r[j] != n {}
      } else {
        assert r[same] == n;
      }
    } else {
      var lower := FirstBelow(s, StatusAt(n, now), now, 0);
      if ok { assert r[lower] == n; }
    }
  }

  /** The bucket refuses a node exactly when it is new and every slot holds one at least as well regarded. */
  lemma RefusesWhenFull(s: Slots, n: Node, now: Time)
    ensures !BucketAdd(s, n, now).1 <==>
      && Pingable(n, now)
      && forall i :: 0 <= i < MAX_BUCKET_SIZE ==>
           !SameNode(s[i], n) && !Below(StatusAt(s[i], now), StatusAt(n, now))
  {
    var same := FirstSame(s, n, 0);
    var lower := FirstBelow(s, StatusAt(n, now), now, 0);
    if same < MAX_BUCKET_SIZE { assert SameNode(s[same], n); }
    if lower < MAX_BUCKET_SIZE { assert Below(StatusAt(s[lower], now), StatusAt(n, now)); }
  }

  // ---------------------------------------------------------------- the bucket as an object

  class Bucket {
    const nodes: array<Node>

    ghost predicate Valid() {
      nodes.Length == MAX_BUCKET_SIZE
    }

    ghost function View(): Slots
      requires Valid()
      reads nodes
    {
      nodes[..]
    }

    constructor ()
      ensures Valid() && fresh(nodes) && View() == EMPTY_SLOTS
    {
      nodes := new Node[MAX_BUCKET_SIZE](_ => PLACEHOLDER);
    }

    method AddNode(n: Node, now: Time) returns (ok: bool)
      requires Valid()
      modifies nodes
      ensures (View(), ok) == BucketAdd(old(View()), n, now)
    {
      var status := StatusAt(n, now);
      if status.Bad? { return true; }
      var index := 0;
      while index < nodes.Length && !SameNode(nodes[index], n)
        invariant 0 <= index <= nodes.Length
        invariant FirstSame(View(), n, 0) == FirstSame(View(), n, index)
      {
        index := index + 1;
      }
      if index < nodes.Length {
        if !Below(status, StatusAt(nodes[index], now)) {
          nodes[index] := n;
        }
        return true;
      }
      index := 0;
      while index < nodes.Length && !Below(StatusAt(nodes[index], now), status)
        invariant 0 <= index <= nodes.Length
        invariant FirstBelow(View(), status, now, 0) == FirstBelow(View(), status, now, index)
      {
        index := index + 1;
      }
      ok := index < nodes.Length;
      if ok {
        nodes[index] := n;
      }
    }
  }
}
