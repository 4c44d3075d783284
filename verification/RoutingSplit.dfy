/** What exactly a split of the last bucket leaves in its two halves. */
module RoutingSplit {
  import opened ShaHash
  import opened RoutingBucket
  import opened RoutingTable

  // ---------------------------------------------------------------- filling an empty bucket

  predicate AllLive(ns: seq<Node>, now: Time) {
    forall i :: 0 <= i < |ns| ==> Pingable(ns[i], now)
  }

  function FirstQuestionable(ns: seq<Node>, now: Time, i: nat): (r: nat)
    requires i <= |ns|
    ensures i <= r <= |ns|
    ensures forall k :: i <= k < r ==> !StatusAt(ns[k], now).Questionable?
    ensures r < |ns| ==> StatusAt(ns[r], now).Questionable?
    decreases |ns| - i
  {
    if i == |ns| || StatusAt(ns[i], now).Questionable? then i else FirstQuestionable(ns, now, i + 1)
  }

  /** A live node joins other live nodes: a Good one takes the place of the first Questionable one still
      standing, if any, and every other goes to the end. A node that looks like the placeholder of a free
      slot takes that slot. */
  function Joined(ns: seq<Node>, n: Node, now: Time): (r: seq<Node>)
    ensures |ns| <= |r| <= |ns| + 1
  {
    var q := FirstQuestionable(ns, now, 0);
    if StatusAt(n, now).Good? && q < |ns| && !SameNode(n, PLACEHOLDER) then ns[q := n] else ns + [n]
  }

  function Filled(ns: seq<Node>, now: Time): (r: seq<Node>)
    ensures |r| <= |ns|
  {
    if |ns| == 0 then [] else Joined(Filled(ns[..|ns| - 1], now), ns[|ns| - 1], now)
  }

  /** The nodes in front, placeholders behind. */
  function Padded(ns: seq<Node>): (s: Slots)
    requires |ns| <= MAX_BUCKET_SIZE
  {
    seq(MAX_BUCKET_SIZE, i => if 0 <= i < |ns| then ns[i] else PLACEHOLDER)
  }

  lemma PaddedEmpty()
    ensures Padded([]) == EMPTY_SLOTS
  {}

  lemma JoinedIsAdd(ns: seq<Node>, n: Node, now: Time)
    requires |ns| < MAX_BUCKET_SIZE && AllLive(ns, now) && Pingable(n, now)
    requires forall i :: 0 <= i < |ns| ==> !SameNode(ns[i], n)
    ensures BucketAdd(Padded(ns), n, now) == (Padded(Joined(ns, n, now)), true)
  {
    var (s, k) := (Padded(ns), |ns|);
    assert s[k] == PLACEHOLDER;
    var same := FirstSame(s, n, 0);
    var lower := FirstBelow(s, StatusAt(n, now), now, 0);
    assert lower <= k;
    if SameNode(n, PLACEHOLDER) {
      assert same == k;
      assert s[k := n] == Padded(ns + [n]);
    } else {
      assert same == MAX_BUCKET_SIZE;
      var q := FirstQuestionable(ns, now, 0);
      if StatusAt(n, now).Good? && q < k {
        assert lower == q;
        assert s[q := n] == Padded(ns[q := n]);
      } else {
        assert lower == k;
        assert s[k := n] == Padded(ns + [n]);
      }
    }
  }

  lemma {:induction false} FilledFrom(ns: seq<Node>, now: Time)
    ensures forall n :: n in Filled(ns, now) ==> n in ns
  {
    if |ns| > 0 {
      var (init, last) := (ns[..|ns| - 1], ns[|ns| - 1]);
      FilledFrom(init, now);
      assert ns == init + [last];
    }
  }

  /** Every node stays that is Good or has no Good one behind it. */
  lemma {:induction false} FilledKeeps(ns: seq<Node>, i: nat, now: Time)
    requires i < |ns|
    requires StatusAt(ns[i], now).Good? || forall j :: i < j < |ns| ==> !StatusAt(ns[j], now).Good?
    ensures ns[i] in Filled(ns, now)
  {
    var (init, last) := (ns[..|ns| - 1], ns[|ns| - 1]);
    var before := Filled(init, now);
    if i == |ns| - 1 {
      var q := FirstQuestionable(before, now, 0);
      assert Filled(ns, now)[if |Filled(ns, now)| == |before| then q else |before|] == last;
    } else {
      FilledKeeps(init, i, now);
      var k :| 0 <= k < |before| && before[k] == ns[i];
      assert Filled(ns, now)[k] == ns[i];
    }
  }

  /** Without a Good node nothing is displaced. */
  lemma {:induction false} FilledWithoutGood(ns: seq<Node>, now: Time)
    requires forall i :: 0 <= i < |ns| ==> !StatusAt(ns[i], now).Good?
    ensures Filled(ns, now) == ns
  {
    if |ns| > 0 {
      FilledWithoutGood(ns[..|ns| - 1], now);
      assert ns == ns[..|ns| - 1] + [ns[|ns| - 1]];
    }
  }

  // ---------------------------------------------------------------- the two halves

  /** The node leaves our id right where the split bucket starts, so that it belongs in the left half. */
  predicate GoesLeft(self: Hash, n: Node, at: nat) {
    LeadingBitCount(self, n.id) == at
  }

  /** The live nodes among the first k slots that go to one half, in their order. */
  function Sent(s: Slots, self: Hash, at: nat, left: bool, k: nat, now: Time): (r: seq<Node>)
    requires k <= MAX_BUCKET_SIZE
    ensures |r| <= k
  {
    if k == 0 then []
    else
      var before := Sent(s, self, at, left, k - 1, now);
      if Pingable(s[k - 1], now) && GoesLeft(self, s[k - 1], at) == left then before + [s[k - 1]] else before
  }

  function Half(s: Slots, self: Hash, at: nat, left: bool, k: nat, now: Time): Slots
    requires k <= MAX_BUCKET_SIZE
  {
    Padded(Filled(Sent(s, self, at, left, k, now), now))
  }

  lemma {:induction false} SentFrom(s: Slots, self: Hash, at: nat, left: bool, k: nat, now: Time)
    requires k <= MAX_BUCKET_SIZE
    ensures forall n :: n in Sent(s, self, at, left, k, now) ==>
      Pingable(n, now) && exists j :: 0 <= j < k && s[j] == n
  {
    hide Pingable, GoesLeft;
    if k > 0 {
      SentFrom(s, self, at, left, k - 1, now);
      var (before, r) := (Sent(s, self, at, left, k - 1, now), Sent(s, self, at, left, k, now));
      forall n | n in r
        ensures Pingable(n, now) && exists j :: 0 <= j < k && s[j] == n
      {
        if n in before {
          var j :| 0 <= j < k - 1 && s[j] == n;
          assert s[j] == n;
        } else {
          assert s[k - 1] == n;
        }
      }
    }
  }

  /** The next node of the bucket joins the half it belongs to. */
  lemma HalfNext(s: Slots, self: Hash, at: nat, left: bool, k: nat, now: Time)
    requires k < MAX_BUCKET_SIZE && Packed(s) && Pingable(s[k], now)
    ensures GoesLeft(self, s[k], at) == left ==>
      BucketAdd(Half(s, self, at, left, k, now), s[k], now) == (Half(s, self, at, left, k + 1, now), true)
    ensures GoesLeft(self, s[k], at) != left ==> Half(s, self, at, left, k, now) == Half(s, self, at, left, k + 1, now)
  {
    var ns := Sent(s, self, at, left, k, now);
    if GoesLeft(self, s[k], at) == left {
      SentFrom(s, self, at, left, k, now);
      FilledFrom(ns, now);
      var filled := Filled(ns, now);
      forall i | 0 <= i < |filled|
        ensures Pingable(filled[i], now) && !SameNode(filled[i], s[k])
      {
        assert filled[i] in ns;
        var j :| 0 <= j < k && s[j] == filled[i];
        PingableIsReal(s[k], now);
      }
      assert (ns + [s[k]])[..|ns|] == ns;
      hide BucketAdd, Packed, GoesLeft;
      JoinedIsAdd(filled, s[k], now);
    }
  }

  /** The table while its last bucket is being split and k of its nodes have been added again. */
  function Splitting(front: seq<Slots>, s: Slots, self: Hash, k: nat, now: Time): Table
    requires |front| + 2 <= MAX_BUCKETS && k <= MAX_BUCKET_SIZE
  {
    front + [Half(s, self, |front|, true, k, now), Half(s, self, |front|, false, k, now)]
  }

  lemma SplittingNext(front: seq<Slots>, s: Slots, self: Hash, k: nat, now: Time)
    requires |front| + 2 <= MAX_BUCKETS && k < MAX_BUCKET_SIZE && BucketPlaced(s, self, |front|, |front| + 1)
    ensures AddNode(Splitting(front, s, self, k, now), self, s[k], now) == Splitting(front, s, self, k + 1, now)
  {
    var (at, n) := (|front|, s[k]);
    var t := Splitting(front, s, self, k, now);
    hide BucketAdd, Half, Packed, StatusAt, LeadingBitCount;
    if Pingable(n, now) {
      PingableIsReal(n, now);
      assert Belongs(self, n, at, at + 1);
      HalfNext(s, self, at, true, k, now);
      HalfNext(s, self, at, false, k, now);
      var left := GoesLeft(self, n, at);
      AddedAt(t, self, n, if left then at else at + 1, Half(s, self, at, left, k + 1, now), now);
    } else {
      HalfSkips(s, self, at, true, k, now);
      HalfSkips(s, self, at, false, k, now);
    }
  }

  lemma HalfSkips(s: Slots, self: Hash, at: nat, left: bool, k: nat, now: Time)
    requires k < MAX_BUCKET_SIZE && !Pingable(s[k], now)
    ensures Half(s, self, at, left, k, now) == Half(s, self, at, left, k + 1, now)
  {}

  /** A live node whose bucket takes it goes there and nothing else changes. */
  lemma AddedAt(t: Table, self: Hash, n: Node, index: nat, slots: Slots, now: Time)
    requires index < |t| && Pingable(n, now) && LeadingBitCount(self, n.id) < MAX_BUCKETS
    requires Placement(LeadingBitCount(self, n.id), |t|) == index && BucketAdd(t[index], n, now) == (slots, true)
    ensures AddNode(t, self, n, now) == t[index := slots]
  {
    hide BucketAdd, LeadingBitCount;
  }

  lemma {:induction false} RedistributeExact(front: seq<Slots>, s: Slots, self: Hash, k: nat, now: Time)
    requires |front| + 2 <= MAX_BUCKETS && k <= MAX_BUCKET_SIZE && BucketPlaced(s, self, |front|, |front| + 1)
    ensures Redistribute(Splitting(front, s, self, k, now), self, s, k, now)
         == Splitting(front, s, self, MAX_BUCKET_SIZE, now)
    decreases MAX_BUCKET_SIZE - k
  {
    hide AddNode, BucketPlaced, Splitting;
    if k < MAX_BUCKET_SIZE {
      SplittingNext(front, s, self, k, now);
      RedistributeExact(front, s, self, k + 1, now);
    }
  }

  /** A split of a placed table leaves the other buckets alone and fills two new ones, each with the live nodes
      of the split bucket that belong there, joining one by one in their order. */
  lemma SplitExact(t: Table, self: Hash, now: Time)
    requires Placed(t, self) && |t| < MAX_BUCKETS
    ensures var (front, last) := (t[..|t| - 1], t[|t| - 1]);
      SplitLast(t, self, now)
      == front + [Half(last, self, |front|, true, MAX_BUCKET_SIZE, now),
                  Half(last, self, |front|, false, MAX_BUCKET_SIZE, now)]
  {
    var (front, last) := (t[..|t| - 1], t[|t| - 1]);
    assert BucketPlaced(last, self, |front|, |front| + 1);
    PaddedEmpty();
    assert Splitting(front, last, self, 0, now) == front + [EMPTY_SLOTS, EMPTY_SLOTS];
    hide Redistribute, BucketPlaced, Half;
    RedistributeExact(front, last, self, 0, now);
  }

  // ---------------------------------------------------------------- who is still there

  /** A live node is sent to its half, ahead of those of later slots. */
  lemma {:induction false} SentInOrder(s: Slots, self: Hash, at: nat, left: bool, j: nat, k: nat, now: Time)
    requires j < k <= MAX_BUCKET_SIZE && Pingable(s[j], now) && GoesLeft(self, s[j], at) == left
    ensures var (i, r) := (|Sent(s, self, at, left, j, now)|, Sent(s, self, at, left, k, now));
      && i < |r| && r[i] == s[j]
      && forall m :: i < m < |r| ==> exists l :: j < l < k && r[m] == s[l] && GoesLeft(self, s[l], at) == left
  {
    hide Pingable, GoesLeft;
    if j < k - 1 {
      SentInOrder(s, self, at, left, j, k - 1, now);
      var (i, before, r) := (|Sent(s, self, at, left, j, now)|, Sent(s, self, at, left, k - 1, now), Sent(s, self, at, left, k, now));
      forall m | i < m < |r|
        ensures exists l :: j < l < k && r[m] == s[l] && GoesLeft(self, s[l], at) == left
      {
        if m < |before| {
          var l :| j < l < k - 1 && before[m] == s[l] && GoesLeft(self, s[l], at) == left;
          assert r[m] == s[l];
        } else {
          assert r[m] == s[k - 1];
        }
      }
    }
  }

  /** After a split a live node of the bucket is still there, unchanged, in the half it belongs to, if it is Good
      or no Good node behind it goes to the same half. */
  lemma SplitKeepsLive(t: Table, self: Hash, j: nat, now: Time)
    requires Placed(t, self) && |t| < MAX_BUCKETS && j < MAX_BUCKET_SIZE && Pingable(t[|t| - 1][j], now)
    requires StatusAt(t[|t| - 1][j], now).Good? || NoRival(t[|t| - 1], self, |t| - 1, j, now)
    ensures var (n, r) := (t[|t| - 1][j], SplitLast(t, self, now));
      |r| == |t| + 1 && n in r[if GoesLeft(self, n, |t| - 1) then |t| - 1 else |t|]
  {
    hide SplitLast, Placed, GoesLeft, Half, NoRival;
    SplitExact(t, self, now);
    HalfKeeps(t[|t| - 1], self, |t| - 1, j, now);
  }

  /** No Good node of a later slot goes to the same half. */
  predicate NoRival(s: Slots, self: Hash, at: nat, j: nat, now: Time)
    requires j < MAX_BUCKET_SIZE
  {
    forall l :: j < l < MAX_BUCKET_SIZE && StatusAt(s[l], now).Good? ==>
      GoesLeft(self, s[l], at) != GoesLeft(self, s[j], at)
  }

  lemma HalfKeeps(s: Slots, self: Hash, at: nat, j: nat, now: Time)
    requires j < MAX_BUCKET_SIZE && Pingable(s[j], now)
    requires StatusAt(s[j], now).Good? || NoRival(s, self, at, j, now)
    ensures s[j] in Half(s, self, at, GoesLeft(self, s[j], at), MAX_BUCKET_SIZE, now)
  {
    hide GoesLeft, Sent, StatusAt, Filled, Padded;
    var left := GoesLeft(self, s[j], at);
    SentInOrder(s, self, at, left, j, MAX_BUCKET_SIZE, now);
    var ns := Sent(s, self, at, left, MAX_BUCKET_SIZE, now);
    FilledKeeps(ns, |Sent(s, self, at, left, j, now)|, now);
    PaddedHolds(Filled(ns, now), s[j]);
  }

  lemma PaddedHolds(ns: seq<Node>, n: Node)
    requires |ns| <= MAX_BUCKET_SIZE
    ensures n in Padded(ns) <==> n in ns || (n == PLACEHOLDER && |ns| < MAX_BUCKET_SIZE)
  {
    var s := Padded(ns);
    if n in ns {
      var i :| 0 <= i < |ns| && ns[i] == n;
      assert s[i] == n;
    }
    if |ns| < MAX_BUCKET_SIZE { assert s[|ns|] == PLACEHOLDER; }
  }

  predicate NoGood(s: Slots, now: Time) {
    forall j :: 0 <= j < MAX_BUCKET_SIZE ==> !StatusAt(s[j], now).Good?
  }

  /** A split of a bucket without Good nodes loses none of its live nodes and holds no others. */
  lemma SplitWithoutGood(t: Table, self: Hash, n: Node, now: Time)
    requires Placed(t, self) && |t| < MAX_BUCKETS && Pingable(n, now)
    requires NoGood(t[|t| - 1], now)
    ensures var r := SplitLast(t, self, now);
      |r| == |t| + 1 && (n in r[|t| - 1] || n in r[|t|] <==> n in t[|t| - 1])
  {
    var (last, at) := (t[|t| - 1], |t| - 1);
    SplitExact(t, self, now);
    hide SplitLast, Placed, Sent, GoesLeft;
    HalfWithoutGood(last, self, at, true, n, now);
    HalfWithoutGood(last, self, at, false, n, now);
  }

  lemma HalfWithoutGood(s: Slots, self: Hash, at: nat, left: bool, n: Node, now: Time)
    requires Pingable(n, now) && NoGood(s, now)
    ensures n in Half(s, self, at, left, MAX_BUCKET_SIZE, now) <==> n in s && GoesLeft(self, n, at) == left
  {
    var ns := Sent(s, self, at, left, MAX_BUCKET_SIZE, now);
    SentFrom(s, self, at, left, MAX_BUCKET_SIZE, now);
    SentAll(s, self, at, left, MAX_BUCKET_SIZE, n, now);
    hide Sent, GoesLeft, StatusAt;
    forall i | 0 <= i < |ns| ensures !StatusAt(ns[i], now).Good? { assert ns[i] in ns; }
    FilledWithoutGood(ns, now);
    PaddedHolds(ns, n);
  }

  lemma {:induction false} SentAll(s: Slots, self: Hash, at: nat, left: bool, k: nat, n: Node, now: Time)
    requires k <= MAX_BUCKET_SIZE && Pingable(n, now)
    ensures n in Sent(s, self, at, left, k, now) <==> n in s[..k] && GoesLeft(self, n, at) == left
  {
    hide Pingable, GoesLeft;
    if k > 0 {
      SentAll(s, self, at, left, k - 1, n, now);
      assert s[..k] == s[..k - 1] + [s[k - 1]];
    }
  }
}
