/** The two-sided bucket walk and the iterator over the nodes closest to an id. */
module RoutingClosest {
  import opened Common
  import opened ShaHash
  import opened RoutingBucket
  import opened RoutingTable

  // ---------------------------------------------------------------- the walk

  /** An index computed with checked arithmetic is usable. */
  predicate InBounds(buckets: nat, i: int) {
    0 <= i < buckets
  }

  /** `next_bucket_index`: right first, then the same offset to the left, then one further. */
  function NextIndex(buckets: nat, start: nat, curr: nat): (r: Option<nat>)
  {
    if curr == start then
      if InBounds(buckets, start + 1) then Some(start + 1)
      else if InBounds(buckets, start - 1) then Some(start - 1)
      else None
    else if curr > start then
      var left := start - (curr - start);
      if InBounds(buckets, left) then Some(left)
      else if InBounds(buckets, curr + 1) then Some(curr + 1)
      else None
    else
      var right := start + (start - curr) + 1;
      if InBounds(buckets, right) then Some(right)
      else if InBounds(buckets, curr - 1) then Some(curr - 1)
      else None
  }

  /** Position of index i in the order start, start+1, start-1, start+2, start-2, ... */
  function Rank(start: nat, i: nat): nat {
    if i == start then 0 else if i > start then 2 * (i - start) - 1 else 2 * (start - i)
  }

  /** Each step goes to the next existing index in that order. */
  lemma NextIsNextRank(buckets: nat, start: nat, curr: nat)
    requires start <= buckets && (curr < buckets || curr == start)
    ensures match NextIndex(buckets, start, curr)
      case None => forall i :: 0 <= i < buckets ==> Rank(start, i) <= Rank(start, curr)
      case Some(next) =>
        && next < buckets
        && Rank(start, curr) < Rank(start, next)
        && forall i :: 0 <= i < buckets && Rank(start, curr) < Rank(start, i) ==> Rank(start, next) <= Rank(start, i)
  {}

  function Walk(buckets: nat, start: nat, curr: nat): (w: seq<nat>)
    requires start <= buckets && (curr < buckets || curr == start)
    decreases 2 * buckets + 1 - Rank(start, curr)
  {
    NextIsNextRank(buckets, start, curr);
    [curr] + (match NextIndex(buckets, start, curr)
              case None => []
              case Some(next) => Walk(buckets, start, next))
  }

  /** The rest of a walk is in increasing rank and misses nothing. */
  lemma {:induction false} WalkFrom(buckets: nat, start: nat, curr: nat)
    requires start <= buckets && (curr < buckets || curr == start)
    ensures var w := Walk(buckets, start, curr);
      && (forall p :: 0 < p < |w| ==> w[p] < buckets)
      && (forall p, q :: 0 <= p < q < |w| ==> Rank(start, w[p]) < Rank(start, w[q]))
      && (forall i :: 0 <= i < buckets && Rank(start, curr) <= Rank(start, i) ==> i in w)
    decreases 2 * buckets + 1 - Rank(start, curr)
  {
    hide NextIndex, Rank;
    NextIsNextRank(buckets, start, curr);
    WalkUnrolled(buckets, start, curr);
    forall i | 0 <= i < buckets && Rank(start, i) == Rank(start, curr)
      ensures i == curr
    {
      RankInjective(start, i, curr);
    }
    match NextIndex(buckets, start, curr)
    case None =>
    case Some(next) =>
      RankBound(buckets, start, next);
      WalkFrom(buckets, start, next);
      WalkUnrolled(buckets, start, next);
      hide Walk;
      var (w, v) := (Walk(buckets, start, curr), Walk(buckets, start, next));
      assert forall q :: 0 <= q < |v| ==> Rank(start, v[0]) <= Rank(start, v[q]);
      assert forall p :: 0 < p < |w| ==> w[p] == v[p - 1];
  }

  lemma RankBound(buckets: nat, start: nat, i: nat)
    requires start <= buckets && i < buckets
    ensures Rank(start, i) <= 2 * buckets
  {}

  lemma RankInjective(start: nat, i: nat, j: nat)
    requires Rank(start, i) == Rank(start, j)
    ensures i == j
  {}

  lemma WalkUnrolled(buckets: nat, start: nat, curr: nat)
    requires start <= buckets && (curr < buckets || curr == start)
    ensures |Walk(buckets, start, curr)| > 0 && Walk(buckets, start, curr)[0] == curr
    ensures NextIndex(buckets, start, curr).None? ==> Walk(buckets, start, curr) == [curr]
    ensures NextIndex(buckets, start, curr).Some? ==>
      var next := NextIndex(buckets, start, curr).value;
      next < buckets && Walk(buckets, start, curr) == [curr] + Walk(buckets, start, next)
  {
    NextIsNextRank(buckets, start, curr);
    hide NextIndex;
  }

  /** From every start index the walk visits each bucket index exactly once and stops. */
  lemma WalkVisitsEachOnce(start: nat)
    requires start <= MAX_BUCKETS
    ensures var w := Walk(MAX_BUCKETS, start, start);
      && w[0] == start
      && (forall i :: 0 <= i < MAX_BUCKETS ==> i in w)
      && (forall p :: 0 < p < |w| ==> w[p] < MAX_BUCKETS)
      && (forall p, q :: 0 <= p < q < |w| ==> w[p] != w[q])
  {
    WalkFrom(MAX_BUCKETS, start, start);
  }

  // ---------------------------------------------------------------- what the iterator hands out

  /** Live, and with the wanted number of leading bits in common with our id, if one is wanted. */
  predicate Wanted(n: Node, self: Hash, want: Option<nat>, now: Time) {
    Pingable(n, now) && (want.Some? ==> LeadingBitCount(self, n.id) == want.value)
  }

  function Select(s: Slots, self: Hash, want: Option<nat>, now: Time, k: nat): (r: seq<Node>)
    requires k <= MAX_BUCKET_SIZE
    decreases MAX_BUCKET_SIZE - k
  {
    if k == MAX_BUCKET_SIZE then []
    else (if Wanted(s[k], self, want, now) then [s[k]] else []) + Select(s, self, want, now, k + 1)
  }

  /** The nodes handed out while the walk stands at index i: those of the sorted bucket, then those
      the assorted bucket holds for it. */
  function YieldsAt(t: Table, self: Hash, i: nat, now: Time): (r: seq<Node>)
  {
    (if IsSorted(t, i) then Select(t[i], self, None, now, 0) else [])
    + (if |t| < MAX_BUCKETS then Select(t[|t| - 1], self, Some(i), now, 0) else [])
  }

  function YieldsAlong(t: Table, self: Hash, w: seq<nat>, now: Time): (r: seq<Node>)
  {
    if |w| == 0 then [] else YieldsAt(t, self, w[0], now) + YieldsAlong(t, self, w[1..], now)
  }

  /** Everything `closest_nodes` yields, in order. */
  function Closest(t: Table, self: Hash, target: Hash, now: Time): (r: seq<Node>)
  {
    var start := LeadingBitCount(self, target);
    YieldsAlong(t, self, Walk(MAX_BUCKETS, start, start), now)
  }

  // ---------------------------------------------------------------- every live node exactly once

  predicate AllDiffer(l: seq<Node>) {
    forall p, q :: 0 <= p < q < |l| ==> !SameNode(l[p], l[q])
  }

  predicate SelectedFrom(s: Slots, self: Hash, want: Option<nat>, now: Time, k: nat, n: Node) {
    exists j :: k <= j < MAX_BUCKET_SIZE && s[j] == n && Wanted(n, self, want, now)
  }

  lemma {:induction false} SelectMembers(s: Slots, self: Hash, want: Option<nat>, now: Time, k: nat)
    requires 0 <= k <= MAX_BUCKET_SIZE
    ensures forall n :: n in Select(s, self, want, now, k) <==> SelectedFrom(s, self, want, now, k, n)
    decreases MAX_BUCKET_SIZE - k
  {
    hide Wanted;
    if k < MAX_BUCKET_SIZE {
      SelectMembers(s, self, want, now, k + 1);
    }
  }

  lemma {:induction false} SelectDiffers(s: Slots, self: Hash, want: Option<nat>, now: Time, k: nat)
    requires Packed(s) && k <= MAX_BUCKET_SIZE
    ensures AllDiffer(Select(s, self, want, now, k))
    decreases MAX_BUCKET_SIZE - k
  {
    if k < MAX_BUCKET_SIZE {
      SelectDiffers(s, self, want, now, k + 1);
      var rest := Select(s, self, want, now, k + 1);
      assert Select(s, self, want, now, k) == (if Wanted(s[k], self, want, now) then [s[k]] else []) + rest;
      forall q | 0 <= q < |rest|
        ensures !SameNode(s[k], rest[q])
      {
        LaterDiffers(s, self, want, now, k, rest[q]);
      }
      hide Select, Packed, Wanted, SameNode;
    }
  }

  lemma LaterDiffers(s: Slots, self: Hash, want: Option<nat>, now: Time, k: nat, n: Node)
    requires Packed(s) && k < MAX_BUCKET_SIZE && n in Select(s, self, want, now, k + 1)
    ensures !SameNode(s[k], n)
  {
    SelectMembers(s, self, want, now, k + 1);
    hide Select;
    var j :| k + 1 <= j < MAX_BUCKET_SIZE && s[j] == n && Wanted(n, self, want, now);
    assert Real(s[j]);
  }

  lemma {:induction false} SelectNothing(s: Slots, self: Hash, want: Option<nat>, now: Time, k: nat)
    requires k <= MAX_BUCKET_SIZE && forall j :: 0 <= j < MAX_BUCKET_SIZE ==> !Wanted(s[j], self, want, now)
    ensures Select(s, self, want, now, k) == []
    decreases MAX_BUCKET_SIZE - k
  {
    hide Wanted;
    if k < MAX_BUCKET_SIZE { SelectNothing(s, self, want, now, k + 1); }
  }

  /** A live entry of the table whose id shares i leading bits with ours. */
  predicate LiveAt(t: Table, self: Hash, i: nat, n: Node, now: Time) {
    Pingable(n, now) && LeadingBitCount(self, n.id) == i && InTable(t, n)
  }

  predicate InTable(t: Table, n: Node) {
    exists b :: 0 <= b < |t| && n in t[b]
  }

  /** The only bucket that can hold a live node. */
  lemma LiveInBucket(t: Table, self: Hash, b: nat, n: Node, now: Time)
    requires Placed(t, self) && b < |t| && n in t[b] && Pingable(n, now)
    ensures var bits := LeadingBitCount(self, n.id);
      bits < MAX_BUCKETS && Placement(bits, |t|) == b && (IsSorted(t, b) ==> bits == b)
  {
    hide LeadingBitCount, Packed;
    var j :| 0 <= j < MAX_BUCKET_SIZE && t[b][j] == n;
    assert BucketPlaced(t[b], self, b, |t|);
    assert Real(t[b][j]);
  }

  lemma YieldsAtSorted(t: Table, self: Hash, i: nat, now: Time)
    requires Placed(t, self) && IsSorted(t, i)
    ensures YieldsAt(t, self, i, now) == Select(t[i], self, None, now, 0)
  {
    if |t| < MAX_BUCKETS {
      var last := t[|t| - 1];
      forall j | 0 <= j < MAX_BUCKET_SIZE
        ensures !Wanted(last[j], self, Some(i), now)
      {
        if Pingable(last[j], now) { LiveInBucket(t, self, |t| - 1, last[j], now); }
      }
      SelectNothing(last, self, Some(i), now, 0);
    }
  }

  lemma YieldsAtSelects(t: Table, self: Hash, i: nat, now: Time) returns (b: nat, want: Option<nat>)
    requires Placed(t, self) && (IsSorted(t, i) || |t| < MAX_BUCKETS)
    ensures b < |t| && YieldsAt(t, self, i, now) == Select(t[b], self, want, now, 0)
    ensures if IsSorted(t, i) then b == i && want == None else b == |t| - 1 && want == Some(i)
  {
    hide Select, Placed;
    if IsSorted(t, i) {
      YieldsAtSorted(t, self, i, now);
      b, want := i, None;
    } else {
      b, want := |t| - 1, Some(i);
    }
  }

  lemma YieldsMember(t: Table, self: Hash, i: nat, n: Node, now: Time)
    requires Placed(t, self)
    ensures n in YieldsAt(t, self, i, now) <==> LiveAt(t, self, i, n, now)
  {
    hide Select, Placed, LeadingBitCount, StatusAt;
    if Pingable(n, now) && InTable(t, n) {
      var c :| 0 <= c < |t| && n in t[c];
      LiveInBucket(t, self, c, n, now);
    }
    if IsSorted(t, i) || |t| < MAX_BUCKETS {
      var b, want := YieldsAtSelects(t, self, i, now);
      SelectMembers(t[b], self, want, now, 0);
      if n in t[b] && Pingable(n, now) { LiveInBucket(t, self, b, n, now); }
      hide YieldsAt;
      assert n in YieldsAt(t, self, i, now) <==> SelectedFrom(t[b], self, want, now, 0, n);
    }
  }

  /** At index i the iterator hands out exactly the live nodes that share i leading bits with our id. */
  lemma YieldsAtIndex(t: Table, self: Hash, i: nat, now: Time)
    requires Placed(t, self)
    ensures AllDiffer(YieldsAt(t, self, i, now))
    ensures forall n :: n in YieldsAt(t, self, i, now) <==> LiveAt(t, self, i, n, now)
  {
    forall n
      ensures n in YieldsAt(t, self, i, now) <==> LiveAt(t, self, i, n, now)
    {
      YieldsMember(t, self, i, n, now);
    }
    if IsSorted(t, i) || |t| < MAX_BUCKETS {
      var b, want := YieldsAtSelects(t, self, i, now);
      assert BucketPlaced(t[b], self, b, |t|);
      SelectDiffers(t[b], self, want, now, 0);
    }
  }

  lemma {:induction false} YieldsAlongWalk(t: Table, self: Hash, w: seq<nat>, now: Time)
    requires Placed(t, self) && forall p, q :: 0 <= p < q < |w| ==> w[p] != w[q]
    ensures AllDiffer(YieldsAlong(t, self, w, now))
    ensures forall n :: n in YieldsAlong(t, self, w, now) <==> exists i :: i in w && LiveAt(t, self, i, n, now)
  {
    hide YieldsAt, Placed, LiveAt, SameNode, AllDiffer;
    if |w| == 0 {
      NoneDiffer();
    } else {
      YieldsAtIndex(t, self, w[0], now);
      YieldsAlongWalk(t, self, w[1..], now);
      var (x, y) := (YieldsAt(t, self, w[0], now), YieldsAlong(t, self, w[1..], now));
      assert w == [w[0]] + w[1..];
      forall p, q | 0 <= p < |x| && 0 <= q < |y|
        ensures !SameNode(x[p], y[q])
      {
        assert x[p] in x && y[q] in y;
        var i :| i in w[1..] && LiveAt(t, self, i, y[q], now);
        assert i != w[0];
        OtherIndex(t, self, w[0], i, x[p], y[q], now);
      }
      BothDiffer(x, y);
      forall n
        ensures n in x + y <==> exists i :: i in w && LiveAt(t, self, i, n, now)
      {
        assert n in x + y <==> n in x || n in y;
      }
    }
  }

  lemma NoneDiffer()
    ensures AllDiffer([])
  {}

  lemma BothDiffer(x: seq<Node>, y: seq<Node>)
    requires AllDiffer(x) && AllDiffer(y)
    requires forall p, q :: 0 <= p < |x| && 0 <= q < |y| ==> !SameNode(x[p], y[q])
    ensures AllDiffer(x + y)
  {
    hide SameNode;
  }

  lemma OtherIndex(t: Table, self: Hash, i: nat, j: nat, a: Node, b: Node, now: Time)
    requires i != j && LiveAt(t, self, i, a, now) && LiveAt(t, self, j, b, now)
    ensures !SameNode(a, b)
  {
    hide LeadingBitCount;
  }

  /** On any reachable table, `closest_nodes` yields every Good or Questionable node exactly once,
      whether it sits in a sorted bucket or the assorted one. */
  lemma ClosestYieldsEachOnce(t: Table, self: Hash, target: Hash, now: Time)
    requires Placed(t, self)
    ensures AllDiffer(Closest(t, self, target, now))
    ensures forall n :: n in Closest(t, self, target, now) <==> Pingable(n, now) && InTable(t, n)
  {
    hide Walk, YieldsAlong, LeadingBitCount, AllDiffer, Placed;
    var start := LeadingBitCount(self, target);
    var w := Walk(MAX_BUCKETS, start, start);
    WalkVisitsEachOnce(start);
    YieldsAlongWalk(t, self, w, now);
    forall n | Pingable(n, now) && InTable(t, n)
      ensures n in Closest(t, self, target, now)
    {
      var b :| 0 <= b < |t| && n in t[b];
      LiveInBucket(t, self, b, n, now);
      assert LiveAt(t, self, LeadingBitCount(self, n.id), n, now);
    }
  }

  /** So it is after any sequence of additions and status updates. */
  lemma RunClosest(self: Hash, ops: seq<Op>, target: Hash, now: Time)
    ensures var t := Run([EMPTY_SLOTS], self, ops);
      && AllDiffer(Closest(t, self, target, now))
      && forall n :: n in Closest(t, self, target, now) <==> Pingable(n, now) && InTable(t, n)
  {
    RunPlaced(self, ops);
    ClosestYieldsEachOnce(Run([EMPTY_SLOTS], self, ops), self, target, now);
  }

  // ---------------------------------------------------------------- how close they are

  /** Ids that leave ours where the target leaves it are strictly closer to the target than all others. */
  lemma StartBucketIsClosest(self: Hash, target: Hash, a: Hash, b: Hash)
    requires LeadingBitCount(self, target) == LeadingBitCount(self, a) < MAX_BUCKETS
    requires LeadingBitCount(self, b) != LeadingBitCount(self, target)
    ensures Less(Xor(target, a), Xor(target, b))
  {
    PrefixTriangle(self, target, a);
    PrefixTriangle(self, target, b);
    PrefixTriangle(self, b, target);
    PrefixSymmetric(b, target);
    LongerPrefixIsCloser(target, a, b);
  }

  /** At or left of the target's bucket, a higher bucket is strictly closer. */
  lemma HigherBucketIsCloser(self: Hash, target: Hash, a: Hash, b: Hash)
    requires LeadingBitCount(self, b) < LeadingBitCount(self, a) <= LeadingBitCount(self, target)
    ensures Less(Xor(target, a), Xor(target, b))
  {
    PrefixTriangle(self, b, target);
    PrefixSymmetric(b, target);
    PrefixTriangle(self, a, target);
    PrefixSymmetric(a, target);
    PrefixTriangle(self, a, b);
    PrefixTriangle(self, target, b);
    if LeadingBitCount(self, a) == LeadingBitCount(self, target) == MAX_BUCKETS {
      FullPrefix(self, a);
      FullPrefix(self, target);
    }
    LongerPrefixIsCloser(target, a, b);
  }

  /** How many nodes come from the target's own bucket; they come first. */
  function FromStart(t: Table, self: Hash, target: Hash, now: Time): nat {
    |YieldsAt(t, self, LeadingBitCount(self, target), now)|
  }

  lemma ClosestSplit(t: Table, self: Hash, target: Hash, now: Time)
    ensures var start := LeadingBitCount(self, target);
      var w := Walk(MAX_BUCKETS, start, start);
      |w| > 0 && Closest(t, self, target, now) == YieldsAt(t, self, start, now) + YieldsAlong(t, self, w[1..], now)
  {
    hide YieldsAt, LeadingBitCount;
    var start := LeadingBitCount(self, target);
    WalkUnrolled(MAX_BUCKETS, start, start);
    hide Walk;
  }

  lemma StartComesFirst(t: Table, self: Hash, target: Hash, now: Time)
    requires Placed(t, self)
    ensures var (l, m) := (Closest(t, self, target, now), FromStart(t, self, target, now));
      && m <= |l|
      && forall p :: 0 <= p < |l| ==>
           (p < m <==> LeadingBitCount(self, l[p].id) == LeadingBitCount(self, target))
  {
    hide Placed, Walk, YieldsAt, YieldsAlong, LeadingBitCount, Closest;
    var start := LeadingBitCount(self, target);
    var w := Walk(MAX_BUCKETS, start, start);
    WalkVisitsEachOnce(start);
    ClosestSplit(t, self, target, now);
    var (x, y) := (YieldsAt(t, self, start, now), YieldsAlong(t, self, w[1..], now));
    var l := Closest(t, self, target, now);
    forall p | 0 <= p < |l|
      ensures p < |x| <==> LeadingBitCount(self, l[p].id) == start
    {
      if p < |x| {
        BitsAt(t, self, start, l[p], now);
      } else {
        assert l[p] == y[p - |x|];
        BitsAlong(t, self, w[1..], start, l[p], now);
      }
    }
  }

  lemma BitsAt(t: Table, self: Hash, i: nat, n: Node, now: Time)
    requires Placed(t, self)
    ensures n in YieldsAt(t, self, i, now) ==> LeadingBitCount(self, n.id) == i
  {
    hide Placed, YieldsAt, LeadingBitCount, AllDiffer;
    YieldsAtIndex(t, self, i, now);
    assert n in YieldsAt(t, self, i, now) ==> LiveAt(t, self, i, n, now);
  }

  lemma BitsAlong(t: Table, self: Hash, w: seq<nat>, i: nat, n: Node, now: Time)
    requires Placed(t, self)
    requires i !in w && forall p, q :: 0 <= p < q < |w| ==> w[p] != w[q]
    ensures n in YieldsAlong(t, self, w, now) ==> LeadingBitCount(self, n.id) != i
  {
    hide Placed, YieldsAlong, LeadingBitCount, AllDiffer;
    YieldsAlongWalk(t, self, w, now);
    if n in YieldsAlong(t, self, w, now) {
      var j :| j in w && LiveAt(t, self, j, n, now);
    }
  }

  predicate Closer(target: Hash, a: Node, b: Node) {
    Less(Xor(target, a.id), Xor(target, b.id))
  }

  /** The first nodes handed out are those of the target's own bucket, and unless the target is our own
      id they are strictly closer to it than every node that follows; among nodes of buckets at or left
      of it, a higher bucket means strictly closer. */
  lemma ClosestComeFirst(t: Table, self: Hash, target: Hash, now: Time)
    requires Placed(t, self)
    ensures var (l, m) := (Closest(t, self, target, now), FromStart(t, self, target, now));
      && m <= |l|
      && (target != self ==> forall p, q :: 0 <= p < m <= q < |l| ==> Closer(target, l[p], l[q]))
    ensures var (l, start) := (Closest(t, self, target, now), LeadingBitCount(self, target));
      forall p, q :: 0 <= p < |l| && 0 <= q < |l| ==>
        LeadingBitCount(self, l[q].id) < LeadingBitCount(self, l[p].id) <= start ==> Closer(target, l[p], l[q])
  {
    StartComesFirst(t, self, target, now);
    FullPrefix(self, target);
    hide LeadingBitCount, Less, Closest, FromStart, Placed;
    var (l, m) := (Closest(t, self, target, now), FromStart(t, self, target, now));
    forall p, q | 0 <= p < m <= q < |l| && target != self
      ensures Closer(target, l[p], l[q])
    {
      StartBucketIsClosest(self, target, l[p].id, l[q].id);
    }
    forall p, q | 0 <= p < |l| && 0 <= q < |l|
      ensures LeadingBitCount(self, l[q].id) < LeadingBitCount(self, l[p].id) <= LeadingBitCount(self, target)
              ==> Closer(target, l[p], l[q])
    {
      if LeadingBitCount(self, l[q].id) < LeadingBitCount(self, l[p].id) <= LeadingBitCount(self, target) {
        HigherBucketIsCloser(self, target, l[p].id, l[q].id);
      }
    }
  }

  // ---------------------------------------------------------------- the iterator as an object

  /** The live nodes left in a bucket iterator. */
  function LiveIn(ns: seq<Node>, now: Time): seq<Node> {
    if |ns| == 0 then []
    else (if Pingable(ns[0], now) then [ns[0]] else []) + LiveIn(ns[1..], now)
  }

  /** Bucket index, node, handed out before. */
  type Assorted = seq<(nat, Node, bool)>

  predicate Due(a: (nat, Node, bool), i: nat, now: Time) {
    a.0 == i && !a.2 && Pingable(a.1, now)
  }

  /** The assorted nodes still due at index i, from slot k. */
  function DueAt(a: Assorted, i: nat, now: Time, k: nat): seq<Node>
    requires k <= |a|
    decreases |a| - k
  {
    if k == |a| then []
    else (if Due(a[k], i, now) then [a[k].1] else []) + DueAt(a, i, now, k + 1)
  }

  function SortedSlots(t: Table, i: nat): seq<Node> {
    if IsSorted(t, i) then t[i] else []
  }

  /** What is still to come after the current index. */
  function Ahead(t: Table, a: Assorted, start: nat, curr: nat, now: Time): seq<Node>
    requires start <= MAX_BUCKETS && (curr < MAX_BUCKETS || curr == start)
    decreases 2 * MAX_BUCKETS + 1 - Rank(start, curr)
  {
    NextIsNextRank(MAX_BUCKETS, start, curr);
    match NextIndex(MAX_BUCKETS, start, curr)
    case None => []
    case Some(next) => LiveIn(SortedSlots(t, next), now) + DueAt(a, next, now, 0) + Ahead(t, a, start, next, now)
  }

  class ClosestNodes {
    const buckets: Table
    const startIndex: nat
    const now: Time
    var currentIter: seq<Node>
    var currentIndex: nat
    var assorted: Assorted

    ghost predicate Valid()
      reads this
    {
      startIndex <= MAX_BUCKETS && (currentIndex < MAX_BUCKETS || currentIndex == startIndex)
    }

    /** The nodes not handed out yet, in order. */
    ghost function Remaining(): seq<Node>
      requires Valid()
      reads this
    {
      LiveIn(currentIter, now) + DueAt(assorted, currentIndex, now, 0)
      + Ahead(buckets, assorted, startIndex, currentIndex, now)
    }

    /** `ClosestNodes::new`: everything is still to be handed out. */
    constructor (buckets: Table, self: Hash, target: Hash, now: Time)
      ensures Valid() && this.buckets == buckets && this.now == now
      ensures Remaining() == Closest(buckets, self, target, now)
    {
      hide LiveIn, DueAt, Ahead, YieldsAlong, Walk, LeadingBitCount;
      this.buckets := buckets;
      this.now := now;
      startIndex := LeadingBitCount(self, target);
      currentIndex := LeadingBitCount(self, target);
      currentIter := SortedSlots(buckets, LeadingBitCount(self, target));
      var a: Assorted := [];
      if |buckets| != MAX_BUCKETS {
        var last := buckets[|buckets| - 1];
        for i := 0 to MAX_BUCKET_SIZE
          invariant |a| == i
          invariant forall k :: 0 <= k < i ==> a[k] == (LeadingBitCount(self, last[k].id), last[k], false)
        {
          a := a + [(LeadingBitCount(self, last[i].id), last[i], false)];
        }
      }
      assorted := a;
      NothingHandedOut(buckets, self, a, LeadingBitCount(self, target), now);
    }

    /** `ClosestNodes::next` hands out the first remaining node, and None only when none remains. */
    method Next() returns (r: Option<Node>)
      requires Valid()
      modifies this
      ensures Valid()
      ensures r.Some? ==> old(Remaining()) == [r.value] + Remaining()
      ensures r.None? ==> old(Remaining()) == []
      decreases 2 * MAX_BUCKETS + 1 - Rank(startIndex, currentIndex)
    {
      hide Ahead, NextIndex;
      while |currentIter| > 0
        invariant Valid() && unchanged(`currentIndex) && unchanged(`assorted)
        invariant LiveIn(currentIter, now) == LiveIn(old(currentIter), now)
        decreases |currentIter|
      {
        var node := currentIter[0];
        currentIter := currentIter[1..];
        if Pingable(node, now) {
          return Some(node);
        }
      }
      var k := 0;
      while k < |assorted| && !Due(assorted[k], currentIndex, now)
        invariant 0 <= k <= |assorted|
        invariant DueAt(assorted, currentIndex, now, k) == DueAt(assorted, currentIndex, now, 0)
        invariant forall j :: 0 <= j < k ==> !Due(assorted[j], currentIndex, now)
      {
        k := k + 1;
      }
      if k < |assorted| {
        MarkHandedOut(buckets, assorted, startIndex, currentIndex, now, k);
        r := Some(assorted[k].1);
        assorted := assorted[k := (assorted[k].0, assorted[k].1, true)];
        return;
      }
      NextIsNextRank(MAX_BUCKETS, startIndex, currentIndex);
      MoveOn(buckets, assorted, startIndex, currentIndex, now);
      var next := NextIndex(MAX_BUCKETS, startIndex, currentIndex);
      if next.None? {
        return None;
      }
      currentIndex := next.value;
      currentIter := SortedSlots(buckets, currentIndex);
      r := Next();
    }
  }

  lemma MoveOn(t: Table, a: Assorted, start: nat, curr: nat, now: Time)
    requires start <= MAX_BUCKETS && (curr < MAX_BUCKETS || curr == start)
    ensures match NextIndex(MAX_BUCKETS, start, curr)
      case None => Ahead(t, a, start, curr, now) == []
      case Some(next) =>
        && next < MAX_BUCKETS
        && Ahead(t, a, start, curr, now)
           == LiveIn(SortedSlots(t, next), now) + DueAt(a, next, now, 0) + Ahead(t, a, start, next, now)
  {
    NextIsNextRank(MAX_BUCKETS, start, curr);
    hide NextIndex;
  }

  lemma {:induction false} DueElsewhere(a: Assorted, a': Assorted, i: nat, now: Time, k: nat)
    requires |a| == |a'| && k <= |a|
    requires forall j :: k <= j < |a| ==> a[j] == a'[j] || (a[j].0 != i && a'[j].0 != i)
    ensures DueAt(a, i, now, k) == DueAt(a', i, now, k)
    decreases |a| - k
  {
    if k < |a| { DueElsewhere(a, a', i, now, k + 1); }
  }

  lemma {:induction false} DueMarked(a: Assorted, i: nat, now: Time, m: nat, k: nat)
    requires k <= m < |a| && Due(a[m], i, now)
    requires forall j :: k <= j < m ==> !Due(a[j], i, now)
    ensures DueAt(a, i, now, k) == [a[m].1] + DueAt(a[m := (a[m].0, a[m].1, true)], i, now, k)
    decreases m - k
  {
    var a' := a[m := (a[m].0, a[m].1, true)];
    if k == m {
      DueElsewhere(a, a', i, now, k + 1);
    } else {
      DueMarked(a, i, now, m, k + 1);
    }
  }

  lemma {:induction false} AheadElsewhere(t: Table, a: Assorted, a': Assorted, start: nat, curr: nat, now: Time, i: nat)
    requires start <= MAX_BUCKETS && (curr < MAX_BUCKETS || curr == start)
    requires |a| == |a'| && forall j :: 0 <= j < |a| ==> a[j] == a'[j] || (a[j].0 == a'[j].0 == i)
    requires Rank(start, i) <= Rank(start, curr)
    ensures Ahead(t, a, start, curr, now) == Ahead(t, a', start, curr, now)
    decreases 2 * MAX_BUCKETS + 1 - Rank(start, curr)
  {
    NextIsNextRank(MAX_BUCKETS, start, curr);
    var next := NextIndex(MAX_BUCKETS, start, curr);
    hide NextIndex, LiveIn, DueAt;
    if next.Some? {
      DueElsewhere(a, a', next.value, now, 0);
      AheadElsewhere(t, a, a', start, next.value, now, i);
    }
  }

  lemma MarkHandedOut(t: Table, a: Assorted, start: nat, curr: nat, now: Time, m: nat)
    requires start <= MAX_BUCKETS && (curr < MAX_BUCKETS || curr == start)
    requires m < |a| && Due(a[m], curr, now) && DueAt(a, curr, now, m) == DueAt(a, curr, now, 0)
    requires forall j :: 0 <= j < m ==> !Due(a[j], curr, now)
    ensures var a' := a[m := (a[m].0, a[m].1, true)];
      && DueAt(a, curr, now, 0) == [a[m].1] + DueAt(a', curr, now, 0)
      && Ahead(t, a, start, curr, now) == Ahead(t, a', start, curr, now)
  {
    DueMarked(a, curr, now, m, 0);
    AheadElsewhere(t, a, a[m := (a[m].0, a[m].1, true)], start, curr, now, curr);
  }

  lemma {:induction false} LiveIsSelect(s: Slots, self: Hash, now: Time, k: nat)
    requires k <= MAX_BUCKET_SIZE
    ensures LiveIn(s[k..], now) == Select(s, self, None, now, k)
    decreases MAX_BUCKET_SIZE - k
  {
    if k < MAX_BUCKET_SIZE {
      LiveIsSelect(s, self, now, k + 1);
      assert s[k..][1..] == s[k + 1..] && s[k..][0] == s[k];
      assert Wanted(s[k], self, None, now) <==> Pingable(s[k], now);
      hide Wanted, Pingable;
    }
  }

  lemma {:induction false} DueIsSelect(s: Slots, self: Hash, a: Assorted, i: nat, now: Time, k: nat)
    requires |a| == MAX_BUCKET_SIZE && k <= MAX_BUCKET_SIZE
    requires forall j :: 0 <= j < MAX_BUCKET_SIZE ==> a[j] == (LeadingBitCount(self, s[j].id), s[j], false)
    ensures DueAt(a, i, now, k) == Select(s, self, Some(i), now, k)
    decreases MAX_BUCKET_SIZE - k
  {
    hide LeadingBitCount, StatusAt;
    if k < MAX_BUCKET_SIZE { DueIsSelect(s, self, a, i, now, k + 1); }
  }

  /** The array precomputed for the assorted bucket, nothing handed out yet. */
  predicate FreshAssorted(t: Table, self: Hash, a: Assorted) {
    if |t| == MAX_BUCKETS then a == []
    else |a| == MAX_BUCKET_SIZE && forall j :: 0 <= j < MAX_BUCKET_SIZE ==>
           a[j] == (LeadingBitCount(self, t[|t| - 1][j].id), t[|t| - 1][j], false)
  }

  lemma YieldsFresh(t: Table, self: Hash, a: Assorted, i: nat, now: Time)
    requires FreshAssorted(t, self, a)
    ensures LiveIn(SortedSlots(t, i), now) + DueAt(a, i, now, 0) == YieldsAt(t, self, i, now)
  {
    if IsSorted(t, i) {
      LiveIsSelect(t[i], self, now, 0);
      assert t[i][0..] == t[i];
    }
    if |t| < MAX_BUCKETS {
      DueIsSelect(t[|t| - 1], self, a, i, now, 0);
    }
    hide Select, LeadingBitCount;
  }

  lemma {:induction false} AheadFresh(t: Table, self: Hash, a: Assorted, start: nat, curr: nat, now: Time)
    requires start <= MAX_BUCKETS && (curr < MAX_BUCKETS || curr == start) && FreshAssorted(t, self, a)
    ensures Ahead(t, a, start, curr, now) == YieldsAlong(t, self, Walk(MAX_BUCKETS, start, curr)[1..], now)
    decreases 2 * MAX_BUCKETS + 1 - Rank(start, curr)
  {
    NextIsNextRank(MAX_BUCKETS, start, curr);
    var next := NextIndex(MAX_BUCKETS, start, curr);
    hide NextIndex, LiveIn, DueAt, YieldsAt, FreshAssorted;
    if next.Some? {
      YieldsFresh(t, self, a, next.value, now);
      AheadFresh(t, self, a, start, next.value, now);
      var w := Walk(MAX_BUCKETS, start, next.value);
      assert Walk(MAX_BUCKETS, start, curr)[1..] == w;
      assert w[0] == next.value;
    }
  }

  lemma NothingHandedOut(t: Table, self: Hash, a: Assorted, start: nat, now: Time)
    requires start <= MAX_BUCKETS && FreshAssorted(t, self, a)
    ensures LiveIn(SortedSlots(t, start), now) + DueAt(a, start, now, 0) + Ahead(t, a, start, start, now)
         == YieldsAlong(t, self, Walk(MAX_BUCKETS, start, start), now)
  {
    YieldsFresh(t, self, a, start, now);
    AheadFresh(t, self, a, start, start, now);
  }
}
