/** The node lists a lookup keeps: candidates sorted by distance and the picks for the next round. */
module LookupNodes {
  import opened ShaHash
  import opened RoutingBucket

  const INITIAL_PICK_NUM := 4
  const ITERATIVE_PICK_NUM := 3
  const ANNOUNCE_PICK_NUM := 8

  /** A node as lookups compare it: by id and address. */
  datatype Contact = Contact(id: Hash, addr: SocketAddr)

  /** Distance of a node from the target. */
  function Dist(target: Hash, c: Contact): Hash {
    Xor(target, c.id)
  }

  /** The order of distances, read as numbers. */
  predicate Lt(a: Hash, b: Hash)
    ensures Lt(a, b) <==> Less(a, b)
  {
    LessIsNumeric(a, b);
    Value(a) < Value(b)
  }

  // ---------------------------------------------------------------- the sorted list

  /** (Distance, Node, requested before). */
  datatype Entry = Entry(dist: Hash, node: Contact, pinged: bool)

  predicate Ascending(s: seq<Entry>) {
    forall i, j :: 0 <= i < j < |s| ==> Value(s[i].dist) <= Value(s[j].dist)
  }

  /** Sorted, and every stored distance is the true one. */
  predicate SortedFor(s: seq<Entry>, target: Hash) {
    Ascending(s) && forall i :: 0 <= i < |s| ==> s[i].dist == Dist(target, s[i].node)
  }

  datatype Search = Found(index: nat) | Missing(index: nat)

  /** `binary_search_by` on the distance, within [lo, hi). */
  function SearchDist(s: seq<Entry>, d: Hash, lo: nat, hi: nat): (r: Search)
    requires lo <= hi <= |s|
    ensures r.Found? ==> lo <= r.index < hi && s[r.index].dist == d
    ensures r.Missing? ==> lo <= r.index <= hi
    decreases hi - lo
  {
    if lo == hi then Missing(lo)
    else
      var mid := (lo + hi) / 2;
      if s[mid].dist == d then Found(mid)
      else if Lt(s[mid].dist, d) then SearchDist(s, d, mid + 1, hi)
      else SearchDist(s, d, lo, mid)
  }

  /** The entries before i are closer than the distance, those from i on are farther. */
  predicate Closer(s: seq<Entry>, i: nat, d: Hash) {
    i <= |s| && forall j :: 0 <= j < i ==> Value(s[j].dist) < Value(d)
  }

  predicate Farther(s: seq<Entry>, i: nat, d: Hash) {
    forall j :: i <= j < |s| ==> Value(d) < Value(s[j].dist)
  }

  /** A distance that differs from that of an entry is above everything up to it or below everything from
      it on. */
  lemma Divides(s: seq<Entry>, d: Hash, mid: nat)
    requires Ascending(s) && mid < |s| && s[mid].dist != d
    ensures if Lt(s[mid].dist, d) then Closer(s, mid + 1, d) else Farther(s, mid, d)
  {
    LessIsNumeric(s[mid].dist, d);
    hide Value, Less;
  }

  lemma {:induction false} SearchFinds(s: seq<Entry>, d: Hash, lo: nat, hi: nat)
    requires Ascending(s) && lo <= hi <= |s| && Closer(s, lo, d) && Farther(s, hi, d)
    ensures var r := SearchDist(s, d, lo, hi); r.Missing? ==> Closer(s, r.index, d) && Farther(s, r.index, d)
    decreases hi - lo
  {
    hide Closer, Farther, Ascending, Lt;
    if lo < hi {
      var mid := (lo + hi) / 2;
      if s[mid].dist != d { Divides(s, d, mid); }
      if s[mid].dist == d {
      } else if Lt(s[mid].dist, d) {
        SearchFinds(s, d, mid + 1, hi);
      } else {
        SearchFinds(s, d, lo, mid);
      }
    }
  }

  function InsertAt(s: seq<Entry>, i: nat, e: Entry): seq<Entry>
    requires i <= |s|
  {
    s[..i] + [e] + s[i..]
  }

  /** The result can be used on the list: an existing index, or one to insert at. */
  predicate Usable(s: seq<Entry>, r: Search) {
    r.index <= |s| && (r.Found? ==> r.index < |s|)
  }

  /** `insert_sorted_node` with a given search result. */
  function InsertWith(s: seq<Entry>, target: Hash, node: Contact, pinged: bool, r: Search): seq<Entry>
    requires Usable(s, r)
  {
    if r.Missing? || s[r.index].node != node then InsertAt(s, r.index, Entry(Dist(target, node), node, pinged)) else s
  }

  /** `insert_sorted_node` with the search above. */
  function InsertNode(s: seq<Entry>, target: Hash, node: Contact, pinged: bool): seq<Entry>
  {
    InsertWith(s, target, node, pinged, SearchDist(s, Dist(target, node), 0, |s|))
  }

  lemma InsertAtIndex(s: seq<Entry>, i: nat, e: Entry)
    requires i <= |s|
    ensures var r := InsertAt(s, i, e);
      && |r| == |s| + 1
      && r[i] == e
      && (forall j :: 0 <= j < i ==> r[j] == s[j])
      && (forall j :: i < j <= |s| ==> r[j] == s[j - 1])
    ensures multiset(InsertAt(s, i, e)) == multiset(s) + multiset{e}
  {
    assert s == s[..i] + s[i..];
  }

  /** The index the search ends at is one the distance fits at. */
  predicate FitsAt(s: seq<Entry>, i: nat, d: Hash) {
    && i <= |s|
    && (forall j :: 0 <= j < i ==> Value(s[j].dist) <= Value(d))
    && (forall j :: i <= j < |s| ==> Value(d) <= Value(s[j].dist))
  }

  /** What `binary_search_by` promises on a sorted list: any match, or the place to insert. */
  predicate SearchResult(s: seq<Entry>, d: Hash, r: Search) {
    && Usable(s, r)
    && (r.Found? ==> s[r.index].dist == d)
    && (r.Missing? ==> Closer(s, r.index, d) && Farther(s, r.index, d))
  }

  /** Bisection keeps that promise. */
  lemma SearchDistResult(s: seq<Entry>, d: Hash)
    requires Ascending(s)
    ensures SearchResult(s, d, SearchDist(s, d, 0, |s|))
  {
    SearchFinds(s, d, 0, |s|);
    hide SearchDist, Value;
  }

  lemma SearchFits(s: seq<Entry>, d: Hash, r: Search)
    requires Ascending(s) && SearchResult(s, d, r)
    ensures FitsAt(s, r.index, d)
  {
    hide Value;
  }

  lemma InsertAtSorted(s: seq<Entry>, i: nat, e: Entry, target: Hash)
    requires SortedFor(s, target) && FitsAt(s, i, e.dist) && e.dist == Dist(target, e.node)
    ensures SortedFor(InsertAt(s, i, e), target)
  {
    InsertAtIndex(s, i, e);
    hide InsertAt, Value, Dist;
    var r := InsertAt(s, i, e);
    forall j | 0 <= j < |r|
      ensures r[j] == if j < i then s[j] else if j == i then e else s[j - 1]
    {}
  }

  /** Whatever match or place the search yields, inserting keeps the list sorted with true distances, keeps
      every entry, and adds at most the node. */
  lemma InsertKeepsSorted(s: seq<Entry>, target: Hash, node: Contact, pinged: bool, r: Search)
    requires SortedFor(s, target) && SearchResult(s, Dist(target, node), r)
    ensures var s' := InsertWith(s, target, node, pinged, r);
      && SortedFor(s', target)
      && Listed(s', node)
      && (s' == s || multiset(s') == multiset(s) + multiset{Entry(Dist(target, node), node, pinged)})
  {
    var e := Entry(Dist(target, node), node, pinged);
    SearchFits(s, e.dist, r);
    InsertAtSorted(s, r.index, e, target);
    InsertAtIndex(s, r.index, e);
    hide SearchDist, SortedFor, InsertAt, FitsAt;
  }

  lemma InsertNodeSorted(s: seq<Entry>, target: Hash, node: Contact, pinged: bool)
    requires SortedFor(s, target)
    ensures SortedFor(InsertNode(s, target, node, pinged), target) && Listed(InsertNode(s, target, node, pinged), node)
  {
    SearchDistResult(s, Dist(target, node));
    hide SearchDist, SearchResult, InsertWith;
    InsertKeepsSorted(s, target, node, pinged, SearchDist(s, Dist(target, node), 0, |s|));
  }

  predicate Distinct(s: seq<Entry>) {
    forall i, j :: 0 <= i < j < |s| ==> s[i].node != s[j].node
  }

  predicate Listed(s: seq<Entry>, node: Contact) {
    exists i :: 0 <= i < |s| && s[i].node == node
  }

  /** Whatever match or place the search yields, a list without duplicates stays so exactly when the node
      is new or the search happens to land on it rather than on another node with the same id. */
  lemma InsertKeepsDistinct(s: seq<Entry>, target: Hash, node: Contact, pinged: bool, r: Search)
    requires SortedFor(s, target) && Distinct(s) && SearchResult(s, Dist(target, node), r)
    ensures Distinct(InsertWith(s, target, node, pinged, r))
       <==> !Listed(s, node) || (r.Found? && s[r.index].node == node)
  {
    InsertAtDistinct(s, r.index, Entry(Dist(target, node), node, pinged));
    hide SortedFor, InsertAt, Distinct, Listed, SearchResult;
  }

  /** With two nodes of one id listed, every search lands on one of them, and inserting the other again
      duplicates it. */
  lemma SharedIdDuplicates(target: Hash, a: Contact, b: Contact, pinged: bool, r: Search)
    requires a.id == b.id && a != b
    requires SearchResult([Entry(Dist(target, a), a, false), Entry(Dist(target, b), b, false)], Dist(target, a), r)
    ensures var s := [Entry(Dist(target, a), a, false), Entry(Dist(target, b), b, false)];
      SortedFor(s, target) && Distinct(s) && !Distinct(InsertWith(s, target, if r.index == 0 then b else a, pinged, r))
  {
    var s := [Entry(Dist(target, a), a, false), Entry(Dist(target, b), b, false)];
    hide Value, Dist;
    assert Dist(target, a) == Dist(target, b) by { SameIdSameDist(target, a, b); }
    var other := if r.index == 0 then b else a;
    assert s[1].node == b && s[0].node == a;
    InsertKeepsDistinct(s, target, other, pinged, r);
  }

  lemma SameIdSameDist(target: Hash, a: Contact, b: Contact)
    requires a.id == b.id
    ensures Dist(target, a) == Dist(target, b)
  {}

  lemma InsertAtDistinct(s: seq<Entry>, i: nat, e: Entry)
    requires i <= |s| && Distinct(s)
    ensures Distinct(InsertAt(s, i, e)) <==> !Listed(s, e.node)
  {
    InsertAtIndex(s, i, e);
    hide InsertAt;
    var r := InsertAt(s, i, e);
    if Listed(s, e.node) {
      var j :| 0 <= j < |s| && s[j].node == e.node;
      var at := if j < i then j else j + 1;
      assert r[at].node == r[i].node;
    } else {
      forall j, k | 0 <= j < k < |r|
        ensures r[j].node != r[k].node
      {
        OldOrNew(s, i, e, r, j);
        OldOrNew(s, i, e, r, k);
      }
    }
  }

  lemma OldOrNew(s: seq<Entry>, i: nat, e: Entry, r: seq<Entry>, j: nat)
    requires i <= |s| && |r| == |s| + 1 && j < |r| && r[i] == e
    requires j < i ==> r[j] == s[j]
    requires i < j ==> r[j] == s[j - 1]
    ensures r[j] == if j < i then s[j] else if j == i then e else s[j - 1]
  {}

  /** While no two listed nodes share an id, duplicates cannot arise. */
  lemma UniqueIdsNoDuplicates(s: seq<Entry>, target: Hash, node: Contact, pinged: bool, r: Search)
    requires SortedFor(s, target) && Distinct(s) && SearchResult(s, Dist(target, node), r)
    requires forall i :: 0 <= i < |s| && s[i].node.id == node.id ==> s[i].node == node
    ensures Distinct(InsertWith(s, target, node, pinged, r))
  {
    InsertKeepsDistinct(s, target, node, pinged, r);
    hide Value, InsertWith, Dist;
    if r.Found? {
      XorInjective(target, s[r.index].node.id, node.id) by { DistIsXor(target, s[r.index].node); DistIsXor(target, node); }
    }
  }

  lemma DistIsXor(target: Hash, c: Contact)
    ensures Dist(target, c) == Xor(target, c.id)
  {}

  // ---------------------------------------------------------------- picks

  /** A slot of the pick array: a node and whether the slot is in use. */
  type Picks = p: seq<(Contact, bool)> | |p| == ITERATIVE_PICK_NUM witness [DUMMY, DUMMY, DUMMY]

  const DUMMY_ID: Hash := [0, 0, 0, 0, 0, 0, 0, 0, 0, 0, 0, 0, 0, 0, 0, 0, 0, 0, 0, 0]
  const DUMMY: (Contact, bool) := (Contact(DUMMY_ID, SocketAddr(0, 0)), false)
  const NO_PICKS: Picks := [DUMMY, DUMMY, DUMMY]

  /** `insert_closest_nodes` from slot i. */
  function InsertPick(p: Picks, target: Hash, c: Contact, i: nat): (r: Picks)
    requires i <= ITERATIVE_PICK_NUM
    decreases ITERATIVE_PICK_NUM - i
  {
    if i == ITERATIVE_PICK_NUM then p
    else if !p[i].1 || Lt(Dist(target, c), Dist(target, p[i].0)) then p[i := (c, true)]
    else InsertPick(p, target, c, i + 1)
  }

  /** `pick_iterate_nodes`. */
  function PickNodes(cs: seq<Contact>, target: Hash): (r: Picks)
  {
    if |cs| == 0 then NO_PICKS else InsertPick(PickNodes(cs[..|cs| - 1], target), target, cs[|cs| - 1], 0)
  }

  /** Used slots are a prefix in non-decreasing distance, drawn from the candidates seen, and slot 0 is
      the closest of all of them. */
  predicate PicksFor(p: Picks, target: Hash, seen: seq<Contact>) {
    && (forall i, j :: 0 <= i < j < ITERATIVE_PICK_NUM && p[j].1 ==>
          p[i].1 && Value(Dist(target, p[i].0)) <= Value(Dist(target, p[j].0)))
    && (forall i :: 0 <= i < ITERATIVE_PICK_NUM && p[i].1 ==> p[i].0 in seen)
    && (p[0].1 <==> |seen| > 0)
    && (forall c :: c in seen ==> Value(Dist(target, p[0].0)) <= Value(Dist(target, c)))
  }

  /** Slot i takes the node: it is free or holds a more distant one. */
  predicate Takes(p: Picks, target: Hash, c: Contact, i: nat)
    requires i < ITERATIVE_PICK_NUM
  {
    !p[i].1 || Value(Dist(target, c)) < Value(Dist(target, p[i].0))
  }

  lemma InsertPickUnrolled(p: Picks, target: Hash, c: Contact)
    ensures InsertPick(p, target, c, 0)
         == if Takes(p, target, c, 0) then p[0 := (c, true)]
            else if Takes(p, target, c, 1) then p[1 := (c, true)]
            else if Takes(p, target, c, 2) then p[2 := (c, true)]
            else p
  {
    hide Value, Dist;
    assert InsertPick(p, target, c, 2) == if Takes(p, target, c, 2) then p[2 := (c, true)] else p;
  }

  lemma InsertPickKeeps(p: Picks, target: Hash, seen: seq<Contact>, c: Contact)
    requires PicksFor(p, target, seen)
    ensures PicksFor(InsertPick(p, target, c, 0), target, seen + [c])
  {
    InsertPickUnrolled(p, target, c);
    hide Value, Dist, InsertPick;
    assert forall x :: x in seen + [c] <==> x in seen || x == c;
  }

  /** The picks of a round: a prefix of used slots, closest first, slot 0 the minimum of all candidates. */
  lemma {:induction false} PickNodesOk(cs: seq<Contact>, target: Hash)
    ensures PicksFor(PickNodes(cs, target), target, cs)
  {
    hide Value, Dist, InsertPick;
    if |cs| > 0 {
      hide PicksFor;
      PickNodesOk(cs[..|cs| - 1], target);
      InsertPickKeeps(PickNodes(cs[..|cs| - 1], target), target, cs[..|cs| - 1], cs[|cs| - 1]);
      assert cs == cs[..|cs| - 1] + [cs[|cs| - 1]];
    }
  }
}
