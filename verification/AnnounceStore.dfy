/** Announced contacts: a map of lists with a queue of expirations, against a map of announce times. */
module AnnounceStore {
  import opened Common
  import opened ShaHash
  import opened RoutingBucket

  const MAX_ITEMS_STORED := 500
  const EXPIRATION_TIME: Time := 24 * 60 * MINUTE

  /** An announced contact and when it was announced; compared by contact only. */
  datatype Item = Item(hash: Hash, addr: SocketAddr, inserted: Time)

  type Key = (Hash, SocketAddr)

  function KeyOf(i: Item): Key {
    (i.hash, i.addr)
  }

  predicate IsExpired(i: Item, now: Time) {
    now - i.inserted >= EXPIRATION_TIME
  }

  datatype Store = Store(storage: map<Hash, seq<Item>>, expires: seq<Item>)

  const EMPTY := Store(map[], [])

  // ---------------------------------------------------------------- the operations

  /** `retain` everything but the given contact. */
  function Without(items: seq<Item>, k: Key): (r: seq<Item>)
    ensures forall i :: i in r <==> i in items && KeyOf(i) != k
  {
    if |items| == 0 then []
    else
      var last := items[|items| - 1];
      assert items == items[..|items| - 1] + [last];
      if KeyOf(last) == k then Without(items[..|items| - 1], k)
      else Without(items[..|items| - 1], k) + [last]
  }

  /** Remove one contact, and its list when that was the only one. */
  function DropContact(storage: map<Hash, seq<Item>>, k: Key): map<Hash, seq<Item>> {
    if k.0 !in storage then storage
    else
      var items := Without(storage[k.0], k);
      if items == [] then storage - {k.0} else storage[k.0 := items]
  }

  /** How many items at the front of the queue are expired. */
  function ExpiredPrefix(es: seq<Item>, now: Time, n: nat): (r: nat)
    requires n <= |es|
    ensures n <= r <= |es|
    ensures forall j :: n <= j < r ==> IsExpired(es[j], now)
    ensures r < |es| ==> !IsExpired(es[r], now)
    decreases |es| - n
  {
    if n < |es| && IsExpired(es[n], now) then ExpiredPrefix(es, now, n + 1) else n
  }

  function DropContacts(storage: map<Hash, seq<Item>>, es: seq<Item>): map<Hash, seq<Item>> {
    if |es| == 0 then storage
    else DropContact(DropContacts(storage, es[..|es| - 1]), KeyOf(es[|es| - 1]))
  }

  /** `remove_expired_items`. */
  function RemoveExpired(s: Store, now: Time): Store {
    var n := ExpiredPrefix(s.expires, now, 0);
    Store(DropContacts(s.storage, s.expires[..n]), s.expires[n..])
  }

  predicate InList(s: Store, k: Key) {
    k.0 in s.storage && exists i :: i in s.storage[k.0] && KeyOf(i) == k
  }

  /** `insert_contact`. */
  function InsertContact(s: Store, item: Item): (r: (Store, Option<bool>)) {
    var k := KeyOf(item);
    if InList(s, k) then (s, Some(true))
    else if |s.expires| < MAX_ITEMS_STORED then
      var items := if k.0 in s.storage then s.storage[k.0] + [item] else [item];
      (s.(storage := s.storage[k.0 := items]), Some(false))
    else (s, None)
  }

  /** `add`: the clock is read once for pruning and once for the new item. */
  function Add(s: Store, k: Key, currTime: Time, inserted: Time): (r: (Store, bool)) {
    AddPruned(RemoveExpired(s, currTime), Item(k.0, k.1, inserted))
  }

  /** What `add` does after pruning. */
  function AddPruned(s0: Store, item: Item): (r: (Store, bool)) {
    var (s1, outcome) := InsertContact(s0, item);
    match outcome
    case None => (s1, false)
    case Some(known) =>
      (s1.(expires := (if known then Without(s1.expires, KeyOf(item)) else s1.expires) + [item]), true)
  }

  /** `find`: the addresses stored for the hash, in list order. */
  function Find(s: Store, h: Hash, now: Time): (r: (Store, seq<SocketAddr>)) {
    var s1 := RemoveExpired(s, now);
    (s1, if h in s1.storage then Addresses(s1.storage[h]) else [])
  }

  function Addresses(items: seq<Item>): (r: seq<SocketAddr>)
    ensures |r| == |items|
    ensures forall i :: 0 <= i < |items| ==> r[i] == items[i].addr
  {
    seq(|items|, i requires 0 <= i < |items| => items[i].addr)
  }

  // ---------------------------------------------------------------- the simple form: announce times

  type Times = map<Key, Time>

  /** The queue as a map from contact to announce time. */
  function TimesOf(es: seq<Item>): Times {
    if |es| == 0 then map[] else TimesOf(es[..|es| - 1])[KeyOf(es[|es| - 1]) := es[|es| - 1].inserted]
  }

  /** Forget what was announced 24 hours ago or earlier. */
  function Prune(m: Times, now: Time): (r: Times)
    ensures forall k :: k in r <==> k in m && now - m[k] < EXPIRATION_TIME
    ensures forall k :: k in r ==> r[k] == m[k]
  {
    map k | k in m && now - m[k] < EXPIRATION_TIME :: m[k]
  }

  function AddTime(m: Times, k: Key, currTime: Time, inserted: Time): (r: (Times, bool)) {
    var p := Prune(m, currTime);
    if k in p || |p| < MAX_ITEMS_STORED then (p[k := inserted], true) else (p, false)
  }

  // ---------------------------------------------------------------- the invariant

  predicate DistinctKeys(items: seq<Item>) {
    forall i, j :: 0 <= i < j < |items| ==> KeyOf(items[i]) != KeyOf(items[j])
  }

  predicate InOrder(es: seq<Item>, clock: Time) {
    && (forall i, j :: 0 <= i < j < |es| ==> es[i].inserted <= es[j].inserted)
    && (forall i :: 0 <= i < |es| ==> es[i].inserted <= clock)
  }

  predicate HasKey(items: seq<Item>, k: Key) {
    exists i :: i in items && KeyOf(i) == k
  }

  /** Every list is non-empty, holds only contacts of its hash, each once. */
  predicate ListsOk(storage: map<Hash, seq<Item>>) {
    forall h :: h in storage ==>
      && |storage[h]| > 0
      && DistinctKeys(storage[h])
      && forall i :: i in storage[h] ==> i.hash == h
  }

  /** The lists hold exactly the contacts of the queue. */
  ghost predicate Agree(storage: map<Hash, seq<Item>>, es: seq<Item>) {
    forall k: Key :: (k.0 in storage && HasKey(storage[k.0], k)) <==> HasKey(es, k)
  }

  /** Queue and lists hold the same contacts once each, in announce order, at most 500. */
  ghost predicate Valid(s: Store, clock: Time) {
    && DistinctKeys(s.expires)
    && InOrder(s.expires, clock)
    && ListsOk(s.storage)
    && Agree(s.storage, s.expires)
    && |s.expires| <= MAX_ITEMS_STORED
  }

  // ---------------------------------------------------------------- lists

  lemma {:induction false} WithoutDistinct(items: seq<Item>, k: Key)
    requires DistinctKeys(items)
    ensures DistinctKeys(Without(items, k))
  {
    if |items| > 0 {
      WithoutDistinct(items[..|items| - 1], k);
      var (init, last) := (items[..|items| - 1], items[|items| - 1]);
      var w := Without(init, k);
      forall i | 0 <= i < |w|
        ensures KeyOf(w[i]) != KeyOf(last)
      {
        assert w[i] in w;
      }
    }
  }

  lemma {:induction false} WithoutOrdered(items: seq<Item>, k: Key, clock: Time)
    requires InOrder(items, clock)
    ensures InOrder(Without(items, k), clock)
  {
    if |items| > 0 {
      WithoutOrdered(items[..|items| - 1], k, clock);
      var (init, last) := (items[..|items| - 1], items[|items| - 1]);
      var w := Without(init, k);
      forall i | 0 <= i < |w|
        ensures w[i].inserted <= last.inserted
      {
        assert w[i] in w;
      }
    }
  }

  lemma {:induction false} WithoutLength(items: seq<Item>, k: Key)
    requires DistinctKeys(items)
    ensures |Without(items, k)| == |items| - (if HasKey(items, k) then 1 else 0)
  {
    if |items| > 0 {
      var (init, last) := (items[..|items| - 1], items[|items| - 1]);
      WithoutLength(init, k);
      assert items == init + [last];
      if HasKey(init, k) {
        var i :| i in init && KeyOf(i) == k;
        assert i in items;
      }
    }
  }

  lemma DropContactKeeps(storage: map<Hash, seq<Item>>, k: Key)
    requires ListsOk(storage)
    ensures var storage' := DropContact(storage, k);
      && ListsOk(storage')
      && forall k': Key :: (k'.0 in storage' && HasKey(storage'[k'.0], k'))
           <==> (k'.0 in storage && HasKey(storage[k'.0], k') && k' != k)
  {
    if k.0 in storage {
      var items := Without(storage[k.0], k);
      WithoutDistinct(storage[k.0], k);
      assert items != [] ==> items[0] in items;
      forall k': Key | k'.0 == k.0
        ensures HasKey(items, k') <==> HasKey(storage[k.0], k') && k' != k
      {}
    }
  }

  lemma {:induction false} DropContactsKeeps(storage: map<Hash, seq<Item>>, es: seq<Item>)
    requires ListsOk(storage)
    ensures var storage' := DropContacts(storage, es);
      && ListsOk(storage')
      && forall k: Key :: (k.0 in storage' && HasKey(storage'[k.0], k))
           <==> (k.0 in storage && HasKey(storage[k.0], k) && !HasKey(es, k))
  {
    hide ListsOk, DropContact;
    if |es| > 0 {
      var (init, last) := (es[..|es| - 1], es[|es| - 1]);
      DropContactsKeeps(storage, init);
      DropContactKeeps(DropContacts(storage, init), KeyOf(last));
      assert es == init + [last];
      forall k: Key
        ensures HasKey(es, k) <==> HasKey(init, k) || k == KeyOf(last)
      {
        if k == KeyOf(last) { assert last in es; }
      }
    }
  }

  // ---------------------------------------------------------------- each operation refines its simple form

  lemma {:induction false} TimesOfQueue(es: seq<Item>)
    requires DistinctKeys(es)
    ensures forall k :: k in TimesOf(es) <==> HasKey(es, k)
    ensures forall i :: 0 <= i < |es| ==> KeyOf(es[i]) in TimesOf(es) && TimesOf(es)[KeyOf(es[i])] == es[i].inserted
    ensures |TimesOf(es)| == |es|
  {
    if |es| > 0 {
      var (init, last) := (es[..|es| - 1], es[|es| - 1]);
      TimesOfQueue(init);
      assert es == init + [last];
      forall i | i in init
        ensures KeyOf(i) != KeyOf(last)
      {
        var j :| 0 <= j < |init| && init[j] == i;
        assert es[j] == i;
      }
    }
  }

  /** Two queues with the same keys and the same time for each key denote the same map. */
  lemma SameTimes(es: seq<Item>, m: Times)
    requires DistinctKeys(es)
    requires forall i :: i in es ==> KeyOf(i) in m && m[KeyOf(i)] == i.inserted
    requires forall k :: k in m ==> HasKey(es, k)
    ensures TimesOf(es) == m
  {
    TimesOfQueue(es);
    hide TimesOf;
    forall k | k in m
      ensures k in TimesOf(es) && TimesOf(es)[k] == m[k]
    {
      var i :| i in es && KeyOf(i) == k;
      var j :| 0 <= j < |es| && es[j] == i;
    }
  }

  /** In an ordered queue the expired items are exactly the expired prefix. */
  lemma PrefixIsExpired(es: seq<Item>, clock: Time, now: Time)
    requires InOrder(es, clock)
    ensures var n := ExpiredPrefix(es, now, 0);
      forall j :: 0 <= j < |es| ==> (IsExpired(es[j], now) <==> j < n)
  {
    var n := ExpiredPrefix(es, now, 0);
    forall j | 0 <= j < |es|
      ensures IsExpired(es[j], now) <==> j < n
    {
      if n < j { assert es[n].inserted <= es[j].inserted; }
    }
  }

  lemma TailKeeps(es: seq<Item>, n: nat, clock: Time)
    requires DistinctKeys(es) && InOrder(es, clock) && n <= |es|
    ensures DistinctKeys(es[n..]) && InOrder(es[n..], clock)
    ensures forall k: Key :: HasKey(es[n..], k) <==> HasKey(es, k) && !HasKey(es[..n], k)
  {
    forall k: Key
      ensures HasKey(es[n..], k) <==> HasKey(es, k) && !HasKey(es[..n], k)
    {
      assert es == es[..n] + es[n..];
      HasKeySplit(es[..n], es[n..], k);
      NotBoth(es, n, k);
    }
  }

  lemma HasKeySplit(a: seq<Item>, b: seq<Item>, k: Key)
    ensures HasKey(a + b, k) <==> HasKey(a, k) || HasKey(b, k)
  {
    if HasKey(a, k) {
      var i :| i in a && KeyOf(i) == k;
      assert i in a + b;
    }
    if HasKey(b, k) {
      var i :| i in b && KeyOf(i) == k;
      assert i in a + b;
    }
  }

  lemma NotBoth(es: seq<Item>, n: nat, k: Key)
    requires DistinctKeys(es) && n <= |es|
    ensures !(HasKey(es[..n], k) && HasKey(es[n..], k))
  {
    forall x, y | x in es[..n] && y in es[n..]
      ensures KeyOf(x) != KeyOf(y)
    {
      var i :| 0 <= i < n && es[..n][i] == x;
      var j :| 0 <= j < |es| - n && es[n..][j] == y;
      assert es[i] == x && es[n + j] == y;
    }
  }

  /** Pruning the store keeps it valid and prunes the announce times. */
  lemma RemoveExpiredRefines(s: Store, clock: Time, now: Time)
    requires Valid(s, clock)
    ensures Valid(RemoveExpired(s, now), clock)
    ensures TimesOf(RemoveExpired(s, now).expires) == Prune(TimesOf(s.expires), now)
  {
    var n := ExpiredPrefix(s.expires, now, 0);
    PrefixIsExpired(s.expires, clock, now);
    TailKeeps(s.expires, n, clock);
    DropContactsKeeps(s.storage, s.expires[..n]);
    PruneTail(s.expires, n, now);
    hide DropContacts, ListsOk, InOrder, DistinctKeys, TimesOf, Prune, ExpiredPrefix;
  }

  lemma PruneTail(es: seq<Item>, n: nat, now: Time)
    requires DistinctKeys(es) && n <= |es|
    requires DistinctKeys(es[n..])
    requires forall j :: 0 <= j < |es| ==> (IsExpired(es[j], now) <==> j < n)
    ensures TimesOf(es[n..]) == Prune(TimesOf(es), now)
  {
    TimesOfQueue(es);
    var m := Prune(TimesOf(es), now);
    hide TimesOf;
    forall i | i in es[n..]
      ensures KeyOf(i) in m && m[KeyOf(i)] == i.inserted
    {
      var j :| 0 <= j < |es| - n && es[n..][j] == i;
      assert es[n + j] == i;
    }
    forall k | k in m
      ensures HasKey(es[n..], k)
    {
      var i :| i in es && KeyOf(i) == k;
      var j :| 0 <= j < |es| && es[j] == i;
      assert es[n..][j - n] == i;
    }
    SameTimes(es[n..], m);
  }

  /** Putting an item at the end of a queue that no longer has its contact. */
  lemma PushKeeps(es: seq<Item>, item: Item, clock: Time)
    requires DistinctKeys(es) && InOrder(es, clock) && !HasKey(es, KeyOf(item)) && clock <= item.inserted
    ensures DistinctKeys(es + [item]) && InOrder(es + [item], item.inserted)
    ensures forall k: Key :: HasKey(es + [item], k) <==> HasKey(es, k) || k == KeyOf(item)
    ensures TimesOf(es + [item]) == TimesOf(es)[KeyOf(item) := item.inserted]
  {
    assert (es + [item])[..|es|] == es;
    forall k: Key
      ensures HasKey(es + [item], k) <==> HasKey(es, k) || k == KeyOf(item)
    {
      if HasKey(es, k) {
        var i :| i in es && KeyOf(i) == k;
        assert i in es + [item];
      }
      if k == KeyOf(item) { assert item in es + [item]; }
    }
    forall i | 0 <= i < |es|
      ensures KeyOf(es[i]) != KeyOf(item)
    {
      assert es[i] in es;
    }
  }

  /** Re-announcing moves the contact to the end of the queue with its new time. */
  lemma RefreshKeeps(es: seq<Item>, item: Item, clock: Time)
    requires DistinctKeys(es) && InOrder(es, clock) && HasKey(es, KeyOf(item)) && clock <= item.inserted
    ensures var es' := Without(es, KeyOf(item)) + [item];
      && DistinctKeys(es') && InOrder(es', item.inserted) && |es'| == |es|
      && (forall k: Key :: HasKey(es', k) <==> HasKey(es, k))
      && TimesOf(es') == TimesOf(es)[KeyOf(item) := item.inserted]
  {
    hide TimesOf, DistinctKeys, InOrder, Without, HasKey;
    var w := Without(es, KeyOf(item));
    WithoutHasKey(es, KeyOf(item));
    WithoutDistinct(es, KeyOf(item));
    WithoutOrdered(es, KeyOf(item), clock);
    WithoutLength(es, KeyOf(item));
    PushKeeps(w, item, clock);
    WithoutTimes(es, KeyOf(item));
    assert (TimesOf(es) - {KeyOf(item)})[KeyOf(item) := item.inserted] == TimesOf(es)[KeyOf(item) := item.inserted];
  }

  lemma WithoutHasKey(es: seq<Item>, k: Key)
    ensures forall j: Key :: HasKey(Without(es, k), j) <==> HasKey(es, j) && j != k
  {
    var w := Without(es, k);
    forall j: Key | HasKey(es, j) && j != k
      ensures HasKey(w, j)
    {
      var i :| i in es && KeyOf(i) == j;
      assert i in w;
    }
  }

  lemma WithoutTimes(es: seq<Item>, k: Key)
    requires DistinctKeys(es) && DistinctKeys(Without(es, k))
    ensures TimesOf(Without(es, k)) == TimesOf(es) - {k}
  {
    TimesOfQueue(es);
    var (w, m) := (Without(es, k), TimesOf(es) - {k});
    hide TimesOf, DistinctKeys;
    forall i | i in w
      ensures KeyOf(i) in m && m[KeyOf(i)] == i.inserted
    {
      var j :| 0 <= j < |es| && es[j] == i;
    }
    forall j | j in m
      ensures HasKey(w, j)
    {
      var i :| i in es && KeyOf(i) == j;
      assert i in w;
    }
    SameTimes(w, m);
  }

  lemma InsertContactKeeps(s: Store, item: Item, clock: Time)
    requires Valid(s, clock)
    ensures InList(s, KeyOf(item)) <==> HasKey(s.expires, KeyOf(item))
    ensures var (s1, outcome) := InsertContact(s, item);
      outcome == Some(false) ==>
        && ListsOk(s1.storage)
        && s1.expires == s.expires
        && forall k: Key :: (k.0 in s1.storage && HasKey(s1.storage[k.0], k)) <==> HasKey(s.expires, k) || k == KeyOf(item)
  {
    hide ListsOk, DistinctKeys, InOrder, HasKey, InList;
    InListIs(s, KeyOf(item), clock);
    var (s1, outcome) := InsertContact(s, item);
    if outcome == Some(false) {
      AppendContact(s.storage, item);
      assert s1.storage == Appended(s.storage, item) by { assert [] + [item] == [item]; }
      hide InsertContact, Appended;
    }
  }

  function Appended(storage: map<Hash, seq<Item>>, item: Item): map<Hash, seq<Item>> {
    storage[item.hash := (if item.hash in storage then storage[item.hash] else []) + [item]]
  }

  lemma InListIs(s: Store, k: Key, clock: Time)
    requires Valid(s, clock)
    ensures InList(s, k) <==> HasKey(s.expires, k)
    ensures InList(s, k) <==> k.0 in s.storage && HasKey(s.storage[k.0], k)
  {
    hide ListsOk, DistinctKeys, InOrder;
  }

  lemma AppendContact(storage: map<Hash, seq<Item>>, item: Item)
    requires ListsOk(storage) && !(item.hash in storage && HasKey(storage[item.hash], KeyOf(item)))
    ensures var storage' := Appended(storage, item);
      && ListsOk(storage')
      && forall k: Key :: (k.0 in storage' && HasKey(storage'[k.0], k))
           <==> (k.0 in storage && HasKey(storage[k.0], k)) || k == KeyOf(item)
  {
    var items := if item.hash in storage then storage[item.hash] else [];
    var items' := items + [item];
    forall i | 0 <= i < |items|
      ensures KeyOf(items[i]) != KeyOf(item)
    {
      assert items[i] in items;
    }
    forall k: Key
      ensures HasKey(items', k) <==> HasKey(items, k) || k == KeyOf(item)
    {
      if HasKey(items, k) {
        var i :| i in items && KeyOf(i) == k;
        assert i in items';
      }
      if k == KeyOf(item) { assert item in items'; }
    }
  }

  /** `add` refines adding an announce time: same success, same contacts and times, still valid. It fails
      only for a contact that is not live while 500 others are. */
  lemma AddRefines(s: Store, clock: Time, k: Key, currTime: Time, inserted: Time)
    requires Valid(s, clock) && clock <= inserted
    ensures Valid(Add(s, k, currTime, inserted).0, inserted)
    ensures (TimesOf(Add(s, k, currTime, inserted).0.expires), Add(s, k, currTime, inserted).1)
         == AddTime(TimesOf(s.expires), k, currTime, inserted)
  {
    var s0 := RemoveExpired(s, currTime);
    RemoveExpiredRefines(s, clock, currTime);
    TimesOfQueue(s0.expires);
    hide RemoveExpired, TimesOf, Prune, Valid;
    AddToPruned(s0, clock, Item(k.0, k.1, inserted));
    hide AddPruned;
  }

  lemma AddToPruned(s0: Store, clock: Time, item: Item)
    requires Valid(s0, clock) && clock <= item.inserted
    ensures var (s', ok) := AddPruned(s0, item);
      && Valid(s', item.inserted)
      && ok == (HasKey(s0.expires, KeyOf(item)) || |s0.expires| < MAX_ITEMS_STORED)
      && TimesOf(s'.expires) == if ok then TimesOf(s0.expires)[KeyOf(item) := item.inserted] else TimesOf(s0.expires)
  {
    InsertContactKeeps(s0, item, clock);
    hide TimesOf, HasKey, InList, Without, Valid;
    if HasKey(s0.expires, KeyOf(item)) {
      AddKnown(s0, clock, item);
    } else if |s0.expires| < MAX_ITEMS_STORED {
      AddNew(s0, clock, item);
    } else {
      ValidLater(s0, clock, item.inserted);
    }
  }

  lemma AddKnown(s0: Store, clock: Time, item: Item)
    requires Valid(s0, clock) && clock <= item.inserted && HasKey(s0.expires, KeyOf(item))
    ensures var es := Without(s0.expires, KeyOf(item)) + [item];
      Valid(s0.(expires := es), item.inserted) && TimesOf(es) == TimesOf(s0.expires)[KeyOf(item) := item.inserted]
  {
    RefreshKeeps(s0.expires, item, clock);
    hide TimesOf, ListsOk, DistinctKeys, HasKey, Without, InOrder;
  }

  lemma AddNew(s0: Store, clock: Time, item: Item)
    requires Valid(s0, clock) && clock <= item.inserted
    requires !HasKey(s0.expires, KeyOf(item)) && |s0.expires| < MAX_ITEMS_STORED
    ensures var s' := Store(InsertContact(s0, item).0.storage, s0.expires + [item]);
      Valid(s', item.inserted) && TimesOf(s'.expires) == TimesOf(s0.expires)[KeyOf(item) := item.inserted]
  {
    InsertContactKeeps(s0, item, clock);
    PushKeeps(s0.expires, item, clock);
    assert InsertContact(s0, item).1 == Some(false);
    hide TimesOf, ListsOk, DistinctKeys, HasKey, InOrder, InsertContact;
  }

  lemma LaterClock(es: seq<Item>, clock: Time, clock': Time)
    requires InOrder(es, clock) && clock <= clock'
    ensures InOrder(es, clock')
  {}

  /** `find` lists every live contact of the hash exactly once, and nothing else. */
  lemma FindRefines(s: Store, clock: Time, h: Hash, now: Time)
    requires Valid(s, clock)
    ensures var (s', found) := Find(s, h, now);
      && Valid(s', clock)
      && TimesOf(s'.expires) == Prune(TimesOf(s.expires), now)
      && (forall i, j :: 0 <= i < j < |found| ==> found[i] != found[j])
      && (forall a :: a in found <==> (h, a) in Prune(TimesOf(s.expires), now))
  {
    var (s', found) := Find(s, h, now);
    RemoveExpiredRefines(s, clock, now);
    TimesOfQueue(s'.expires);
    hide RemoveExpired, TimesOf, Prune, InOrder, HasKey;
    if h in s'.storage {
      ListedAddresses(s'.storage[h], h);
    }
  }

  lemma ListedAddresses(items: seq<Item>, h: Hash)
    requires DistinctKeys(items) && forall i :: i in items ==> i.hash == h
    ensures var found := Addresses(items);
      && (forall i, j :: 0 <= i < j < |found| ==> found[i] != found[j])
      && (forall a :: a in found <==> HasKey(items, (h, a)))
  {
    var found := Addresses(items);
    forall i | 0 <= i < |items|
      ensures KeyOf(items[i]) == (h, found[i])
    {
      assert items[i] in items;
    }
    forall a
      ensures a in found <==> HasKey(items, (h, a))
    {
      if a in found {
        var i :| 0 <= i < |found| && found[i] == a;
        assert items[i] in items;
      }
    }
  }

  // ---------------------------------------------------------------- every run

  datatype Op = AddOp(k: Key, currTime: Time, inserted: Time) | FindOp(h: Hash, now: Time)

  function Apply(s: Store, op: Op): Store {
    match op
    case AddOp(k, currTime, inserted) => Add(s, k, currTime, inserted).0
    case FindOp(h, now) => Find(s, h, now).0
  }

  function Run(ops: seq<Op>): Store {
    if |ops| == 0 then EMPTY else Apply(Run(ops[..|ops| - 1]), ops[|ops| - 1])
  }

  /** For each contact, when it was last announced successfully. Nothing is ever forgotten here. */
  function History(ops: seq<Op>): Times {
    if |ops| == 0 then map[]
    else
      var (h, op) := (History(ops[..|ops| - 1]), ops[|ops| - 1]);
      if op.AddOp? && Add(Run(ops[..|ops| - 1]), op.k, op.currTime, op.inserted).1 then h[op.k := op.inserted] else h
  }

  /** The clock at the end of a run that starts at time t0. */
  function Clock(t0: Time, ops: seq<Op>): Time {
    if |ops| == 0 then t0
    else if ops[|ops| - 1].AddOp? then ops[|ops| - 1].inserted else ops[|ops| - 1].now
  }

  /** The clock never goes back. */
  predicate ClockAdvances(t0: Time, ops: seq<Op>) {
    |ops| == 0
    || (var clock := Clock(t0, ops[..|ops| - 1]);
        ClockAdvances(t0, ops[..|ops| - 1])
        && match ops[|ops| - 1]
           case AddOp(_, currTime, inserted) => clock <= currTime <= inserted
           case FindOp(_, now) => clock <= now)
  }

  lemma EmptyValid(t0: Time)
    ensures Valid(EMPTY, t0)
  {}

  ghost predicate SameLive(m: Times, h: Times, clock: Time) {
    forall now :: clock <= now ==> Prune(m, now) == Prune(h, now)
  }

  lemma PruneTwice(m: Times, h: Times, clock: Time, t: Time)
    requires SameLive(m, h, clock) && clock <= t
    ensures SameLive(Prune(m, t), h, t)
  {
    forall now | t <= now
      ensures Prune(Prune(m, t), now) == Prune(h, now)
    {
      assert Prune(Prune(m, t), now) == Prune(m, now);
    }
  }

  lemma PruneUpdate(m: Times, k: Key, t: Time, now: Time)
    requires t <= now
    ensures Prune(m[k := t], now)
         == if now - t < EXPIRATION_TIME then Prune(m, now)[k := t] else Prune(m, now) - {k}
  {}

  lemma PruneAdd(m: Times, h: Times, clock: Time, k: Key, t: Time)
    requires SameLive(m, h, clock) && clock <= t
    ensures SameLive(m[k := t], h[k := t], t)
  {
    var (m', h') := (m[k := t], h[k := t]);
    forall now | t <= now
      ensures Prune(m', now) == Prune(h', now)
    {
      PruneUpdate(m, k, t, now);
      PruneUpdate(h, k, t, now);
      hide Prune;
      assert Prune(m, now) == Prune(h, now);
    }
  }

  /** Under a clock that never goes back, after every run the store is valid (queue and lists hold the
      same contacts once each, no list is empty, at most 500) and from then on it shows exactly the
      contacts announced less than 24 hours ago. */
  lemma {:induction false} RunRefines(t0: Time, ops: seq<Op>)
    requires ClockAdvances(t0, ops)
    ensures Valid(Run(ops), Clock(t0, ops))
    ensures SameLive(TimesOf(Run(ops).expires), History(ops), Clock(t0, ops))
  {
    if |ops| == 0 {
      EmptyValid(t0);
    } else {
      var (init, op) := (ops[..|ops| - 1], ops[|ops| - 1]);
      RunRefines(t0, init);
      var (s, clock) := (Run(init), Clock(t0, init));
      var m := TimesOf(s.expires);
      hide Run, Valid, TimesOf, Find, Add, SameLive, Prune;
      match op
      case AddOp(k, currTime, inserted) =>
        AddRefines(s, clock, k, currTime, inserted);
        PruneTwice(m, History(init), clock, currTime);
        PruneAdd(Prune(m, currTime), History(init), currTime, k, inserted);
        SameLiveLater(Prune(m, currTime), History(init), currTime, inserted);
        assert Run(ops) == Add(s, k, currTime, inserted).0 by { RunStep(ops); }
      case FindOp(h, now) =>
        FindRefines(s, clock, h, now);
        PruneTwice(m, History(init), clock, now);
        ValidLater(Find(s, h, now).0, clock, now);
        assert Run(ops) == Find(s, h, now).0 by { RunStep(ops); }
    }
  }

  lemma RunStep(ops: seq<Op>)
    requires |ops| > 0
    ensures Run(ops) == Apply(Run(ops[..|ops| - 1]), ops[|ops| - 1])
  {}

  lemma SameLiveLater(m: Times, h: Times, clock: Time, clock': Time)
    requires SameLive(m, h, clock) && clock <= clock'
    ensures SameLive(m, h, clock')
  {}

  lemma ValidLater(s: Store, clock: Time, clock': Time)
    requires Valid(s, clock) && clock <= clock'
    ensures Valid(s, clock')
  {
    LaterClock(s.expires, clock, clock');
  }

  /** After any run, `find` returns exactly the addresses announced for the hash less than 24 hours ago,
      each once. */
  lemma FindIsExact(t0: Time, ops: seq<Op>, h: Hash, now: Time)
    requires ClockAdvances(t0, ops) && Clock(t0, ops) <= now
    ensures var found := Find(Run(ops), h, now).1;
      && (forall i, j :: 0 <= i < j < |found| ==> found[i] != found[j])
      && (forall a :: a in found <==> (h, a) in History(ops) && now - History(ops)[(h, a)] < EXPIRATION_TIME)
  {
    RunRefines(t0, ops);
    FindRefines(Run(ops), Clock(t0, ops), h, now);
    hide Run, Find, Valid, TimesOf;
  }

  // ---------------------------------------------------------------- the store as an object

  class AnnounceStorage {
    var storage: map<Hash, seq<Item>>
    var expires: seq<Item>

    function View(): Store
      reads this
    {
      Store(storage, expires)
    }

    constructor ()
      ensures View() == EMPTY
    {
      storage := map[];
      expires := [];
    }

    /** `remove_expired_items`. */
    method RemoveExpiredItems(now: Time)
      modifies this
      ensures View() == RemoveExpired(old(View()), now)
    {
      var n := 0;
      while n < |expires| && IsExpired(expires[n], now)
        invariant 0 <= n <= |expires|
        invariant ExpiredPrefix(expires, now, n) == ExpiredPrefix(expires, now, 0)
      {
        n := n + 1;
      }
      var drained := expires[..n];
      expires := expires[n..];
      assert drained[..0] == [];
      for i := 0 to |drained|
        invariant expires == old(expires)[n..]
        invariant storage == DropContacts(old(storage), drained[..i])
      {
        var k := KeyOf(drained[i]);
        if k.0 in storage {
          var items := Without(storage[k.0], k);
          storage := if items == [] then storage - {k.0} else storage[k.0 := items];
        }
        assert drained[..i + 1][..i] == drained[..i];
      }
      assert drained[..|drained|] == drained;
    }

    /** `add`. */
    method AddItem(k: Key, currTime: Time, inserted: Time) returns (ok: bool)
      modifies this
      ensures (View(), ok) == Add(old(View()), k, currTime, inserted)
    {
      RemoveExpiredItems(currTime);
      var item := Item(k.0, k.1, inserted);
      var known := InList(View(), k);
      if !known && |expires| >= MAX_ITEMS_STORED {
        return false;
      }
      if !known {
        storage := storage[k.0 := if k.0 in storage then storage[k.0] + [item] else [item]];
      } else {
        expires := Without(expires, k);
      }
      expires := expires + [item];
      ok := true;
    }

    /** `find`. */
    method FindItems(h: Hash, now: Time) returns (found: seq<SocketAddr>)
      modifies this
      ensures (View(), found) == Find(old(View()), h, now)
    {
      RemoveExpiredItems(now);
      found := [];
      if h in storage {
        for i := 0 to |storage[h]|
          invariant found == Addresses(storage[h])[..i]
        {
          found := found + [storage[h][i].addr];
        }
        assert found == Addresses(storage[h]);
      }
    }
  }
}
