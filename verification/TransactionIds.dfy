/** Transaction ids: shuffled blocks of action ids and message ids, packed into 64 bits. */
module TransactionIds {
  import opened Common
  import opened Bits

  const MESSAGE_ID_BITS := 24
  const MAX_ACTION_ID := 0x100_0000_0000
  const MAX_MESSAGE_ID := 0x100_0000
  const PREALLOC_LEN := 2048
  const TRANSACTION_ID_BYTES := 8

  // ---------------------------------------------------------------- shuffling

  /** `fisher_shuffle`: rand(i) is the random number drawn in round i, and values are taken out of the
      list by leaving the default value behind. */
  method FisherShuffle<T>(list: array<T>, rand: nat -> nat, default: T)
    modifies list
    ensures list[..] == Shuffled(old(list[..]), rand, 0)
    ensures multiset(list[..]) == multiset(old(list[..]))
  {
    ShuffleKeeps(list[..], rand, 0);
    for i := 0 to list.Length
      invariant Shuffled(list[..], rand, i) == Shuffled(old(list[..]), rand, 0)
    {
      var swapIndex := SwapIndex(rand(i), i, list.Length);
      TakeAndSwap(list, i, swapIndex, default);
    }
  }

  /** The rounds from i on. */
  function Shuffled<T>(s: seq<T>, rand: nat -> nat, i: nat): (r: seq<T>)
    requires i <= |s|
    decreases |s| - i
  {
    if i == |s| then s else Shuffled(Swapped(s, i, SwapIndex(rand(i), i, |s|)), rand, i + 1)
  }

  /** Whatever is drawn, nothing is lost or doubled. */
  lemma {:induction false} ShuffleKeeps<T>(s: seq<T>, rand: nat -> nat, i: nat)
    requires i <= |s|
    ensures multiset(Shuffled(s, rand, i)) == multiset(s)
    decreases |s| - i
  {
    if i < |s| {
      var j := SwapIndex(rand(i), i, |s|);
      SwapKeeps(s, i, j);
      ShuffleKeeps(Swapped(s, i, j), rand, i + 1);
    }
  }

  /** The random numbers drawn, one a round. */
  function Drawn(draws: seq<nat>): nat -> nat {
    (k: nat) => if k < |draws| then draws[k] else 0
  }

  lemma {:induction false} LaterDrawsDecide<T>(s: seq<T>, a: nat -> nat, b: nat -> nat, i: nat)
    requires i <= |s| && forall k :: i <= k < |s| ==> a(k) == b(k)
    ensures Shuffled(s, a, i) == Shuffled(s, b, i)
    decreases |s| - i
  {
    if i < |s| { LaterDrawsDecide(Swapped(s, i, SwapIndex(a(i), i, |s|)), a, b, i + 1); }
  }

  /** Every order arises from some draws. */
  lemma EveryOrderArises<T>(s: seq<T>, t: seq<T>) returns (draws: seq<nat>)
    requires multiset(s) == multiset(t)
    ensures Shuffled(s, Drawn(draws), 0) == t
  {
    assert s[0..] == s && t[0..] == t;
    assert |s| == |multiset(s)| == |t|;
    draws := ArisesFrom(s, t, 0);
  }

  lemma {:induction false} ArisesFrom<T>(s: seq<T>, t: seq<T>, i: nat) returns (draws: seq<nat>)
    requires i <= |s| == |t| && s[..i] == t[..i] && multiset(s[i..]) == multiset(t[i..])
    ensures |draws| == |s| && Shuffled(s, Drawn(draws), i) == t
    decreases |s| - i
  {
    if i == |s| {
      draws := seq(|s|, _ => 0);
      assert s[..i] == s && t[..i] == t;
    } else {
      var j := FindFrom(s, i, t[i], t);
      var s' := Swapped(s, i, j);
      SwapAgrees(s, t, i, j);
      var later := ArisesFrom(s', t, i + 1);
      draws := later[i := j - i];
      hide Swapped, SwapIndex, Shuffled;
      FirstDraw(s, i, j, later);
    }
  }

  /** Drawing j - i in round i swaps positions i and j. */
  lemma FirstDraw<T>(s: seq<T>, i: nat, j: nat, later: seq<nat>)
    requires i <= j < |s| == |later|
    ensures Shuffled(s, Drawn(later[i := j - i]), i) == Shuffled(Swapped(s, i, j), Drawn(later), i + 1)
  {
    var draws := later[i := j - i];
    DrawLands(i, j, |s|);
    hide SwapIndex;
    assert Drawn(draws)(i) == j - i;
    LaterDrawsDecide(Swapped(s, i, j), Drawn(later), Drawn(draws), i + 1);
  }

  lemma DrawLands(i: nat, j: nat, n: nat)
    requires i <= j < n
    ensures SwapIndex(j - i, i, n) == j
  {}

  lemma FindFrom<T>(s: seq<T>, i: nat, x: T, t: seq<T>) returns (j: nat)
    requires i < |s| == |t| && t[i] == x && multiset(s[i..]) == multiset(t[i..])
    ensures i <= j < |s| && s[j] == x
  {
    assert t[i..][0] == x && x in multiset(t[i..]);
    assert x in s[i..];
    var k :| 0 <= k < |s[i..]| && s[i..][k] == x;
    j := i + k;
  }

  lemma SwapAgrees<T>(s: seq<T>, t: seq<T>, i: nat, j: nat)
    requires i <= j < |s| == |t| && s[..i] == t[..i] && s[j] == t[i] && multiset(s[i..]) == multiset(t[i..])
    ensures var s' := Swapped(s, i, j); s'[..i + 1] == t[..i + 1] && multiset(s'[i + 1..]) == multiset(t[i + 1..])
  {
    var s' := Swapped(s, i, j);
    SwapPrefix(s, t, i, j);
    SwapSuffix(s, i, j);
    hide Swapped;
    WithoutFirst(s', i);
    WithoutFirst(t, i);
  }

  lemma SwapPrefix<T>(s: seq<T>, t: seq<T>, i: nat, j: nat)
    requires i <= j < |s| == |t| && s[..i] == t[..i] && s[j] == t[i]
    ensures Swapped(s, i, j)[..i + 1] == t[..i + 1] && Swapped(s, i, j)[i] == t[i]
  {
    assert forall k :: 0 <= k < i ==> s[k] == s[..i][k] && t[k] == t[..i][k];
  }

  lemma SwapSuffix<T>(s: seq<T>, i: nat, j: nat)
    requires i <= j < |s|
    ensures multiset(Swapped(s, i, j)[i..]) == multiset(s[i..])
  {
    SwapKeeps(s[i..], 0, j - i);
    assert Swapped(s, i, j)[i..] == Swapped(s[i..], 0, j - i);
  }

  lemma WithoutFirst<T>(s: seq<T>, i: nat)
    requires i < |s|
    ensures multiset(s[i + 1..]) == multiset(s[i..]) - multiset{s[i]}
  {
    assert s[i..] == [s[i]] + s[i + 1..];
  }

  function SwapIndex(random: nat, i: nat, length: nat): (r: nat)
    requires i < length
    ensures i <= r < length
  {
    random % (length - i) + i
  }

  /** One round, through the default value. */
  method TakeAndSwap<T>(list: array<T>, i: nat, j: nat, default: T)
    requires i < list.Length && j < list.Length
    modifies list
    ensures list[..] == Swapped(old(list[..]), i, j)
  {
    var srcVal := list[i];
    list[i] := default;
    var dstVal := list[j];
    list[j] := default;
    list[i] := dstVal;
    list[j] := srcVal;
  }

  /** Taking position i before position j: with i == j the value comes back to its place. */
  function Swapped<T>(s: seq<T>, i: nat, j: nat): seq<T>
    requires i < |s| && j < |s|
  {
    s[i := s[j]][j := s[i]]
  }

  lemma SwapKeeps<T>(s: seq<T>, i: nat, j: nat)
    requires i < |s| && j < |s|
    ensures multiset(Swapped(s, i, j)) == multiset(s)
  {}

  // ---------------------------------------------------------------- blocks of ids

  /** The ids start, start + 1, ... of one block. */
  function Block(start: nat): (b: seq<nat>)
    ensures |b| == PREALLOC_LEN
    ensures forall i :: 0 <= i < PREALLOC_LEN ==> b[i] == start + i
  {
    seq(PREALLOC_LEN, i => start + i)
  }

  /** A range of ids that whole blocks fill exactly. */
  predicate IsRange(max: nat) {
    max > 0 && max % PREALLOC_LEN == 0
  }

  /** Where block k of a generator over [0, max) starts: blocks follow each other and wrap around. */
  function BlockStart(max: nat, k: nat): (start: nat)
    requires IsRange(max)
    ensures start % PREALLOC_LEN == 0 && start + PREALLOC_LEN <= max
  {
    if k == 0 then 0
    else
      var next := BlockStart(max, k - 1) + PREALLOC_LEN;
      if next == max then 0 else next
  }

  /** The blocks a generator has gone through: each a shuffle of its range. */
  ghost predicate IsHistory(max: nat, blocks: seq<seq<nat>>) {
    IsRange(max) && forall k :: 0 <= k < |blocks| ==> multiset(blocks[k]) == multiset(Block(BlockStart(max, k)))
  }

  /** The n-th id handed out. */
  function Issued(blocks: seq<seq<nat>>, n: nat): nat
    requires n / PREALLOC_LEN < |blocks| && |blocks[n / PREALLOC_LEN]| == PREALLOC_LEN
  {
    blocks[n / PREALLOC_LEN][n % PREALLOC_LEN]
  }

  lemma {:induction false} NoRepeats(s: seq<nat>, t: seq<nat>, i: nat, j: nat)
    requires multiset(s) == multiset(t) && i < j < |s|
    requires forall k, l :: 0 <= k < l < |t| ==> t[k] != t[l]
    ensures s[i] != s[j]
  {
    if s[i] == s[j] {
      AppearsTwice(s, i, j);
      AppearsOnce(t, s[i]);
      assert false;
    }
  }

  lemma AppearsTwice(s: seq<nat>, i: nat, j: nat)
    requires i < j < |s| && s[i] == s[j]
    ensures multiset(s)[s[i]] >= 2
  {
    assert s == s[..j] + [s[j]] + s[j + 1..];
    assert s[i] == s[..j][i];
    assert s[i] in s[..j];
  }

  lemma {:induction false} AppearsOnce(t: seq<nat>, x: nat)
    requires forall k, l :: 0 <= k < l < |t| ==> t[k] != t[l]
    ensures multiset(t)[x] <= 1
  {
    if |t| > 0 {
      var init := t[..|t| - 1];
      AppearsOnce(init, x);
      assert t == init + [t[|t| - 1]];
      if x == t[|t| - 1] {
        assert x !in init;
      }
    }
  }

  lemma ShuffleMember(max: nat, blocks: seq<seq<nat>>, k: nat, i: nat)
    requires IsHistory(max, blocks) && k < |blocks| && i < |blocks[k]|
    ensures |blocks[k]| == PREALLOC_LEN
    ensures BlockStart(max, k) <= blocks[k][i] < BlockStart(max, k) + PREALLOC_LEN
  {
    var b := Block(BlockStart(max, k));
    assert |multiset(blocks[k])| == |multiset(b)|;
    assert blocks[k][i] in multiset(blocks[k]);
    assert blocks[k][i] in multiset(b);
  }

  lemma HistoryLength(max: nat, blocks: seq<seq<nat>>, k: nat)
    requires IsHistory(max, blocks) && k < |blocks|
    ensures |blocks[k]| == PREALLOC_LEN
  {
    assert |multiset(blocks[k])| == |multiset(Block(BlockStart(max, k)))|;
  }

  lemma BlockLength(start: nat, b: seq<nat>)
    requires multiset(b) == multiset(Block(start))
    ensures |b| == PREALLOC_LEN
  {
    assert |multiset(b)| == |multiset(Block(start))|;
  }

  lemma HistoryGrows(max: nat, blocks: seq<seq<nat>>, b: seq<nat>)
    requires IsHistory(max, blocks) && multiset(b) == multiset(Block(BlockStart(max, |blocks|)))
    ensures IsHistory(max, blocks + [b])
  {}

  /** The blocks of one lap start at different places and stay inside the range. */
  lemma {:induction false} BlockStartsInLap(max: nat, k: nat)
    requires IsRange(max) && PREALLOC_LEN * k < max
    ensures BlockStart(max, k) == PREALLOC_LEN * k
  {
    if k > 0 { BlockStartsInLap(max, k - 1); }
  }

  /** The first `max` ids a generator hands out are pairwise distinct and below `max`, whatever the
      shuffles were. */
  lemma IssuedDistinct(max: nat, blocks: seq<seq<nat>>, m: nat, n: nat)
    requires IsHistory(max, blocks) && m < n < max && n / PREALLOC_LEN < |blocks|
    ensures |blocks[m / PREALLOC_LEN]| == PREALLOC_LEN && |blocks[n / PREALLOC_LEN]| == PREALLOC_LEN
    ensures Issued(blocks, m) != Issued(blocks, n)
    ensures Issued(blocks, m) < max && Issued(blocks, n) < max
  {
    var (k, l) := (m / PREALLOC_LEN, n / PREALLOC_LEN);
    HistoryLength(max, blocks, k);
    HistoryLength(max, blocks, l);
    ShuffleMember(max, blocks, k, m % PREALLOC_LEN);
    ShuffleMember(max, blocks, l, n % PREALLOC_LEN);
    BlockStartsInLap(max, k);
    BlockStartsInLap(max, l);
    hide BlockStart;
    if k == l {
      NoRepeats(blocks[k], Block(BlockStart(max, k)), m % PREALLOC_LEN, n % PREALLOC_LEN);
    }
  }

  /** `generate_aids` and `generate_mids` fill the block in a loop. */
  method MakeBlock(start: nat) returns (block: array<nat>)
    ensures fresh(block) && block[..] == Block(start)
  {
    block := new nat[PREALLOC_LEN](_ => 0);
    for i := 0 to PREALLOC_LEN
      invariant forall k :: 0 <= k < i ==> block[k] == start + k
    {
      block[i] := start + i;
    }
  }

  method ShuffledBlock(start: nat, rand: nat -> nat) returns (block: array<nat>)
    ensures fresh(block) && multiset(block[..]) == multiset(Block(start))
  {
    hide Block;
    block := MakeBlock(start);
    FisherShuffle(block, rand, 0);
  }

  // ---------------------------------------------------------------- the generator as an object

  /** `AIDGenerator` and `MIDGenerator`: the same allocation over different ranges. */
  class IdGenerator {
    const max: nat
    var nextAlloc: nat
    var currIndex: nat
    var ids: array<nat>
    ghost var blocks: seq<seq<nat>>
    ghost var count: nat

    ghost predicate Valid()
      reads this, ids
    {
      && IsHistory(max, blocks)
      && ids.Length == PREALLOC_LEN
      && currIndex <= PREALLOC_LEN
      && count + PREALLOC_LEN == PREALLOC_LEN * |blocks| + currIndex
      && (if |blocks| == 0 then nextAlloc == 0
          else nextAlloc == BlockStart(max, |blocks| - 1) + PREALLOC_LEN && ids[..] == blocks[|blocks| - 1])
    }

    /** `MIDGenerator::new`: nothing allocated yet, the first draw generates the first block. */
    constructor Lazy(max: nat)
      requires IsRange(max)
      ensures Valid() && fresh(ids) && this.max == max && count == 0 && blocks == []
    {
      this.max := max;
      nextAlloc := 0;
      currIndex := PREALLOC_LEN;
      ids := new nat[PREALLOC_LEN](_ => 0);
      blocks := [];
      count := 0;
    }

    /** `AIDGenerator::new`: the first block is generated at once. */
    constructor Eager(max: nat, rand: nat -> nat)
      requires IsRange(max)
      ensures Valid() && fresh(ids) && this.max == max && count == 0 && |blocks| == 1 && currIndex == 0
    {
      var block := ShuffledBlock(0, rand);
      BlockLength(0, block[..]);
      HistoryGrows(max, [], block[..]);
      this.max := max;
      nextAlloc := PREALLOC_LEN;
      currIndex := 0;
      ids := block;
      blocks := [block[..]];
      count := 0;
      assert [] + [block[..]] == [block[..]];
    }

    /** Allocate and shuffle the next block, wrapping around at the end of the range. */
    method NextBlock(rand: nat -> nat)
      requires Valid() && currIndex == PREALLOC_LEN
      modifies this
      ensures Valid() && fresh(ids) && currIndex == 0 && count == old(count)
      ensures |blocks| == old(|blocks|) + 1 && blocks[..old(|blocks|)] == old(blocks)
    {
      var start := if nextAlloc == max then 0 else nextAlloc;
      assert start == BlockStart(max, |blocks|);
      hide BlockStart, Block;
      var block := ShuffledBlock(start, rand);
      BlockLength(start, block[..]);
      HistoryGrows(max, blocks, block[..]);
      hide IsHistory;
      nextAlloc := start + PREALLOC_LEN;
      ids := block;
      currIndex := 0;
      blocks := blocks + [block[..]];
    }

    /** `generate`: hands out the next id of the history. */
    method Generate(rand: nat -> nat) returns (id: nat)
      requires Valid()
      modifies this
      ensures Valid() && count == old(count) + 1 && (ids == old(ids) || fresh(ids))
      ensures old(blocks) <= blocks
      ensures old(count) / PREALLOC_LEN < |blocks| && |blocks[old(count) / PREALLOC_LEN]| == PREALLOC_LEN
      ensures id == Issued(blocks, old(count))
    {
      hide IsHistory, BlockStart;
      if currIndex == PREALLOC_LEN {
        NextBlock(rand);
      }
      HistoryLength(max, blocks, |blocks| - 1);
      assert count / PREALLOC_LEN == |blocks| - 1 && count % PREALLOC_LEN == currIndex;
      id := ids[currIndex];
      currIndex := currIndex + 1;
      count := count + 1;
    }
  }

  // ---------------------------------------------------------------- transaction ids

  /** The value `MIDGenerator::generate` puts into a transaction id. */
  function Pack(action: nat, message: nat): nat {
    BitOr(Shl(action, MESSAGE_ID_BITS), message)
  }

  /** `ActionID::from_transaction_id`. */
  function ActionOf(id: nat): nat {
    Shr(id, MESSAGE_ID_BITS)
  }

  /** `MessageID::from_transaction_id`. */
  function MessageOf(id: nat): nat {
    BitAnd(id, MAX_MESSAGE_ID - 1)
  }

  /** Packing keeps both parts apart. */
  lemma Unpack(action: nat, message: nat)
    requires action < MAX_ACTION_ID && message < MAX_MESSAGE_ID
    ensures Pack(action, message) < TWO_64
    ensures ActionOf(Pack(action, message)) == action && MessageOf(Pack(action, message)) == message
  {
    Pow2Values();
    hide Pow2, BitOr, BitAnd;
    assert action * MAX_MESSAGE_ID < TWO_64;
    OrIsSum(action, message, MESSAGE_ID_BITS);
    MaskIsMod(Pack(action, message), MESSAGE_ID_BITS);
  }

  /** All transaction ids of the first 2^40 actions and the first 2^24 messages of each are different, and
      the action and message they belong to can be read back. */
  lemma TransactionIdsDiffer(actions: seq<seq<nat>>, i: nat, messages: seq<seq<nat>>, j: nat,
                             i': nat, messages': seq<seq<nat>>, j': nat)
    requires IsHistory(MAX_ACTION_ID, actions) && IsHistory(MAX_MESSAGE_ID, messages) && IsHistory(MAX_MESSAGE_ID, messages')
    requires i < MAX_ACTION_ID && i / PREALLOC_LEN < |actions| && i' < MAX_ACTION_ID && i' / PREALLOC_LEN < |actions|
    requires j < MAX_MESSAGE_ID && j / PREALLOC_LEN < |messages| && j' < MAX_MESSAGE_ID && j' / PREALLOC_LEN < |messages'|
    requires i == i' ==> messages == messages'
    requires (i, j) != (i', j')
    ensures |actions[i / PREALLOC_LEN]| == |actions[i' / PREALLOC_LEN]| == PREALLOC_LEN
    ensures |messages[j / PREALLOC_LEN]| == |messages'[j' / PREALLOC_LEN]| == PREALLOC_LEN
    ensures Pack(Issued(actions, i), Issued(messages, j)) != Pack(Issued(actions, i'), Issued(messages', j'))
    ensures ToBytes(Pack(Issued(actions, i), Issued(messages, j))) != ToBytes(Pack(Issued(actions, i'), Issued(messages', j')))
    ensures ActionOf(Pack(Issued(actions, i), Issued(messages, j))) == Issued(actions, i)
    ensures MessageOf(Pack(Issued(actions, i), Issued(messages, j))) == Issued(messages, j)
  {
    HistoryLength(MAX_ACTION_ID, actions, i / PREALLOC_LEN);
    HistoryLength(MAX_ACTION_ID, actions, i' / PREALLOC_LEN);
    HistoryLength(MAX_MESSAGE_ID, messages, j / PREALLOC_LEN);
    HistoryLength(MAX_MESSAGE_ID, messages', j' / PREALLOC_LEN);
    IssuedInRange(MAX_ACTION_ID, actions, i);
    IssuedInRange(MAX_ACTION_ID, actions, i');
    IssuedInRange(MAX_MESSAGE_ID, messages, j);
    IssuedInRange(MAX_MESSAGE_ID, messages', j');
    Unpack(Issued(actions, i), Issued(messages, j));
    Unpack(Issued(actions, i'), Issued(messages', j'));
    if i < i' {
      IssuedDistinct(MAX_ACTION_ID, actions, i, i');
    } else if i' < i {
      IssuedDistinct(MAX_ACTION_ID, actions, i', i);
    } else if j < j' {
      IssuedDistinct(MAX_MESSAGE_ID, messages, j, j');
    } else {
      IssuedDistinct(MAX_MESSAGE_ID, messages, j', j);
    }
    hide Pack, ActionOf, MessageOf, IsHistory, ToBytes, FromBytes;
    IdRoundTrip(Pack(Issued(actions, i), Issued(messages, j)));
    IdRoundTrip(Pack(Issued(actions, i'), Issued(messages', j')));
  }

  lemma IssuedInRange(max: nat, blocks: seq<seq<nat>>, n: nat)
    requires IsHistory(max, blocks) && n / PREALLOC_LEN < |blocks|
    ensures |blocks[n / PREALLOC_LEN]| == PREALLOC_LEN && Issued(blocks, n) < max
  {
    HistoryLength(max, blocks, n / PREALLOC_LEN);
    ShuffleMember(max, blocks, n / PREALLOC_LEN, n % PREALLOC_LEN);
  }

  /** `MIDGenerator` as the owner of an action id sees it: the action id is kept shifted, message ids
      come from their own generator. */
  class TransactionGenerator {
    const shifted: nat
    const messages: IdGenerator

    ghost predicate Valid(action: nat)
      reads messages, messages.ids
    {
      shifted == Shl(action, MESSAGE_ID_BITS) && messages.Valid() && messages.max == MAX_MESSAGE_ID
    }

    constructor (action: nat)
      ensures Valid(action) && fresh(messages) && fresh(messages.ids) && messages.count == 0
    {
      shifted := Shl(action, MESSAGE_ID_BITS);
      messages := new IdGenerator.Lazy(MAX_MESSAGE_ID);
    }

    /** `generate`: the n-th transaction id packs the action id with the n-th message id. */
    method Generate(ghost action: nat, rand: nat -> nat) returns (id: nat)
      requires Valid(action)
      modifies messages
      ensures Valid(action) && messages.count == old(messages.count) + 1 && old(messages.blocks) <= messages.blocks
      ensures var n := old(messages.count);
        && n / PREALLOC_LEN < |messages.blocks| && |messages.blocks[n / PREALLOC_LEN]| == PREALLOC_LEN
        && id == Pack(action, Issued(messages.blocks, n))
    {
      var message := messages.Generate(rand);
      id := BitOr(shifted, message);
    }
  }

  // ---------------------------------------------------------------- wire format

  /** `eight_bytes_to_array`: most significant byte first. */
  function ToBytes(x: nat): (r: Bytes)
    ensures |r| == TRANSACTION_ID_BYTES
  {
    seq(TRANSACTION_ID_BYTES, i requires 0 <= i < TRANSACTION_ID_BYTES => LowByte(Shr(x, 56 - 8 * i)))
  }

  /** `as u8`. */
  function LowByte(x: nat): byte {
    x % 256
  }

  /** The loop of `TransactionID::from_bytes`, which shifts in byte by byte. */
  function ShiftIn(bytes: Bytes): nat {
    if |bytes| == 0 then 0 else BitOr(Shl(ShiftIn(bytes[..|bytes| - 1]), 8), bytes[|bytes| - 1])
  }

  /** `TransactionID::from_bytes`. */
  function FromBytes(bytes: Bytes): (r: Option<nat>) {
    if |bytes| != TRANSACTION_ID_BYTES then None else Some(ShiftIn(bytes))
  }

  method ReadTransactionId(bytes: Bytes) returns (r: Option<nat>)
    ensures r == FromBytes(bytes)
  {
    if |bytes| != TRANSACTION_ID_BYTES { return None; }
    var id := 0;
    assert bytes[..0] == [];
    for i := 0 to |bytes|
      invariant id == ShiftIn(bytes[..i])
    {
      assert bytes[..i + 1][..i] == bytes[..i];
      id := Shl(id, 8);
      id := BitOr(id, bytes[i]);
    }
    assert bytes[..|bytes|] == bytes;
    r := Some(id);
  }

  /** While at most eight bytes are shifted in, none is shifted out again. */
  lemma {:induction false} ShiftInValue(bytes: Bytes)
    requires |bytes| <= TRANSACTION_ID_BYTES
    ensures ShiftIn(bytes) < Pow2(8 * |bytes|)
    ensures |bytes| > 0 ==> ShiftIn(bytes) == ShiftIn(bytes[..|bytes| - 1]) * 256 + bytes[|bytes| - 1]
  {
    if |bytes| > 0 {
      var init := bytes[..|bytes| - 1];
      ShiftInValue(init);
      assert ShiftIn(bytes) == BitOr(Shl(ShiftIn(init), 8), bytes[|bytes| - 1]);
      hide ShiftIn, Pow2, BitOr, Shl;
      ShiftStep(ShiftIn(init), bytes[|bytes| - 1], |init|);
    }
  }

  lemma ShiftStep(high: nat, low: byte, n: nat)
    requires n < TRANSACTION_ID_BYTES && high < Pow2(8 * n)
    ensures BitOr(Shl(high, 8), low) == high * 256 + low < Pow2(8 * (n + 1))
  {
    hide Pow2, BitOr, Shl;
    Pow2Sum(8 * n, 8);
    Pow2Grows(8 * (n + 1), 64);
    Pow2Values();
    OrIsSum(high, low, 8);
    ShlByte(high);
  }

  lemma ShlByte(x: nat)
    requires x * 256 < TWO_64
    ensures Shl(x, 8) == x * 256
  {
    Pow2Values();
  }

  lemma ShrByte(x: nat)
    ensures Shr(x, 8) == x / 256
  {
    Pow2Values();
    hide Pow2;
  }

  /** Shifting the last j bytes out again leaves the first ones. */
  lemma {:induction false} ShiftOut(bytes: Bytes, j: nat)
    requires |bytes| <= TRANSACTION_ID_BYTES && j <= |bytes|
    ensures Shr(ShiftIn(bytes), 8 * j) == ShiftIn(bytes[..|bytes| - j])
    decreases j
  {
    hide ShiftIn, Shr, Pow2;
    if j == 0 {
      assert bytes[..|bytes|] == bytes;
      ShrZero(ShiftIn(bytes));
    } else {
      var init := bytes[..|bytes| - 1];
      ShiftOut(init, j - 1);
      ShiftInValue(bytes);
      ShrShr(ShiftIn(bytes), 8, 8 * (j - 1));
      ShrByte(ShiftIn(bytes));
      assert init[..|init| - (j - 1)] == bytes[..|bytes| - j];
    }
  }

  lemma ShrAll(x: nat)
    requires x < TWO_64
    ensures Shr(x, 64) == 0
  {
    Pow2Values();
    hide Pow2;
  }

  lemma ShrZero(x: nat)
    ensures Shr(x, 0) == x
  {
    assert Pow2(0) == 1;
  }

  /** Reading any eight bytes and writing the id gives the bytes back. */
  lemma BytesRoundTrip(bytes: Bytes)
    requires |bytes| == TRANSACTION_ID_BYTES
    ensures FromBytes(bytes).value < TWO_64 && ToBytes(FromBytes(bytes).value) == bytes
  {
    var x := ShiftIn(bytes);
    ShiftInValue(bytes);
    Pow2Values();
    hide ShiftIn, Shr, Pow2;
    forall i | 0 <= i < TRANSACTION_ID_BYTES
      ensures LowByte(Shr(x, 56 - 8 * i)) == bytes[i]
    {
      ByteOut(bytes, i);
    }
  }

  lemma ByteOut(bytes: Bytes, i: nat)
    requires i < |bytes| == TRANSACTION_ID_BYTES
    ensures LowByte(Shr(ShiftIn(bytes), 56 - 8 * i)) == bytes[i]
  {
    hide ShiftIn, Shr, Pow2, LowByte;
    ShiftOut(bytes, 7 - i);
    ShiftInValue(bytes[..i + 1]);
    var first := bytes[..i + 1];
    LowByteOf(ShiftIn(first[..i]), first[i]);
  }

  lemma LowByteOf(high: nat, low: byte)
    ensures LowByte(high * 256 + low) == low
  {}

  lemma {:induction false} ShiftInPrefix(x: nat, k: nat)
    requires x < TWO_64 && k <= TRANSACTION_ID_BYTES
    ensures ShiftIn(ToBytes(x)[..k]) == Shr(x, 64 - 8 * k)
  {
    hide Shr, Pow2;
    if k == 0 {
      ShrAll(x);
    } else {
      hide ShiftIn;
      ShiftInPrefix(x, k - 1);
      var first := ToBytes(x)[..k];
      assert first[..k - 1] == ToBytes(x)[..k - 1];
      ShiftInValue(first);
      ShrShr(x, 64 - 8 * k, 8);
      ShrByte(Shr(x, 64 - 8 * k));
      assert first[k - 1] == LowByte(Shr(x, 64 - 8 * k));
    }
  }

  /** Writing any id and reading the bytes gives the id back. */
  lemma IdRoundTrip(x: nat)
    requires x < TWO_64
    ensures FromBytes(ToBytes(x)) == Some(x)
  {
    ShiftInPrefix(x, TRANSACTION_ID_BYTES);
    ShrZero(x);
    hide Shr;
    assert ToBytes(x)[..TRANSACTION_ID_BYTES] == ToBytes(x);
  }
}
