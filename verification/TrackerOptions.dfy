/** Announce options of the UDP tracker protocol: contents of any length, written in chunks. */
module TrackerOptions {
  import opened Common

  const END_OF_OPTIONS: byte := 0
  const NO_OPERATION: byte := 1
  const MAX_CHUNK := 255

  type Options = map<byte, Bytes>

  datatype Parsed = Done(rest: Bytes, options: Options) | Incomplete

  // ---------------------------------------------------------------- reading

  /** A repeated option continues the content read before. */
  function Extend(m: Options, k: byte, content: Bytes): Options {
    m[k := (if k in m then m[k] else []) + content]
  }

  /** `parse_options` from the top of its loop. */
  function Parse(b: Bytes, m: Options): (r: Parsed)
    decreases |b|
  {
    if |b| == 0 then Done([], m)
    else if b[0] == END_OF_OPTIONS then Done(b[1..], m)
    else if b[0] == NO_OPERATION then Parse(b[1..], m)
    else if |b| < 2 || |b| - 2 < b[1] then Incomplete
    else Parse(b[2 + b[1]..], Extend(m, b[0], b[2..2 + b[1]]))
  }

  method RunParse(b: Bytes) returns (r: Parsed)
    ensures r == Parse(b, map[])
  {
    var curr := b;
    var options: Options := map[];
    var eof := false;
    while !eof
      invariant !eof ==> Parse(curr, options) == Parse(b, map[])
      invariant eof ==> Done(curr, options) == Parse(b, map[])
      decreases if eof then 0 else 1, |curr|
    {
      if |curr| == 0 {
        eof := true;
      } else if curr[0] == END_OF_OPTIONS {
        curr := curr[1..];
        eof := true;
      } else if curr[0] == NO_OPERATION {
        curr := curr[1..];
      } else {
        if |curr| < 2 || |curr| - 2 < curr[1] { return Incomplete; }
        options := Extend(options, curr[0], curr[2..2 + curr[1]]);
        curr := curr[2 + curr[1]..];
      }
    }
    r := Done(curr, options);
  }

  // ---------------------------------------------------------------- writing

  /** One option: chunks of at most 255 bytes, each with the option byte and its own length. */
  function WriteOption(k: byte, content: Bytes): Bytes
    decreases |content|
  {
    if |content| == 0 then []
    else
      var n := if |content| <= MAX_CHUNK then |content| else MAX_CHUNK;
      [k, n] + content[..n] + WriteOption(k, content[n..])
  }

  /** The options in the order the map is iterated in. */
  function WriteAll(m: Options, keys: seq<byte>): Bytes
    requires forall k :: k in keys ==> k in m
  {
    if |keys| == 0 then []
    else WriteOption(keys[0], m[keys[0]]) + WriteAll(m, keys[1..])
  }

  /** The keys of the map, each once, in some order. */
  ghost predicate IsOrder(m: Options, keys: seq<byte>) {
    && (forall k :: k in keys <==> k in m)
    && (forall i, j :: 0 <= i < j < |keys| ==> keys[i] != keys[j])
  }

  /** What reaches a writer that fails once `room` bytes are written. */
  function Fitting(b: Bytes, room: nat): (r: Bytes)
    ensures r <= b && |r| <= room && (r == b || |r| == room)
  {
    if |b| <= room then b else b[..room]
  }

  lemma FittingPrefix(a: Bytes, b: Bytes, room: nat)
    requires |a| > room
    ensures Fitting(a + b, room) == Fitting(a, room)
  {
    assert (a + b)[..room] == a[..room];
  }

  /** `write_all`: as much as fits, and whether that is everything. */
  method Append(written: Bytes, more: Bytes, room: nat) returns (bytes: Bytes, ok: bool)
    requires |written| <= room
    ensures bytes == Fitting(written + more, room)
    ensures ok <==> |written + more| <= room
  {
    ok := |written| + |more| <= room;
    bytes := written + if ok then more else more[..room - |written|];
  }

  /** One chunk: the option byte, its length and its bytes. */
  method RunWriteChunk(k: byte, chunk: Bytes, written: Bytes, room: nat) returns (bytes: Bytes, ok: bool)
    requires |written| <= room && |chunk| <= MAX_CHUNK
    ensures bytes == Fitting(written + [k, |chunk|] + chunk, room)
    ensures ok <==> |written + [k, |chunk|] + chunk| <= room
  {
    var n: byte := |chunk|;
    ghost var all := written + [k, n] + chunk;
    hide Fitting;
    assert all == written + [k] + ([n] + chunk);
    bytes, ok := Append(written, [k], room);
    if !ok { FittingPrefix(written + [k], [n] + chunk, room); return; }
    FittingAll(written + [k], room);
    assert all == written + [k] + [n] + chunk;
    bytes, ok := Append(bytes, [n], room);
    if !ok { FittingPrefix(written + [k] + [n], chunk, room); return; }
    FittingAll(written + [k] + [n], room);
    bytes, ok := Append(bytes, chunk, room);
  }

  /** The inner loop of `write_bytes`. */
  method RunWriteOption(k: byte, content: Bytes, written: Bytes, room: nat) returns (bytes: Bytes, ok: bool)
    requires |written| <= room
    ensures bytes == Fitting(written + WriteOption(k, content), room)
    ensures ok <==> |written + WriteOption(k, content)| <= room
  {
    bytes, ok := written, true;
    var left: Bytes := content;
    while |left| > 0
      invariant ok && |bytes| <= room
      invariant bytes + WriteOption(k, left) == written + WriteOption(k, content)
      decreases |left|
    {
      var n := if |left| <= MAX_CHUNK then |left| else MAX_CHUNK;
      ghost var (done, rest) := (bytes + [k, n] + left[..n], WriteOption(k, left[n..]));
      assert bytes + WriteOption(k, left) == done + rest;
      hide WriteOption, Fitting;
      bytes, ok := RunWriteChunk(k, left[..n], bytes, room);
      if !ok { FittingPrefix(done, rest, room); return; }
      FittingAll(done, room);
      left := left[n..];
    }
  }

  lemma FittingAll(b: Bytes, room: nat)
    requires |b| <= room
    ensures Fitting(b, room) == b
  {}

  /** `write_bytes` for a given iteration order of the map, to a writer that fails once `room` bytes are
      written. Failing to write the last byte is not an error. */
  method RunWrite(m: Options, keys: seq<byte>, room: nat) returns (bytes: Bytes, ok: bool)
    requires IsOrder(m, keys)
    ensures bytes == Fitting(WriteAll(m, keys) + [END_OF_OPTIONS], room)
    ensures ok <==> |WriteAll(m, keys)| <= room
  {
    hide WriteOption, Fitting;
    bytes, ok := [], true;
    for i := 0 to |keys|
      invariant ok && |bytes| <= room
      invariant bytes + WriteAll(m, keys[i..]) == WriteAll(m, keys)
    {
      assert keys[i..][1..] == keys[i + 1..];
      var (k, rest) := (keys[i], keys[i + 1..]);
      ghost var done := bytes + WriteOption(k, m[k]);
      assert bytes + (WriteOption(k, m[k]) + WriteAll(m, rest)) == done + WriteAll(m, rest);
      bytes, ok := RunWriteOption(k, m[k], bytes, room);
      if !ok {
        assert done + (WriteAll(m, rest) + [END_OF_OPTIONS]) == WriteAll(m, keys) + [END_OF_OPTIONS];
        FittingPrefix(done, WriteAll(m, rest) + [END_OF_OPTIONS], room);
        return;
      }
      FittingAll(done, room);
    }
    assert bytes == WriteAll(m, keys);
    var ignored;
    bytes, ignored := Append(bytes, [END_OF_OPTIONS], room);
  }

  // ---------------------------------------------------------------- the grammar of options

  /** A byte that is skipped, or one complete chunk. */
  datatype Item = Skip | Chunk(key: byte, content: Bytes)

  predicate Proper(items: seq<Item>) {
    forall i :: 0 <= i < |items| && items[i].Chunk? ==>
      items[i].key > NO_OPERATION && |items[i].content| <= MAX_CHUNK
  }

  function Spelled(item: Item): Bytes
    requires item.Chunk? ==> |item.content| <= MAX_CHUNK
  {
    match item
    case Skip => [NO_OPERATION]
    case Chunk(key, content) => [key, |content|] + content
  }

  function Spell(items: seq<Item>): Bytes
    requires Proper(items)
  {
    if |items| == 0 then [] else Spelled(items[0]) + Spell(items[1..])
  }

  /** The contents given for an option byte, one after the other. */
  function Joined(items: seq<Item>, k: byte): Bytes {
    if |items| == 0 then []
    else (if items[0].Chunk? && items[0].key == k then items[0].content else []) + Joined(items[1..], k)
  }

  predicate Mentions(items: seq<Item>, k: byte) {
    exists i :: 0 <= i < |items| && items[i].Chunk? && items[i].key == k
  }

  /** The options map each byte mentioned, and no other, to its contents joined in order. */
  predicate Collects(m: Options, items: seq<Item>) {
    forall k: byte :: (k in m <==> Mentions(items, k)) && (k in m ==> m[k] == Joined(items, k))
  }

  /** The input is such items and then the end byte and what follows it, or just such items. */
  predicate Spells(b: Bytes, items: seq<Item>, rest: Bytes) {
    Proper(items) && (b == Spell(items) + [END_OF_OPTIONS] + rest || (b == Spell(items) && rest == []))
  }

  /** The beginning of a chunk, but not all of it. */
  predicate CutChunk(b: Bytes) {
    && |b| > 0 && b[0] > NO_OPERATION
    && (|b| == 1 || |b| - 2 < b[1])
  }

  /** The input is such items and then a chunk that is cut off. */
  predicate CutOff(b: Bytes, items: seq<Item>) {
    Proper(items) && Spell(items) <= b && CutChunk(b[|Spell(items)|..])
  }

  /** Options found so far and options still to come. */
  predicate Adds(m: Options, items: seq<Item>, m': Options) {
    forall k: byte :: (k in m' <==> k in m || Mentions(items, k))
      && (k in m' ==> m'[k] == (if k in m then m[k] else []) + Joined(items, k))
  }

  lemma MentionsFirst(item: Item, items: seq<Item>, k: byte)
    ensures Mentions([item] + items, k) <==> (item.Chunk? && item.key == k) || Mentions(items, k)
  {
    var all := [item] + items;
    if Mentions(items, k) {
      var i :| 0 <= i < |items| && items[i].Chunk? && items[i].key == k;
      assert all[i + 1] == items[i];
    }
    assert all[0] == item;
  }

  lemma AddsFirst(m: Options, item: Item, items: seq<Item>, m': Options)
    requires Adds(if item.Chunk? then Extend(m, item.key, item.content) else m, items, m')
    ensures Adds(m, [item] + items, m')
  {
    hide Mentions, Joined;
    forall k: byte
      ensures (k in m' <==> k in m || Mentions([item] + items, k))
      ensures k in m' ==> m'[k] == (if k in m then m[k] else []) + Joined([item] + items, k)
    {
      MentionsFirst(item, items, k);
      JoinedFirst(item, items, k, if k in m then m[k] else []);
    }
  }

  lemma JoinedFirst(item: Item, items: seq<Item>, k: byte, before: Bytes)
    ensures before + Joined([item] + items, k)
         == (if item.Chunk? && item.key == k then before + item.content else before) + Joined(items, k)
  {
    var all := [item] + items;
    assert all[1..] == items;
    if item.Chunk? && item.key == k {
      assert before + (item.content + Joined(items, k)) == before + item.content + Joined(items, k);
    } else {
      assert [] + Joined(items, k) == Joined(items, k);
    }
  }

  /** What the parser does with items it meets: it adds them up and goes on behind them. */
  lemma {:induction false} ParsePast(items: seq<Item>, tail: Bytes, m: Options) returns (m': Options)
    requires Proper(items)
    ensures Adds(m, items, m') && Parse(Spell(items) + tail, m) == Parse(tail, m')
    decreases |items|
  {
    if |items| == 0 {
      m' := m;
      assert Spell(items) + tail == tail;
    } else {
      var (first, rest) := (items[0], items[1..]);
      assert Spell(items) + tail == Spelled(first) + (Spell(rest) + tail);
      assert items == [first] + rest;
      ParseItem(first, Spell(rest) + tail, m);
      hide Parse, Spell, Adds;
      m' := ParsePast(rest, tail, if first.Chunk? then Extend(m, first.key, first.content) else m);
      AddsFirst(m, first, rest, m');
    }
  }

  lemma ParseItem(item: Item, tail: Bytes, m: Options)
    requires item.Chunk? ==> item.key > NO_OPERATION && |item.content| <= MAX_CHUNK
    ensures Parse(Spelled(item) + tail, m)
         == Parse(tail, if item.Chunk? then Extend(m, item.key, item.content) else m)
  {
    if item.Chunk? {
      ParseChunk(item.key, item.content, tail, m);
    } else {
      assert (Spelled(item) + tail)[1..] == tail;
    }
  }

  /** The parser has met these items when it stops. */
  predicate Met(b: Bytes, m: Options, items: seq<Item>) {
    match Parse(b, m)
    case Done(rest, options) => Spells(b, items, rest) && Adds(m, items, options)
    case Incomplete => CutOff(b, items)
  }

  lemma {:induction false} ParseFinds(b: Bytes, m: Options) returns (items: seq<Item>)
    ensures Met(b, m, items)
    decreases |b|
  {
    if |b| == 0 || b[0] == END_OF_OPTIONS || CutChunk(b) {
      items := [];
      ParseStops(b, m);
    } else {
      var item := if b[0] == NO_OPERATION then Skip else Chunk(b[0], b[2..2 + b[1]]);
      var tail := b[|Spelled(item)|..];
      assert b == Spelled(item) + tail;
      hide Met;
      var rest := ParseFinds(tail, if item.Chunk? then Extend(m, item.key, item.content) else m);
      MetFirst(item, tail, m, rest);
      items := [item] + rest;
    }
  }

  lemma ParseStops(b: Bytes, m: Options)
    requires |b| == 0 || b[0] == END_OF_OPTIONS || CutChunk(b)
    ensures Met(b, m, [])
  {
    assert Spell([]) == [] && b[0..] == b;
    if |b| > 0 { assert b == [] + [b[0]] + b[1..]; }
  }

  lemma MetFirst(item: Item, tail: Bytes, m: Options, rest: seq<Item>)
    requires item.Chunk? ==> item.key > NO_OPERATION && |item.content| <= MAX_CHUNK
    requires Met(tail, if item.Chunk? then Extend(m, item.key, item.content) else m, rest)
    ensures Met(Spelled(item) + tail, m, [item] + rest)
  {
    hide Parse, Adds, Spells, CutOff, Spelled;
    ParseItem(item, tail, m);
    match Parse(tail, if item.Chunk? then Extend(m, item.key, item.content) else m)
    case Done(after, options) =>
      AddsFirst(m, item, rest, options);
      SpellsFirst(item, tail, rest, after);
    case Incomplete =>
      CutFirst(item, tail, rest);
  }

  lemma SpellsFirst(item: Item, tail: Bytes, rest: seq<Item>, after: Bytes)
    requires item.Chunk? ==> item.key > NO_OPERATION && |item.content| <= MAX_CHUNK
    requires Spells(tail, rest, after)
    ensures Spells(Spelled(item) + tail, [item] + rest, after)
  {
    SpellFirst(item, rest);
    hide Spell, Spelled, Proper;
    assert Spelled(item) + (Spell(rest) + [END_OF_OPTIONS] + after)
        == Spelled(item) + Spell(rest) + [END_OF_OPTIONS] + after;
  }

  lemma CutFirst(item: Item, tail: Bytes, rest: seq<Item>)
    requires item.Chunk? ==> item.key > NO_OPERATION && |item.content| <= MAX_CHUNK
    requires CutOff(tail, rest)
    ensures CutOff(Spelled(item) + tail, [item] + rest)
  {
    SpellFirst(item, rest);
    hide Spell, Spelled, Proper, CutChunk;
    var (b, n) := (Spelled(item) + tail, |Spelled(item) + Spell(rest)|);
    assert b[n..] == tail[|Spell(rest)|..];
    assert Spelled(item) + Spell(rest) <= b;
  }

  lemma SpellFirst(item: Item, rest: seq<Item>)
    requires Proper(rest) && (item.Chunk? ==> item.key > NO_OPERATION && |item.content| <= MAX_CHUNK)
    ensures Proper([item] + rest) && Spell([item] + rest) == Spelled(item) + Spell(rest)
  {
    var items := [item] + rest;
    assert items[1..] == rest;
    forall i | 0 <= i < |items| ensures items[i] == if i == 0 then item else rest[i - 1] {}
  }

  /** Reading succeeds with these options and this rest if and only if the input is no-operation bytes and
      complete chunks, then the end byte and the rest or nothing, and the options are its chunks joined. */
  lemma ParsedExactly(b: Bytes, rest: Bytes, m: Options)
    ensures Parse(b, map[]) == Done(rest, m) <==> exists items :: Spells(b, items, rest) && Collects(m, items)
  {
    if Parse(b, map[]) == Done(rest, m) {
      var items := ParseFinds(b, map[]);
      AddsToNothing(items, m);
    }
    forall items | Spells(b, items, rest) && Collects(m, items)
      ensures Parse(b, map[]) == Done(rest, m)
    {
      SpelledParses(b, items, rest, m);
    }
  }

  lemma AddsToNothing(items: seq<Item>, m: Options)
    requires Adds(map[], items, m)
    ensures Collects(m, items)
  {
    forall k: byte | k in m ensures m[k] == Joined(items, k) {
      assert [] + Joined(items, k) == Joined(items, k);
    }
  }

  lemma SpelledParses(b: Bytes, items: seq<Item>, rest: Bytes, m: Options)
    requires Spells(b, items, rest) && Collects(m, items)
    ensures Parse(b, map[]) == Done(rest, m)
  {
    var tail := if b == Spell(items) + [END_OF_OPTIONS] + rest then [END_OF_OPTIONS] + rest else [];
    assert b == Spell(items) + tail;
    var m' := ParsePast(items, tail, map[]);
    assert tail == [] || tail[1..] == rest;
    assert Parse(tail, m') == Done(rest, m');
    hide Parse, Spell;
    AddsToNothing(items, m');
    assert m == m';
  }

  /** It is incomplete if and only if such a sequence is cut off inside a chunk. */
  lemma IncompleteExactly(b: Bytes)
    ensures Parse(b, map[]).Incomplete? <==> exists items :: CutOff(b, items)
  {
    if Parse(b, map[]).Incomplete? {
      var items := ParseFinds(b, map[]);
    }
    forall items | CutOff(b, items)
      ensures Parse(b, map[]).Incomplete?
    {
      var tail := b[|Spell(items)|..];
      assert b == Spell(items) + tail;
      var m' := ParsePast(items, tail, map[]);
    }
  }

  // ---------------------------------------------------------------- reading back what was written

  lemma ParseChunk(k: byte, chunk: Bytes, tail: Bytes, m: Options)
    requires k > NO_OPERATION && |chunk| <= MAX_CHUNK
    ensures Parse([k, |chunk|] + chunk + tail, m) == Parse(tail, Extend(m, k, chunk))
  {
    var b := [k, |chunk|] + chunk + tail;
    assert b[2..2 + |chunk|] == chunk && b[2 + |chunk|..] == tail;
  }

  /** The chunks of an option come together again; an empty content leaves no trace. */
  lemma {:induction false} ParseOption(k: byte, content: Bytes, tail: Bytes, m: Options)
    requires k > NO_OPERATION
    ensures Parse(WriteOption(k, content) + tail, m)
         == Parse(tail, if |content| == 0 then m else Extend(m, k, content))
    decreases |content|
  {
    if |content| == 0 {
      assert WriteOption(k, content) + tail == tail;
    } else {
      var n := if |content| <= MAX_CHUNK then |content| else MAX_CHUNK;
      var (first, rest) := (content[..n], content[n..]);
      assert WriteOption(k, content) + tail == [k, |first|] + first + (WriteOption(k, rest) + tail);
      ParseChunk(k, first, WriteOption(k, rest) + tail, m);
      ParseOption(k, rest, tail, Extend(m, k, first));
      hide Parse, WriteOption;
      ExtendTwice(m, k, first, rest);
      assert content == first + rest;
      if |rest| == 0 { assert first == content; }
    }
  }

  lemma ExtendTwice(m: Options, k: byte, a: Bytes, b: Bytes)
    ensures Extend(Extend(m, k, a), k, b) == Extend(m, k, a + b)
  {
    var c := if k in m then m[k] else [];
    assert c + a + b == c + (a + b);
  }

  /** The options that leave a trace: those with content. */
  function Visible(m: Options, keys: seq<byte>): (r: Options)
    requires forall k :: k in keys ==> k in m
    ensures forall k :: k in r <==> k in keys && m[k] != []
    ensures forall k :: k in r ==> r[k] == m[k]
  {
    map k | k in keys && m[k] != [] :: m[k]
  }

  lemma {:induction false} ParseWritten(m: Options, keys: seq<byte>, tail: Bytes, acc: Options)
    requires forall k :: k in keys ==> k in m && k > NO_OPERATION && k !in acc
    requires forall i, j :: 0 <= i < j < |keys| ==> keys[i] != keys[j]
    ensures Parse(WriteAll(m, keys) + tail, acc) == Parse(tail, acc + Visible(m, keys))
    decreases |keys|
  {
    if |keys| == 0 {
      assert WriteAll(m, keys) + tail == tail;
      assert acc + Visible(m, keys) == acc;
    } else {
      var (k, rest) := (keys[0], keys[1..]);
      assert WriteAll(m, keys) + tail == WriteOption(k, m[k]) + (WriteAll(m, rest) + tail);
      ParseOption(k, m[k], WriteAll(m, rest) + tail, acc);
      hide Parse, WriteOption, WriteAll;
      NextVisible(m, keys, acc);
      ParseWritten(m, rest, tail, if |m[k]| == 0 then acc else Extend(acc, k, m[k]));
    }
  }

  lemma NextVisible(m: Options, keys: seq<byte>, acc: Options)
    requires |keys| > 0 && forall k :: k in keys ==> k in m && k !in acc
    requires forall i, j :: 0 <= i < j < |keys| ==> keys[i] != keys[j]
    ensures var (k, rest) := (keys[0], keys[1..]);
      var acc' := if |m[k]| == 0 then acc else Extend(acc, k, m[k]);
      && (forall j :: j in rest ==> j in m && j in keys && j !in acc')
      && acc' + Visible(m, rest) == acc + Visible(m, keys)
  {
    var (k, rest) := (keys[0], keys[1..]);
    VisibleFirst(m, keys);
    assert [] + m[k] == m[k];
    hide Visible;
    assert forall j :: j in rest ==> j in keys;
    if |m[k]| > 0 {
      assert Extend(acc, k, m[k]) == acc[k := m[k]];
      MoveKey(acc, Visible(m, rest), k, m[k]);
    }
  }

  lemma MoveKey(a: Options, v: Options, k: byte, c: Bytes)
    requires k !in v
    ensures a[k := c] + v == a + v[k := c]
  {}

  lemma VisibleFirst(m: Options, keys: seq<byte>)
    requires |keys| > 0 && forall k :: k in keys ==> k in m
    requires forall i, j :: 0 <= i < j < |keys| ==> keys[i] != keys[j]
    ensures keys[0] !in keys[1..]
    ensures var v := Visible(m, keys[1..]);
      Visible(m, keys) == if |m[keys[0]]| == 0 then v else v[keys[0] := m[keys[0]]]
  {
    var (k, rest) := (keys[0], keys[1..]);
    hide Visible;
    assert keys == [k] + rest && k !in rest;
    assert forall j :: j in keys <==> j == k || j in rest;
  }

  /** The option bytes 0 and 1 are never read as options. */
  lemma {:induction false} NoReservedKeys(b: Bytes, m: Options)
    requires END_OF_OPTIONS !in m && NO_OPERATION !in m
    ensures var p := Parse(b, m); p.Done? ==> END_OF_OPTIONS !in p.options && NO_OPERATION !in p.options
    decreases |b|
  {
    if |b| > 0 && b[0] == NO_OPERATION {
      NoReservedKeys(b[1..], m);
    } else if |b| >= 2 && b[0] > NO_OPERATION && |b| - 2 >= b[1] {
      NoReservedKeys(b[2 + b[1]..], Extend(m, b[0], b[2..2 + b[1]]));
    }
  }

  /** What survives writing and reading: options with a reserved byte or without content do not. */
  predicate Writable(m: Options) {
    forall k :: k in m ==> k > NO_OPERATION && m[k] != []
  }

  lemma ParsedVisible(m: Options, keys: seq<byte>, tail: Bytes)
    requires IsOrder(m, keys) && forall k :: k in m ==> k > NO_OPERATION
    ensures Parse(WriteAll(m, keys) + tail, map[]) == Parse(tail, Visible(m, keys))
  {
    hide WriteAll, Parse, Visible;
    ParseWritten(m, keys, tail, map[]);
    assert map[] + Visible(m, keys) == Visible(m, keys);
  }

  lemma AllVisible(m: Options, keys: seq<byte>)
    requires IsOrder(m, keys)
    ensures Visible(m, keys) == m <==> forall k :: k in m ==> m[k] != []
  {
    hide Visible;
    if forall k :: k in m ==> m[k] != [] { assert Visible(m, keys) == m; }
  }

  /** Whatever order the map is iterated in, reading what was written restores the map, leaving what
      follows unread, if and only if no option byte is reserved and every content is non-empty. */
  lemma RestoredExactly(m: Options, keys: seq<byte>, tail: Bytes)
    requires IsOrder(m, keys)
    ensures Parse(WriteAll(m, keys) + [END_OF_OPTIONS] + tail, map[]) == Done(tail, m) <==> Writable(m)
  {
    var b := WriteAll(m, keys) + [END_OF_OPTIONS] + tail;
    assert b == WriteAll(m, keys) + ([END_OF_OPTIONS] + tail);
    if forall k :: k in m ==> k > NO_OPERATION {
      var v := Visible(m, keys);
      assert Parse([END_OF_OPTIONS] + tail, v) == Done(tail, v) by { assert ([END_OF_OPTIONS] + tail)[1..] == tail; }
      hide Parse, WriteAll, Visible;
      ParsedVisible(m, keys, [END_OF_OPTIONS] + tail);
      AllVisible(m, keys);
    } else {
      NoReservedKeys(b, map[]);
    }
  }

  /** The same holds without the terminating byte at the end of a packet. */
  lemma RestoredWithoutEnd(m: Options, keys: seq<byte>)
    requires IsOrder(m, keys)
    ensures Parse(WriteAll(m, keys), map[]) == Done([], m) <==> Writable(m)
  {
    if forall k :: k in m ==> k > NO_OPERATION {
      assert Parse([], Visible(m, keys)) == Done([], Visible(m, keys));
      hide WriteAll, Parse, Visible;
      ParsedVisible(m, keys, []);
      assert WriteAll(m, keys) + [] == WriteAll(m, keys);
      AllVisible(m, keys);
    } else {
      hide WriteAll, Parse, IsOrder;
      NoReservedKeys(WriteAll(m, keys), map[]);
    }
  }

  /** So whenever writing reports success, whether or not the last byte found room, reading what was written
      restores the map exactly under that condition. */
  lemma WrittenRestored(m: Options, keys: seq<byte>, room: nat)
    requires IsOrder(m, keys) && |WriteAll(m, keys)| <= room
    ensures Parse(Fitting(WriteAll(m, keys) + [END_OF_OPTIONS], room), map[]) == Done([], m) <==> Writable(m)
  {
    var b := WriteAll(m, keys) + [END_OF_OPTIONS];
    hide Parse, WriteAll;
    if |b| <= room {
      RestoredExactly(m, keys, []);
      assert b + [] == b;
    } else {
      RestoredWithoutEnd(m, keys);
      assert b[..room] == WriteAll(m, keys);
    }
  }
}
