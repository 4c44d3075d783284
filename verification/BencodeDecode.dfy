/** The recursive-descent decoder of src/bencode/reference, which records the source span of every value. */
module BencodeDecode {
  import opened Common
  import opened BencodeTokens

  /** A decoding call finishes, returns an error, or panics (an `unwrap` of an error). */
  datatype Outcome<+T> = Done(value: T, next: nat) | Rejected | Panicked

  datatype Options = Options(maxRecursion: nat, checkKeySort: bool, enforceFullDecode: bool)

  /** A bencode value. A dictionary is a `BTreeMap`: its entries in increasing key order. */
  datatype Value =
    | Int(n: int)
    | Str(s: Bytes)
    | List(items: seq<Value>)
    | Dict(entries: seq<(Bytes, Value)>)

  /** `BencodeRef`: a value whose every part remembers the span [lo, hi) of the input it was read from. */
  datatype Ref =
    | RInt(n: int, lo: nat, hi: nat)
    | RStr(s: Bytes, lo: nat, hi: nat)
    | RList(items: seq<Ref>, lo: nat, hi: nat)
    | RDict(entries: seq<(Bytes, Ref)>, lo: nat, hi: nat)

  /** The value alone. */
  function Erase(r: Ref): Value
    decreases r
  {
    match r
    case RInt(n, _, _) => Int(n)
    case RStr(s, _, _) => Str(s)
    case RList(items, _, _) => List(EraseItems(items))
    case RDict(entries, _, _) => Dict(EraseEntries(entries))
  }

  function EraseItems(items: seq<Ref>): (vs: seq<Value>)
    ensures |vs| == |items|
    decreases items
  {
    seq(|items|, i requires 0 <= i < |items| => Erase(items[i]))
  }

  function EraseEntries(entries: seq<(Bytes, Ref)>): (vs: seq<(Bytes, Value)>)
    ensures |vs| == |entries|
    decreases entries
  {
    seq(|entries|, i requires 0 <= i < |entries| =>
      assert entries[i].1 < entries[i];
      (entries[i].0, Erase(entries[i].1)))
  }

  // ---------------------------------------------------------------- ordered entries

  predicate KeysAscend<T>(es: seq<(Bytes, T)>) {
    forall i, j :: 0 <= i < j < |es| ==> LexLess(es[i].0, es[j].0)
  }

  predicate HasKey<T>(es: seq<(Bytes, T)>, k: Bytes) {
    exists i :: 0 <= i < |es| && es[i].0 == k
  }

  /** Inserting a new key into a `BTreeMap`. */
  function InsertSorted<T>(es: seq<(Bytes, T)>, k: Bytes, v: T): (r: seq<(Bytes, T)>)
    ensures |r| == |es| + 1
    ensures multiset(r) == multiset(es) + multiset{(k, v)}
  {
    if |es| == 0 || LexLess(es[|es| - 1].0, k) then es + [(k, v)]
    else
      assert es == es[..|es| - 1] + [es[|es| - 1]];
      InsertSorted(es[..|es| - 1], k, v) + [es[|es| - 1]]
  }

  lemma {:induction false} InsertAscends<T>(es: seq<(Bytes, T)>, k: Bytes, v: T)
    requires KeysAscend(es) && !HasKey(es, k)
    ensures KeysAscend(InsertSorted(es, k, v))
  {
    if |es| > 0 {
      var last := es[|es| - 1];
      if LexLess(last.0, k) {
        forall i | 0 <= i < |es|
          ensures LexLess(es[i].0, k)
        {
          if i < |es| - 1 { LexTransitive(es[i].0, last.0, k); }
        }
      } else {
        var init := es[..|es| - 1];
        InsertAscends(init, k, v);
        LexTotal(last.0, k);
        var r := InsertSorted(init, k, v);
        forall i | 0 <= i < |r|
          ensures LexLess(r[i].0, last.0)
        {
          assert r[i] in multiset(r);
          assert r[i] == (k, v) || r[i] in init;
        }
      }
    }
  }

  lemma {:induction false} InsertErases(es: seq<(Bytes, Ref)>, k: Bytes, v: Ref)
    ensures EraseEntries(InsertSorted(es, k, v)) == InsertSorted(EraseEntries(es), k, Erase(v))
  {
    hide Erase, EraseEntries;
    if |es| == 0 {
      EraseAppend([], (k, v));
    } else {
      var (init, last) := (es[..|es| - 1], es[|es| - 1]);
      assert es == init + [last];
      EraseAppend(init, last);
      if LexLess(last.0, k) {
        EraseAppend(es, (k, v));
      } else {
        InsertErases(init, k, v);
        EraseAppend(InsertSorted(init, k, v), last);
        assert EraseEntries(es)[..|es| - 1] == EraseEntries(init);
      }
    }
  }

  lemma EraseAppend(es: seq<(Bytes, Ref)>, e: (Bytes, Ref))
    ensures EraseEntries([]) == [] && EraseEntries(es + [e]) == EraseEntries(es) + [(e.0, Erase(e.1))]
  {
    hide Erase;
  }

  // ---------------------------------------------------------------- the decoder

  /** `decode`. */
  function Decode(b: Bytes, pos: nat, opts: Options, depth: nat): (r: Outcome<Ref>)
    ensures r.Done? ==> pos < r.next <= |b| && r.value.lo == pos && r.value.hi == r.next
    decreases if pos <= |b| then |b| - pos else 0, 0
  {
    if depth >= opts.maxRecursion || pos >= |b| then Rejected
    else if b[pos] == INT_START then
      match DecodeInt(b, pos + 1, BEN_END)
      case None => Rejected
      case Some((n, next)) => Done(RInt(n, pos, next), next)
    else if b[pos] == LIST_START then
      match DecodeItems(b, pos + 1, opts, depth, [])
      case Done(items, next) => Done(RList(items, pos, next), next)
      case Rejected => Rejected
      case Panicked => Panicked
    else if b[pos] == DICT_START then
      match DecodeEntries(b, pos + 1, opts, depth, [])
      case Done(entries, next) => Done(RDict(entries, pos, next), next)
      case Rejected => Rejected
      case Panicked => Panicked
    else if BYTE_LEN_LOW <= b[pos] <= BYTE_LEN_HIGH then
      match DecodeBytes(b, pos)
      case None => Rejected
      case Some((s, next)) => Done(RStr(s, pos, next), next)
    else Rejected
  }

  /** `decode_list` from the top of its loop: pos is `curr_pos`, acc is `bencode_list`. */
  function DecodeItems(b: Bytes, pos: nat, opts: Options, depth: nat, acc: seq<Ref>): (r: Outcome<seq<Ref>>)
    requires pos <= |b|
    ensures r.Done? ==> pos < r.next <= |b| && acc <= r.value
    decreases |b| - pos, 1
  {
    if pos >= |b| then Rejected
    else if b[pos] == BEN_END then Done(acc, pos + 1)
    else
      match Decode(b, pos, opts, depth + 1)
      case Done(v, next) => DecodeItems(b, next, opts, depth, acc + [v])
      case Rejected => Rejected
      case Panicked => Panicked
  }

  /** `decode_dict` from the top of its loop. The value of an entry is unwrapped, so its error panics. */
  function DecodeEntries(b: Bytes, pos: nat, opts: Options, depth: nat, acc: seq<(Bytes, Ref)>)
    : (r: Outcome<seq<(Bytes, Ref)>>)
    requires pos <= |b|
    ensures r.Done? ==> pos < r.next <= |b|
    decreases |b| - pos, 1
  {
    if pos >= |b| then Rejected
    else if b[pos] == BEN_END then Done(acc, pos + 1)
    else
      match DecodeBytes(b, pos)
      case None => Rejected
      case Some((key, valuePos)) =>
        if opts.checkKeySort && |acc| > 0 && LexLess(key, acc[|acc| - 1].0) then Rejected
        else
          match Decode(b, valuePos, opts, depth + 1)
          case Done(v, next) =>
            if HasKey(acc, key) then Rejected
            else DecodeEntries(b, next, opts, depth, InsertSorted(acc, key, v))
          case Rejected => Panicked
          case Panicked => Panicked
  }

  /** `BencodeRef::decode`. */
  function DecodeAll(b: Bytes, opts: Options): (r: Outcome<Ref>)
  {
    var r := Decode(b, 0, opts, 0);
    if r.Done? && r.next != |b| && opts.enforceFullDecode then Rejected else r
  }

  // ---------------------------------------------------------------- the decoder as the source runs it

  method RunDecode(b: Bytes, pos: nat, opts: Options, depth: nat) returns (r: Outcome<Ref>)
    ensures r == Decode(b, pos, opts, depth)
    decreases if pos <= |b| then |b| - pos else 0, 0
  {
    if depth >= opts.maxRecursion || pos >= |b| {
      return Rejected;
    }
    if b[pos] == INT_START {
      var n := DecodeInt(b, pos + 1, BEN_END);
      r := if n.Some? then Done(RInt(n.value.0, pos, n.value.1), n.value.1) else Rejected;
    } else if b[pos] == LIST_START {
      var items := RunDecodeList(b, pos + 1, opts, depth);
      r := match items
           case Done(v, next) => Done(RList(v, pos, next), next)
           case Rejected => Rejected
           case Panicked => Panicked;
    } else if b[pos] == DICT_START {
      var entries := RunDecodeDict(b, pos + 1, opts, depth);
      r := match entries
           case Done(v, next) => Done(RDict(v, pos, next), next)
           case Rejected => Rejected
           case Panicked => Panicked;
    } else if BYTE_LEN_LOW <= b[pos] <= BYTE_LEN_HIGH {
      var s := DecodeBytes(b, pos);
      r := if s.Some? then Done(RStr(s.value.0, pos, s.value.1), s.value.1) else Rejected;
    } else {
      r := Rejected;
    }
  }

  method RunDecodeList(b: Bytes, pos: nat, opts: Options, depth: nat) returns (r: Outcome<seq<Ref>>)
    requires pos <= |b|
    ensures r == DecodeItems(b, pos, opts, depth, [])
    decreases |b| - pos, 1
  {
    var list: seq<Ref> := [];
    var currPos := pos;
    if currPos >= |b| { return Rejected; }
    while b[currPos] != BEN_END
      invariant pos <= currPos < |b|
      invariant DecodeItems(b, pos, opts, depth, []) == DecodeItems(b, currPos, opts, depth, list)
      decreases |b| - currPos
    {
      var item := RunDecode(b, currPos, opts, depth + 1);
      if item.Rejected? { return Rejected; }
      if item.Panicked? { return Panicked; }
      list := list + [item.value];
      currPos := item.next;
      if currPos >= |b| { return Rejected; }
    }
    r := Done(list, currPos + 1);
  }

  method RunDecodeDict(b: Bytes, pos: nat, opts: Options, depth: nat) returns (r: Outcome<seq<(Bytes, Ref)>>)
    requires pos <= |b|
    ensures r == DecodeEntries(b, pos, opts, depth, [])
    decreases |b| - pos, 1
  {
    var dict: seq<(Bytes, Ref)> := [];
    var currPos := pos;
    if currPos >= |b| { return Rejected; }
    while b[currPos] != BEN_END
      invariant pos <= currPos < |b|
      invariant DecodeEntries(b, pos, opts, depth, []) == DecodeEntries(b, currPos, opts, depth, dict)
      decreases |b| - currPos
    {
      var key := DecodeBytes(b, currPos);
      if key.None? { return Rejected; }
      if opts.checkKeySort && |dict| > 0 && LexLess(key.value.0, dict[|dict| - 1].0) { return Rejected; }
      var value := RunDecode(b, key.value.1, opts, depth + 1);
      if !value.Done? { return Panicked; }
      if HasKey(dict, key.value.0) { return Rejected; }
      dict := InsertSorted(dict, key.value.0, value.value);
      currPos := value.next;
      if currPos >= |b| { return Rejected; }
    }
    r := Done(dict, currPos + 1);
  }

  // ---------------------------------------------------------------- decoding depends only on the bytes it consumes

  /** The second call may recurse at least as deep as the first and checks no more key order. */
  predicate AtLeastAsLenient(opts: Options, depth: nat, opts': Options, depth': nat) {
    opts.maxRecursion - depth <= opts'.maxRecursion - depth' && (opts'.checkKeySort ==> opts.checkKeySort)
  }

  /** A call that succeeds also succeeds, with the same value and length, on any input that has the
      same bytes at some position, whatever surrounds them, under options at least as lenient. */
  lemma {:induction false} DecodeFrame(a: Bytes, from: nat, opts: Options, depth: nat,
                                       b: Bytes, pos: nat, opts': Options, depth': nat)
    requires Decode(a, from, opts, depth).Done?
    requires SameWindow(a, from, Decode(a, from, opts, depth).next, b, pos)
    requires AtLeastAsLenient(opts, depth, opts', depth')
    ensures var (d, d') := (Decode(a, from, opts, depth), Decode(b, pos, opts', depth'));
      d'.Done? && d'.next == pos + (d.next - from) && Erase(d'.value) == Erase(d.value)
    decreases |a| - from, 0
  {
    hide SameWindow, DecodeInt, DecodeBytes;
    var next := Decode(a, from, opts, depth).next;
    SubWindow(a, from, next, b, pos, from, next);
    SubWindow(a, from, next, b, pos, from + 1, next);
    if a[from] == INT_START {
      DecodeIntFrame(a, from + 1, BEN_END, b, pos + 1);
    } else if a[from] == LIST_START {
      ItemsFrame(a, from + 1, opts, depth, [], b, pos + 1, opts', depth', []);
    } else if a[from] == DICT_START {
      EntriesFrame(a, from + 1, opts, depth, [], b, pos + 1, opts', depth', []);
    } else {
      DecodeBytesFrame(a, from, b, pos);
    }
  }

  lemma {:induction false} ItemsFrame(a: Bytes, from: nat, opts: Options, depth: nat, acc: seq<Ref>,
                                      b: Bytes, pos: nat, opts': Options, depth': nat, acc': seq<Ref>)
    requires from <= |a| && DecodeItems(a, from, opts, depth, acc).Done?
    requires SameWindow(a, from, DecodeItems(a, from, opts, depth, acc).next, b, pos)
    requires AtLeastAsLenient(opts, depth, opts', depth')
    requires EraseItems(acc) == EraseItems(acc')
    ensures var (d, d') := (DecodeItems(a, from, opts, depth, acc), DecodeItems(b, pos, opts', depth', acc'));
      d'.Done? && d'.next == pos + (d.next - from) && EraseItems(d'.value) == EraseItems(d.value)
    decreases |a| - from, 1
  {
    hide SameWindow, Decode;
    var next := DecodeItems(a, from, opts, depth, acc).next;
    SubWindow(a, from, next, b, pos, from, next);
    if a[from] != BEN_END {
      var item := Decode(a, from, opts, depth + 1).next;
      SubWindow(a, from, next, b, pos, from, item);
      SubWindow(a, from, next, b, pos, item, next);
      DecodeFrame(a, from, opts, depth + 1, b, pos, opts', depth' + 1);
      var (d, d') := (Decode(a, from, opts, depth + 1), Decode(b, pos, opts', depth' + 1));
      assert EraseItems(acc + [d.value]) == EraseItems(acc) + [Erase(d.value)];
      assert EraseItems(acc' + [d'.value]) == EraseItems(acc') + [Erase(d'.value)];
      ItemsFrame(a, d.next, opts, depth, acc + [d.value], b, d'.next, opts', depth', acc' + [d'.value]);
    }
  }

  lemma {:induction false} EntriesFrame(a: Bytes, from: nat, opts: Options, depth: nat, acc: seq<(Bytes, Ref)>,
                                        b: Bytes, pos: nat, opts': Options, depth': nat, acc': seq<(Bytes, Ref)>)
    requires from <= |a| && DecodeEntries(a, from, opts, depth, acc).Done?
    requires SameWindow(a, from, DecodeEntries(a, from, opts, depth, acc).next, b, pos)
    requires AtLeastAsLenient(opts, depth, opts', depth')
    requires EraseEntries(acc) == EraseEntries(acc')
    ensures var (d, d') := (DecodeEntries(a, from, opts, depth, acc), DecodeEntries(b, pos, opts', depth', acc'));
      d'.Done? && d'.next == pos + (d.next - from) && EraseEntries(d'.value) == EraseEntries(d.value)
    decreases |a| - from, 1
  {
    hide SameWindow, Decode, DecodeBytes, InsertSorted, EraseEntries, HasKey;
    var next := DecodeEntries(a, from, opts, depth, acc).next;
    SubWindow(a, from, next, b, pos, from, next);
    if a[from] != BEN_END {
      var (key, p) := DecodeBytes(a, from).value;
      var valueEnd := Decode(a, p, opts, depth + 1).next;
      SubWindow(a, from, next, b, pos, from, p);
      SubWindow(a, from, next, b, pos, p, valueEnd);
      SubWindow(a, from, next, b, pos, valueEnd, next);
      DecodeBytesFrame(a, from, b, pos);
      var p' := DecodeBytes(b, pos).value.1;
      DecodeFrame(a, p, opts, depth + 1, b, p', opts', depth' + 1);
      var (d, d') := (Decode(a, p, opts, depth + 1), Decode(b, p', opts', depth' + 1));
      SameKeys(acc, acc', key);
      InsertErases(acc, key, d.value);
      InsertErases(acc', key, d'.value);
      EntriesFrame(a, d.next, opts, depth, InsertSorted(acc, key, d.value),
                   b, d'.next, opts', depth', InsertSorted(acc', key, d'.value));
    }
  }

  lemma SameKeys(acc: seq<(Bytes, Ref)>, acc': seq<(Bytes, Ref)>, key: Bytes)
    requires EraseEntries(acc) == EraseEntries(acc')
    ensures |acc| == |acc'| && forall i :: 0 <= i < |acc| ==> acc[i].0 == acc'[i].0
    ensures HasKey(acc, key) <==> HasKey(acc', key)
  {
    forall i | 0 <= i < |acc|
      ensures acc[i].0 == acc'[i].0
    {
      assert EraseEntries(acc)[i].0 == EraseEntries(acc')[i].0;
    }
  }
}
