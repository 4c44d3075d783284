/** Both encoders, the round trip through the decoder, and when re-encoding restores the input. */
module BencodeEncode {
  import opened Common
  import opened BencodeTokens
  import opened BencodeDecode

  /** What a Rust value of the type can be: integers are `i64`, slices are shorter than 2^63,
      and a `BTreeMap` holds each key once, in order. */
  predicate WellFormed(v: Value)
    decreases v
  {
    match v
    case Int(n) => I64_MIN <= n <= I64_MAX
    case Str(s) => |s| <= I64_MAX
    case List(items) => forall i :: 0 <= i < |items| ==> WellFormed(items[i])
    case Dict(entries) =>
      && KeysAscend(entries)
      && forall i :: 0 <= i < |entries| ==>
           (assert entries[i].1 < entries[i]; |entries[i].0| <= I64_MAX && WellFormed(entries[i].1))
  }

  function Encode(v: Value): (r: Bytes)
    ensures |r| > 0 && r[0] != BEN_END
    decreases v
  {
    match v
    case Int(n) => [INT_START] + IntText(n) + [BEN_END]
    case Str(s) => EncodeBytes(s)
    case List(items) => [LIST_START] + EncodeItems(items, 0) + [BEN_END]
    case Dict(entries) => [DICT_START] + EncodeEntries(entries, 0) + [BEN_END]
  }

  function EncodeItems(items: seq<Value>, i: nat): Bytes
    requires i <= |items|
    decreases items, |items| - i
  {
    if i == |items| then [] else Encode(items[i]) + EncodeItems(items, i + 1)
  }

  function EncodeEntries(entries: seq<(Bytes, Value)>, i: nat): Bytes
    requires i <= |entries|
    decreases entries, |entries| - i
  {
    if i == |entries| then []
    else
      assert entries[i].1 < entries[i];
      EncodeBytes(entries[i].0) + (Encode(entries[i].1) + EncodeEntries(entries, i + 1))
  }

  /** How many nested calls decoding needs. */
  function Depth(v: Value): nat
    decreases v
  {
    match v
    case Int(_) => 1
    case Str(_) => 1
    case List(items) => 1 + ItemsDepth(items, 0)
    case Dict(entries) => 1 + EntriesDepth(entries, 0)
  }

  function Max(a: nat, b: nat): nat { if a < b then b else a }

  function ItemsDepth(items: seq<Value>, i: nat): nat
    requires i <= |items|
    decreases items, |items| - i
  {
    if i == |items| then 0 else Max(Depth(items[i]), ItemsDepth(items, i + 1))
  }

  function EntriesDepth(entries: seq<(Bytes, Value)>, i: nat): nat
    requires i <= |entries|
    decreases entries, |entries| - i
  {
    if i == |entries| then 0
    else
      assert entries[i].1 < entries[i];
      Max(Depth(entries[i].1), EntriesDepth(entries, i + 1))
  }

  /** One value with every kind in it, as d1:ai-12e2:bbl1:xee. */
  lemma KnownEncoding()
    ensures Encode(Dict([([97], Int(-12)), ([98, 98], List([Str([120])]))]))
         == [100, 49, 58, 97, 105, 45, 49, 50, 101, 50, 58, 98, 98, 108, 49, 58, 120, 101, 101]
  {
    var entries := [([97], Int(-12)), ([98, 98], List([Str([120])]))];
    assert Numeral(1) == [49] && Numeral(2) == [50];
    KnownValues();
    assert EncodeEntries(entries, 2) == [];
    assert EncodeEntries(entries, 1) == [50, 58, 98, 98, 108, 49, 58, 120, 101];
    assert EncodeEntries(entries, 0) == [49, 58, 97, 105, 45, 49, 50, 101] + EncodeEntries(entries, 1);
  }

  lemma KnownValues()
    ensures Encode(Int(-12)) == [105, 45, 49, 50, 101]
    ensures Encode(List([Str([120])])) == [108, 49, 58, 120, 101]
  {
    assert Numeral(1) == [49] && Numeral(12) == [49, 50];
    assert EncodeItems([Str([120])], 1) == [];
    assert EncodeItems([Str([120])], 0) == [49, 58, 120];
  }

  // ---------------------------------------------------------------- decoding an encoding

  /** s stands at position pos of b. */
  predicate At(b: Bytes, pos: nat, s: Bytes) {
    pos + |s| <= |b| && b[pos..pos + |s|] == s
  }

  lemma AtSplit(b: Bytes, pos: nat, x: Bytes, y: Bytes)
    ensures At(b, pos, x + y) <==> At(b, pos, x) && At(b, pos + |x|, y)
  {
    if pos + |x| + |y| <= |b| {
      var w := b[pos..pos + |x| + |y|];
      assert w == b[pos..pos + |x|] + b[pos + |x|..pos + |x| + |y|];
      if w == x + y {
        assert w[..|x|] == x && w[|x|..] == y;
      }
    }
  }

  lemma AtWindow(b: Bytes, pos: nat, s: Bytes)
    requires At(b, pos, s)
    ensures SameWindow(s, 0, |s|, b, pos)
    ensures pos + |s| <= |b| && (|s| > 0 ==> b[pos] == s[0])
  {
    assert s[0..|s|] == s;
    SliceWindow(s, 0, |s|, b, pos);
  }

  /** Wherever the encoding of a value stands, decoding reads that value and stops right after it,
      provided the nesting limit leaves room. */
  lemma {:induction false} EncodingDecodes(v: Value, b: Bytes, pos: nat, opts: Options, depth: nat)
    requires WellFormed(v) && depth + Depth(v) <= opts.maxRecursion && At(b, pos, Encode(v))
    ensures var d := Decode(b, pos, opts, depth);
      d.Done? && d.next == pos + |Encode(v)| && Erase(d.value) == v
    decreases v
  {
    hide At, SameWindow, DecodeInt, DecodeBytes, DecodeItems, DecodeEntries, IntText, EncodeBytes;
    AtWindow(b, pos, Encode(v));
    match v
    case Int(n) =>
      assert Encode(v) == [INT_START] + (IntText(n) + [BEN_END]);
      AtSplit(b, pos, [INT_START], IntText(n) + [BEN_END]);
      AtWindow(b, pos + 1, IntText(n) + [BEN_END]);
      EncodedIntDecodes(n, b, pos + 1, BEN_END);
    case Str(s) =>
      EncodedBytesDecode(s, b, pos);
    case List(items) =>
      assert Encode(v) == [LIST_START] + (EncodeItems(items, 0) + [BEN_END]);
      AtSplit(b, pos, [LIST_START], EncodeItems(items, 0) + [BEN_END]);
      EncodedItemsDecode(items, 0, b, pos + 1, opts, depth, []);
    case Dict(entries) =>
      assert Encode(v) == [DICT_START] + (EncodeEntries(entries, 0) + [BEN_END]);
      AtSplit(b, pos, [DICT_START], EncodeEntries(entries, 0) + [BEN_END]);
      EncodedEntriesDecode(entries, 0, b, pos + 1, opts, depth, []);
  }

  lemma {:induction false} EncodedItemsDecode(items: seq<Value>, i: nat, b: Bytes, pos: nat,
                                              opts: Options, depth: nat, acc: seq<Ref>)
    requires i <= |items| && forall j :: 0 <= j < |items| ==> WellFormed(items[j])
    requires depth + 1 + ItemsDepth(items, i) <= opts.maxRecursion
    requires At(b, pos, EncodeItems(items, i) + [BEN_END]) && EraseItems(acc) == items[..i]
    ensures pos <= |b|
    ensures var d := DecodeItems(b, pos, opts, depth, acc);
      d.Done? && d.next == pos + |EncodeItems(items, i)| + 1 && EraseItems(d.value) == items
    decreases items, |items| - i
  {
    hide At, SameWindow, Decode, Encode, WellFormed;
    if i == |items| {
      assert EncodeItems(items, i) + [BEN_END] == [BEN_END];
      AtWindow(b, pos, [BEN_END]);
    } else {
      var rest := EncodeItems(items, i + 1) + [BEN_END];
      assert EncodeItems(items, i) + [BEN_END] == Encode(items[i]) + rest;
      AtSplit(b, pos, Encode(items[i]), rest);
      AtWindow(b, pos, Encode(items[i]));
      EncodingDecodes(items[i], b, pos, opts, depth + 1);
      var d := Decode(b, pos, opts, depth + 1);
      assert EraseItems(acc + [d.value]) == items[..i + 1];
      EncodedItemsDecode(items, i + 1, b, d.next, opts, depth, acc + [d.value]);
    }
  }

  lemma {:induction false} EncodedEntriesDecode(entries: seq<(Bytes, Value)>, i: nat, b: Bytes, pos: nat,
                                                opts: Options, depth: nat, acc: seq<(Bytes, Ref)>)
    requires i <= |entries| && WellFormed(Dict(entries))
    requires depth + 1 + EntriesDepth(entries, i) <= opts.maxRecursion
    requires At(b, pos, EncodeEntries(entries, i) + [BEN_END]) && EraseEntries(acc) == entries[..i]
    ensures pos <= |b|
    ensures var d := DecodeEntries(b, pos, opts, depth, acc);
      d.Done? && d.next == pos + |EncodeEntries(entries, i)| + 1 && EraseEntries(d.value) == entries
    decreases entries, |entries| - i
  {
    hide At, SameWindow, Decode, DecodeBytes, EncodeBytes, Encode, InsertSorted, HasKey, EraseEntries;
    if i == |entries| {
      assert EncodeEntries(entries, i) + [BEN_END] == [BEN_END];
      AtWindow(b, pos, [BEN_END]);
    } else {
      var (key, value) := entries[i];
      assert value < entries[i];
      var rest := EncodeEntries(entries, i + 1) + [BEN_END];
      assert EncodeEntries(entries, i) == EncodeBytes(key) + (Encode(value) + EncodeEntries(entries, i + 1));
      assert EncodeEntries(entries, i) + [BEN_END] == EncodeBytes(key) + (Encode(value) + rest);
      AtSplit(b, pos, EncodeBytes(key), Encode(value) + rest);
      AtWindow(b, pos, EncodeBytes(key));
      EncodedBytesDecode(key, b, pos);
      var valuePos := pos + |EncodeBytes(key)|;
      AtSplit(b, valuePos, Encode(value), rest);
      EncodingDecodes(value, b, valuePos, opts, depth + 1);
      var d := Decode(b, valuePos, opts, depth + 1);
      AppendEntry(entries, i, acc, d.value);
      EncodedEntriesDecode(entries, i + 1, b, d.next, opts, depth, acc + [(key, d.value)]);
    }
  }

  /** The next key of a `BTreeMap` passes both key checks and goes to the end. */
  lemma AppendEntry(entries: seq<(Bytes, Value)>, i: nat, acc: seq<(Bytes, Ref)>, r: Ref)
    requires KeysAscend(entries) && i < |entries|
    requires EraseEntries(acc) == entries[..i] && Erase(r) == entries[i].1
    ensures !HasKey(acc, entries[i].0)
    ensures |acc| > 0 ==> !LexLess(entries[i].0, acc[|acc| - 1].0)
    ensures InsertSorted(acc, entries[i].0, r) == acc + [(entries[i].0, r)]
    ensures EraseEntries(acc + [(entries[i].0, r)]) == entries[..i + 1]
  {
    var key := entries[i].0;
    forall j | 0 <= j < i
      ensures acc[j].0 == entries[j].0 && LexLess(acc[j].0, key)
    {
      assert EraseEntries(acc)[j] == entries[j];
    }
    LexIrreflexive(key);
    if |acc| > 0 && LexLess(key, acc[|acc| - 1].0) {
      LexTransitive(key, acc[|acc| - 1].0, key);
    }
  }
}
