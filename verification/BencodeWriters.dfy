/** The two encoders as the source runs them: src/dht/bencode returns fresh vectors,
    src/bencode/mutable appends to the vector it is given. */
module BencodeWriters {
  import opened Common
  import opened BencodeTokens
  import opened BencodeDecode
  import opened BencodeEncode

  /** `sort_by` on the keys: a stable sort. */
  function SortByKey(es: seq<(Bytes, Value)>): seq<(Bytes, Value)>
  {
    if |es| == 0 then [] else InsertSorted(SortByKey(es[..|es| - 1]), es[|es| - 1].0, es[|es| - 1].1)
  }

  lemma AppendsLast(es: seq<(Bytes, Value)>, k: Bytes, v: Value)
    requires |es| > 0 ==> LexLess(es[|es| - 1].0, k)
    ensures InsertSorted(es, k, v) == es + [(k, v)]
  {}

  /** The entries of a `BTreeMap` are already sorted. */
  lemma {:induction false} SortKeepsOrder(es: seq<(Bytes, Value)>)
    requires KeysAscend(es)
    ensures SortByKey(es) == es
  {
    if |es| > 0 {
      var (init, last) := (es[..|es| - 1], es[|es| - 1]);
      hide KeysAscend, LexLess, InsertSorted;
      AscendsToLast(es);
      SortKeepsOrder(init);
      AppendsLast(init, last.0, last.1);
      assert es == init + [last];
    }
  }

  lemma AscendsToLast(es: seq<(Bytes, Value)>)
    requires KeysAscend(es) && |es| > 0
    ensures KeysAscend(es[..|es| - 1])
    ensures |es| > 1 ==> LexLess(es[|es| - 2].0, es[|es| - 1].0)
  {
    hide LexLess;
  }

  lemma OpenList(items: seq<Value>)
    requires WellFormed(List(items))
    ensures forall i :: 0 <= i < |items| ==> WellFormed(items[i])
    ensures Encode(List(items)) == [LIST_START] + EncodeItems(items, 0) + [BEN_END]
  {}

  lemma OpenDict(entries: seq<(Bytes, Value)>)
    requires WellFormed(Dict(entries))
    ensures KeysAscend(entries) && forall i :: 0 <= i < |entries| ==> WellFormed(entries[i].1)
    ensures Encode(Dict(entries)) == [DICT_START] + EncodeEntries(entries, 0) + [BEN_END]
  {}

  lemma NextEntry(before: Bytes, entries: seq<(Bytes, Value)>, i: nat)
    requires i < |entries|
    ensures before + EncodeBytes(entries[i].0) + Encode(entries[i].1) + EncodeEntries(entries, i + 1)
         == before + EncodeEntries(entries, i)
  {
    hide Encode, EncodeBytes;
  }

  lemma NoEntriesLeft(before: Bytes, entries: seq<(Bytes, Value)>)
    ensures before + EncodeEntries(entries, |entries|) == before
  {}

  // ---------------------------------------------------------------- src/dht/bencode/encode.rs

  method EncodeVec(v: Value) returns (bytes: Bytes)
    requires WellFormed(v)
    ensures bytes == Encode(v)
    decreases v
  {
    match v
    case Int(n) => bytes := [INT_START] + IntText(n) + [BEN_END];
    case Str(s) => bytes := EncodeBytes(s);
    case List(items) => bytes := EncodeListVec(items);
    case Dict(entries) => bytes := EncodeDictVec(entries);
  }

  method EncodeListVec(items: seq<Value>) returns (bytes: Bytes)
    requires WellFormed(List(items))
    ensures bytes == Encode(List(items))
    decreases items
  {
    hide Encode, WellFormed;
    OpenList(items);
    bytes := [LIST_START];
    for i := 0 to |items|
      invariant bytes + EncodeItems(items, i) == [LIST_START] + EncodeItems(items, 0)
    {
      var item := EncodeVec(items[i]);
      assert (bytes + item) + EncodeItems(items, i + 1) == bytes + EncodeItems(items, i);
      bytes := bytes + item;
    }
    bytes := bytes + [BEN_END];
  }

  method EncodeDictVec(entries: seq<(Bytes, Value)>) returns (bytes: Bytes)
    requires WellFormed(Dict(entries))
    ensures bytes == Encode(Dict(entries))
    decreases entries
  {
    hide Encode, EncodeBytes, EncodeEntries, WellFormed, SortByKey, KeysAscend;
    OpenDict(entries);
    SortKeepsOrder(entries);
    var sorted := SortByKey(entries);
    bytes := [DICT_START];
    for i := 0 to |sorted|
      invariant sorted == entries
      invariant bytes + EncodeEntries(entries, i) == [DICT_START] + EncodeEntries(entries, 0)
    {
      assert entries[i].1 < entries[i];
      var value := EncodeVec(sorted[i].1);
      var key := EncodeBytes(sorted[i].0);
      NextEntry(bytes, entries, i);
      bytes := bytes + key;
      bytes := bytes + value;
    }
    NoEntriesLeft(bytes, entries);
    bytes := bytes + [BEN_END];
  }

  // ---------------------------------------------------------------- src/bencode/mutable/encode.rs

  class ByteVec {
    var data: Bytes

    constructor ()
      ensures data == []
    {
      data := [];
    }

    method Push(b: byte)
      modifies this
      ensures data == old(data) + [b]
    {
      data := data + [b];
    }

    method Extend(bs: Bytes)
      modifies this
      ensures data == old(data) + bs
    {
      data := data + bs;
    }
  }

  method EncodeInto(v: Value, bytes: ByteVec)
    requires WellFormed(v)
    modifies bytes
    ensures bytes.data == old(bytes.data) + Encode(v)
    decreases v, 0
  {
    match v
    case Int(n) =>
      bytes.Push(INT_START);
      bytes.Extend(IntText(n));
      bytes.Push(BEN_END);
    case Str(s) => EncodeBytesInto(s, bytes);
    case List(items) => EncodeListInto(items, bytes);
    case Dict(entries) => EncodeDictInto(entries, bytes);
  }

  method EncodeBytesInto(s: Bytes, bytes: ByteVec)
    modifies bytes
    ensures bytes.data == old(bytes.data) + EncodeBytes(s)
  {
    bytes.Extend(Numeral(|s|));
    bytes.Push(BYTE_LEN_END);
    bytes.Extend(s);
  }

  method EncodeListInto(items: seq<Value>, bytes: ByteVec)
    requires WellFormed(List(items))
    modifies bytes
    ensures bytes.data == old(bytes.data) + Encode(List(items))
    decreases items
  {
    hide Encode, WellFormed;
    OpenList(items);
    bytes.Push(LIST_START);
    for i := 0 to |items|
      invariant bytes.data + EncodeItems(items, i) == old(bytes.data) + ([LIST_START] + EncodeItems(items, 0))
    {
      assert (bytes.data + Encode(items[i])) + EncodeItems(items, i + 1) == bytes.data + EncodeItems(items, i);
      EncodeInto(items[i], bytes);
    }
    assert bytes.data == old(bytes.data) + ([LIST_START] + EncodeItems(items, 0));
    bytes.Push(BEN_END);
  }

  method EncodeEntryInto(key: Bytes, v: Value, bytes: ByteVec)
    requires WellFormed(v)
    modifies bytes
    ensures bytes.data == old(bytes.data) + EncodeBytes(key) + Encode(v)
    decreases v, 1
  {
    hide Encode, EncodeBytes, WellFormed;
    EncodeBytesInto(key, bytes);
    EncodeInto(v, bytes);
  }

  method EncodeDictInto(entries: seq<(Bytes, Value)>, bytes: ByteVec)
    requires WellFormed(Dict(entries))
    modifies bytes
    ensures bytes.data == old(bytes.data) + Encode(Dict(entries))
    decreases entries
  {
    hide Encode, EncodeBytes, EncodeEntries, WellFormed, SortByKey, KeysAscend;
    OpenDict(entries);
    SortKeepsOrder(entries);
    var sorted := SortByKey(entries);
    bytes.Push(DICT_START);
    for i := 0 to |sorted|
      invariant sorted == entries
      invariant bytes.data + EncodeEntries(entries, i) == old(bytes.data) + ([DICT_START] + EncodeEntries(entries, 0))
    {
      assert entries[i].1 < entries[i];
      NextEntry(bytes.data, entries, i);
      EncodeEntryInto(sorted[i].0, sorted[i].1, bytes);
    }
    NoEntriesLeft(bytes.data, entries);
    bytes.Push(BEN_END);
  }
}
