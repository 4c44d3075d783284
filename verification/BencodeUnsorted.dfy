/** Dictionaries whose keys come in any order. */
module BencodeUnsorted {
  import opened Common
  import opened BencodeTokens
  import opened BencodeDecode
  import opened BencodeEncode
  import opened BencodeWriters

  /** Entries that spell a dictionary, in some order: proper keys and values, no key twice. */
  predicate Entries(es: seq<(Bytes, Value)>) {
    && (forall i :: 0 <= i < |es| ==> |es[i].0| <= I64_MAX && WellFormed(es[i].1))
    && (forall i, j :: 0 <= i < j < |es| ==> es[i].0 != es[j].0)
  }

  lemma {:induction false} SortIsPermutation(es: seq<(Bytes, Value)>)
    ensures multiset(SortByKey(es)) == multiset(es)
  {
    hide InsertSorted;
    if |es| > 0 {
      SortIsPermutation(es[..|es| - 1]);
      assert es == es[..|es| - 1] + [es[|es| - 1]];
    }
  }

  lemma {:induction false} SortAscends(es: seq<(Bytes, Value)>)
    requires forall i, j :: 0 <= i < j < |es| ==> es[i].0 != es[j].0
    ensures KeysAscend(SortByKey(es))
  {
    if |es| > 0 {
      var (init, last) := (es[..|es| - 1], es[|es| - 1]);
      SortAscends(init);
      NewKey(init, last.0);
      hide InsertSorted, KeysAscend;
      InsertAscends(SortByKey(init), last.0, last.1);
    }
  }

  /** A key that is not among the entries is not among them sorted. */
  lemma NewKey(es: seq<(Bytes, Value)>, key: Bytes)
    requires forall i :: 0 <= i < |es| ==> es[i].0 != key
    ensures !HasKey(SortByKey(es), key)
  {
    SortIsPermutation(es);
    var r := SortByKey(es);
    hide SortByKey;
    forall i | 0 <= i < |r|
      ensures r[i].0 != key
    {
      assert r[i] in multiset(r);
      assert r[i] in es;
    }
  }

  lemma ErasedKeys(acc: seq<(Bytes, Ref)>, key: Bytes)
    ensures HasKey(acc, key) <==> HasKey(EraseEntries(acc), key)
  {
    if HasKey(acc, key) {
      var i :| 0 <= i < |acc| && acc[i].0 == key;
      assert EraseEntries(acc)[i].0 == key;
    }
  }

  /** Without key-order checking, entries in any order are read as the dictionary that holds them. */
  lemma {:induction false} EntriesDecode(es: seq<(Bytes, Value)>, i: nat, b: Bytes, pos: nat,
                                         opts: Options, depth: nat, acc: seq<(Bytes, Ref)>)
    requires i <= |es| && Entries(es) && !opts.checkKeySort
    requires depth + 1 + EntriesDepth(es, i) <= opts.maxRecursion
    requires At(b, pos, EncodeEntries(es, i) + [BEN_END]) && EraseEntries(acc) == SortByKey(es[..i])
    ensures pos <= |b|
    ensures var d := DecodeEntries(b, pos, opts, depth, acc);
      d.Done? && d.next == pos + |EncodeEntries(es, i)| + 1 && EraseEntries(d.value) == SortByKey(es)
    decreases |es| - i
  {
    hide At, SameWindow, Decode, DecodeBytes, EncodeBytes, Encode, InsertSorted, HasKey, EraseEntries, SortByKey;
    if i == |es| {
      assert EncodeEntries(es, i) + [BEN_END] == [BEN_END] && es[..i] == es;
      AtWindow(b, pos, [BEN_END]);
    } else {
      var r := EntryDecodes(es, i, b, pos, opts, depth);
      NextKeySorts(es, i, acc, r);
      EntriesDecode(es, i + 1, b, r.hi, opts, depth, InsertSorted(acc, es[i].0, r));
    }
  }

  /** The key and the value of entry i are read where they stand. */
  lemma EntryDecodes(es: seq<(Bytes, Value)>, i: nat, b: Bytes, pos: nat, opts: Options, depth: nat) returns (r: Ref)
    requires i < |es| && |es[i].0| <= I64_MAX && WellFormed(es[i].1)
    requires depth + 1 + Depth(es[i].1) <= opts.maxRecursion
    requires At(b, pos, EncodeEntries(es, i) + [BEN_END])
    ensures pos < |b| && b[pos] != BEN_END
    ensures DecodeBytes(b, pos) == Some((es[i].0, pos + |EncodeBytes(es[i].0)|))
    ensures Decode(b, pos + |EncodeBytes(es[i].0)|, opts, depth + 1) == Done(r, r.hi)
    ensures Erase(r) == es[i].1 && pos < r.hi <= |b|
    ensures At(b, r.hi, EncodeEntries(es, i + 1) + [BEN_END])
    ensures r.hi + |EncodeEntries(es, i + 1)| == pos + |EncodeEntries(es, i)|
  {
    hide At, SameWindow, Decode, DecodeBytes, Encode;
    var (key, value) := es[i];
    var rest := EncodeEntries(es, i + 1) + [BEN_END];
    assert EncodeEntries(es, i) == EncodeBytes(key) + (Encode(value) + EncodeEntries(es, i + 1));
    assert EncodeEntries(es, i) + [BEN_END] == EncodeBytes(key) + (Encode(value) + rest);
    AtSplit(b, pos, EncodeBytes(key), Encode(value) + rest);
    AtWindow(b, pos, EncodeBytes(key));
    EncodedBytesDecode(key, b, pos);
    var valuePos := pos + |EncodeBytes(key)|;
    AtSplit(b, valuePos, Encode(value), rest);
    EncodingDecodes(value, b, valuePos, opts, depth + 1);
    r := Decode(b, valuePos, opts, depth + 1).value;
  }

  lemma NextKeySorts(es: seq<(Bytes, Value)>, i: nat, acc: seq<(Bytes, Ref)>, r: Ref)
    requires i < |es| && Entries(es) && EraseEntries(acc) == SortByKey(es[..i]) && Erase(r) == es[i].1
    ensures !HasKey(acc, es[i].0)
    ensures EraseEntries(InsertSorted(acc, es[i].0, r)) == SortByKey(es[..i + 1])
  {
    NewKey(es[..i], es[i].0);
    ErasedKeys(acc, es[i].0);
    InsertErases(acc, es[i].0, r);
    assert es[..i + 1][..i] == es[..i];
  }

  function Spelled(es: seq<(Bytes, Value)>): Bytes {
    [DICT_START] + EncodeEntries(es, 0) + [BEN_END]
  }

  lemma SpelledAt(es: seq<(Bytes, Value)>)
    ensures var b := Spelled(es); b[0] == DICT_START && At(b, 1, EncodeEntries(es, 0) + [BEN_END])
  {
    var b := Spelled(es);
    assert b[1..|b|] == EncodeEntries(es, 0) + [BEN_END];
  }

  /** Without key-order checking a dictionary spelled with its keys in any order decodes to the sorted one; with
      it, it is rejected unless the keys ascend. */
  lemma AnyOrder(es: seq<(Bytes, Value)>, opts: Options)
    requires Entries(es) && 1 + EntriesDepth(es, 0) <= opts.maxRecursion
    ensures var d := DecodeAll(Spelled(es), opts);
      && (!opts.checkKeySort || KeysAscend(es) ==>
            d.Done? && Erase(d.value) == Dict(SortByKey(es)) && d.next == |Spelled(es)|)
      && (opts.checkKeySort && !KeysAscend(es) ==> d.Rejected?)
  {
    var b := Spelled(es);
    SpelledAt(es);
    hide DecodeEntries, EncodeEntries, KeysAscend, SortByKey, At;
    if !opts.checkKeySort {
      assert EraseEntries([]) == SortByKey(es[..0]) by { SortNothing(es); }
      EntriesDecode(es, 0, b, 1, opts, 0, []);
    } else if KeysAscend(es) {
      SortKeepsOrder(es);
      assert EraseEntries([]) == es[..0];
      EncodedEntriesDecode(es, 0, b, 1, opts, 0, []);
    } else {
      assert EraseEntries([]) == es[..0];
      NothingAscends(es);
      DisorderRejected(es, 0, b, 1, opts, 0, []);
    }
  }

  lemma SortNothing(es: seq<(Bytes, Value)>)
    ensures SortByKey(es[..0]) == [] && EraseEntries([]) == []
  {}

  lemma NothingAscends(es: seq<(Bytes, Value)>)
    ensures KeysAscend(es[..0])
  {}

  /** Keys that ascend up to i and not throughout are rejected at the first that is smaller than the one before. */
  lemma {:induction false} DisorderRejected(es: seq<(Bytes, Value)>, i: nat, b: Bytes, pos: nat,
                                            opts: Options, depth: nat, acc: seq<(Bytes, Ref)>)
    requires i <= |es| && Entries(es) && opts.checkKeySort && KeysAscend(es[..i]) && !KeysAscend(es)
    requires depth + 1 + EntriesDepth(es, i) <= opts.maxRecursion
    requires At(b, pos, EncodeEntries(es, i) + [BEN_END]) && EraseEntries(acc) == es[..i]
    ensures pos <= |b| && DecodeEntries(b, pos, opts, depth, acc).Rejected?
    decreases |es| - i
  {
    hide At, SameWindow, Decode, DecodeBytes, EncodeBytes, Encode, InsertSorted, HasKey, EraseEntries, KeysAscend, LexLess;
    assert es[..|es|] == es;
    if i < |es| {
      var r := EntryDecodes(es, i, b, pos, opts, depth);
      NextKeyAscends(es, i, acc, r);
      if KeysAscend(es[..i + 1]) {
        DisorderRejected(es, i + 1, b, r.hi, opts, depth, acc + [(es[i].0, r)]);
      }
    }
  }

  lemma NextKeyAscends(es: seq<(Bytes, Value)>, i: nat, acc: seq<(Bytes, Ref)>, r: Ref)
    requires i < |es| && Entries(es) && KeysAscend(es[..i]) && EraseEntries(acc) == es[..i] && Erase(r) == es[i].1
    ensures KeysAscend(es[..i + 1]) ==>
      && !HasKey(acc, es[i].0) && (|acc| > 0 ==> !LexLess(es[i].0, acc[|acc| - 1].0))
      && InsertSorted(acc, es[i].0, r) == acc + [(es[i].0, r)]
      && EraseEntries(acc + [(es[i].0, r)]) == es[..i + 1]
    ensures !KeysAscend(es[..i + 1]) ==> |acc| > 0 && LexLess(es[i].0, acc[|acc| - 1].0)
  {
    if KeysAscend(es[..i + 1]) {
      assert es[..i + 1][..i] == es[..i];
      AppendEntry(es[..i + 1], i, acc, r);
      assert es[..i + 1][..i + 1] == es[..i + 1];
    } else {
      FirstDescent(es, i);
      assert EraseEntries(acc)[i - 1].0 == acc[i - 1].0;
    }
  }

  lemma FirstDescent(es: seq<(Bytes, Value)>, i: nat)
    requires i < |es| && Entries(es) && KeysAscend(es[..i]) && !KeysAscend(es[..i + 1])
    ensures i > 0 && LexLess(es[i].0, es[i - 1].0)
  {
    hide LexLess, KeysAscend;
    if i == 0 || LexLess(es[i - 1].0, es[i].0) {
      AscendsNext(es, i);
    } else {
      LexTotal(es[i - 1].0, es[i].0);
    }
  }

  lemma AscendsNext(es: seq<(Bytes, Value)>, i: nat)
    requires i < |es| && KeysAscend(es[..i]) && (i == 0 || LexLess(es[i - 1].0, es[i].0))
    ensures KeysAscend(es[..i + 1])
  {
    hide LexLess;
    forall j, k | 0 <= j < k <= i
      ensures LexLess(es[j].0, es[k].0)
    {
      assert forall m :: 0 <= m < i ==> es[..i][m] == es[m];
      if k == i && j < i - 1 {
        assert LexLess(es[..i][j].0, es[..i][i - 1].0);
        LexTransitive(es[j].0, es[i - 1].0, es[i].0);
      } else if k < i {
        assert LexLess(es[..i][j].0, es[..i][k].0);
      }
    }
  }
}
