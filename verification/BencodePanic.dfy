/** Exactly when the recursive decoder panics. */
module BencodePanic {
  import opened Common
  import opened BencodeTokens
  import opened BencodeDecode

  // ---------------------------------------------------------------- the dictionary values a call comes to

  /** The call comes to the dictionary value at p, to be read at that nesting level: every key before it was
      read and accepted, and every value before it was read. */
  predicate Reaches(b: Bytes, pos: nat, opts: Options, depth: nat, p: nat, level: nat)
    decreases if pos <= |b| then |b| - pos else 0, 0
  {
    && depth < opts.maxRecursion && pos < |b|
    && (if b[pos] == LIST_START then ReachesInList(b, pos + 1, opts, depth, p, level)
        else b[pos] == DICT_START && ReachesInDict(b, pos + 1, opts, depth, [], p, level))
  }

  predicate ReachesInList(b: Bytes, pos: nat, opts: Options, depth: nat, p: nat, level: nat)
    requires pos <= |b|
    decreases |b| - pos, 1
  {
    && pos < |b| && b[pos] != BEN_END
    && (|| Reaches(b, pos, opts, depth + 1, p, level)
        || (var item := Decode(b, pos, opts, depth + 1);
            item.Done? && ReachesInList(b, item.next, opts, depth, p, level)))
  }

  /** The key at pos is read and, if order is checked, does not come before the last one. */
  predicate KeyAccepted(b: Bytes, pos: nat, opts: Options, acc: seq<(Bytes, Ref)>)
    requires pos <= |b|
  {
    && pos < |b| && b[pos] != BEN_END && DecodeBytes(b, pos).Some?
    && !(opts.checkKeySort && |acc| > 0 && LexLess(DecodeBytes(b, pos).value.0, acc[|acc| - 1].0))
  }

  predicate ReachesInDict(b: Bytes, pos: nat, opts: Options, depth: nat, acc: seq<(Bytes, Ref)>, p: nat, level: nat)
    requires pos <= |b|
    decreases |b| - pos, 1
  {
    && KeyAccepted(b, pos, opts, acc)
    && var (key, valuePos) := DecodeBytes(b, pos).value;
       || (p == valuePos && level == depth + 1)
       || Reaches(b, valuePos, opts, depth + 1, p, level)
       || (var value := Decode(b, valuePos, opts, depth + 1);
           && value.Done? && !HasKey(acc, key)
           && ReachesInDict(b, value.next, opts, depth, InsertSorted(acc, key, value.value), p, level))
  }

  // ---------------------------------------------------------------- panics are rejected dictionary values

  /** A value that the call comes to is rejected there. */
  ghost predicate MeetsRejected(b: Bytes, pos: nat, opts: Options, depth: nat) {
    exists p, level :: Reaches(b, pos, opts, depth, p, level) && Decode(b, p, opts, level).Rejected?
  }

  ghost predicate MeetsRejectedInList(b: Bytes, pos: nat, opts: Options, depth: nat)
    requires pos <= |b|
  {
    exists p, level :: ReachesInList(b, pos, opts, depth, p, level) && Decode(b, p, opts, level).Rejected?
  }

  ghost predicate MeetsRejectedInDict(b: Bytes, pos: nat, opts: Options, depth: nat, acc: seq<(Bytes, Ref)>)
    requires pos <= |b|
  {
    exists p, level :: ReachesInDict(b, pos, opts, depth, acc, p, level) && Decode(b, p, opts, level).Rejected?
  }

  lemma {:induction false} CallPanics(b: Bytes, pos: nat, opts: Options, depth: nat)
    ensures Decode(b, pos, opts, depth).Panicked? <==> MeetsRejected(b, pos, opts, depth)
    decreases if pos <= |b| then |b| - pos else 0, 0
  {
    if depth < opts.maxRecursion && pos < |b| {
      if b[pos] == LIST_START {
        ListPanics(b, pos + 1, opts, depth);
      } else if b[pos] == DICT_START {
        DictPanics(b, pos + 1, opts, depth, []);
      }
    }
    hide ReachesInList, ReachesInDict, DecodeItems, DecodeEntries, DecodeInt, DecodeBytes;
  }

  lemma {:induction false} ListPanics(b: Bytes, pos: nat, opts: Options, depth: nat)
    requires pos <= |b|
    ensures forall acc :: DecodeItems(b, pos, opts, depth, acc).Panicked? <==> MeetsRejectedInList(b, pos, opts, depth)
    decreases |b| - pos, 1
  {
    hide Decode, Reaches;
    if pos < |b| && b[pos] != BEN_END {
      CallPanics(b, pos, opts, depth + 1);
      var item := Decode(b, pos, opts, depth + 1);
      if item.Done? { ListPanics(b, item.next, opts, depth); }
      ListSplit(b, pos, opts, depth);
    }
  }

  lemma ListSplit(b: Bytes, pos: nat, opts: Options, depth: nat)
    requires pos < |b| && b[pos] != BEN_END
    ensures var item := Decode(b, pos, opts, depth + 1);
      MeetsRejectedInList(b, pos, opts, depth) <==>
        MeetsRejected(b, pos, opts, depth + 1) || (item.Done? && MeetsRejectedInList(b, item.next, opts, depth))
  {
    hide Decode, Reaches;
    var item := Decode(b, pos, opts, depth + 1);
    if MeetsRejected(b, pos, opts, depth + 1) {
      var p, level :| Reaches(b, pos, opts, depth + 1, p, level) && Decode(b, p, opts, level).Rejected?;
      assert ReachesInList(b, pos, opts, depth, p, level);
    }
    if item.Done? && MeetsRejectedInList(b, item.next, opts, depth) {
      var p, level :| ReachesInList(b, item.next, opts, depth, p, level) && Decode(b, p, opts, level).Rejected?;
      assert ReachesInList(b, pos, opts, depth, p, level);
    }
  }

  lemma {:induction false} DictPanics(b: Bytes, pos: nat, opts: Options, depth: nat, acc: seq<(Bytes, Ref)>)
    requires pos <= |b|
    ensures DecodeEntries(b, pos, opts, depth, acc).Panicked? <==> MeetsRejectedInDict(b, pos, opts, depth, acc)
    decreases |b| - pos, 1
  {
    hide Decode, Reaches, DecodeBytes, InsertSorted, HasKey;
    if KeyAccepted(b, pos, opts, acc) {
      var (key, valuePos) := DecodeBytes(b, pos).value;
      CallPanics(b, valuePos, opts, depth + 1);
      var value := Decode(b, valuePos, opts, depth + 1);
      if value.Done? && !HasKey(acc, key) {
        DictPanics(b, value.next, opts, depth, InsertSorted(acc, key, value.value));
      }
      DictSplit(b, pos, opts, depth, acc);
    }
  }

  lemma DictSplit(b: Bytes, pos: nat, opts: Options, depth: nat, acc: seq<(Bytes, Ref)>)
    requires pos <= |b| && KeyAccepted(b, pos, opts, acc)
    ensures var (key, valuePos) := DecodeBytes(b, pos).value;
      var value := Decode(b, valuePos, opts, depth + 1);
      MeetsRejectedInDict(b, pos, opts, depth, acc) <==>
        || value.Rejected?
        || MeetsRejected(b, valuePos, opts, depth + 1)
        || (value.Done? && !HasKey(acc, key)
            && MeetsRejectedInDict(b, value.next, opts, depth, InsertSorted(acc, key, value.value)))
  {
    hide Decode, Reaches, DecodeBytes, InsertSorted, HasKey;
    var (key, valuePos) := DecodeBytes(b, pos).value;
    var value := Decode(b, valuePos, opts, depth + 1);
    if value.Rejected? {
      assert ReachesInDict(b, pos, opts, depth, acc, valuePos, depth + 1);
    }
    if MeetsRejected(b, valuePos, opts, depth + 1) {
      var p, level :| Reaches(b, valuePos, opts, depth + 1, p, level) && Decode(b, p, opts, level).Rejected?;
      assert ReachesInDict(b, pos, opts, depth, acc, p, level);
    }
    if value.Done? && !HasKey(acc, key) {
      var acc' := InsertSorted(acc, key, value.value);
      if MeetsRejectedInDict(b, value.next, opts, depth, acc') {
        var p, level :| ReachesInDict(b, value.next, opts, depth, acc', p, level) && Decode(b, p, opts, level).Rejected?;
        assert ReachesInDict(b, pos, opts, depth, acc, p, level);
      }
    }
  }

  /** Decoding panics if and only if it comes to a dictionary value, after accepted keys and readable
      values, whose own decoding is an error: the `unwrap` meets exactly these. Every other failure, and
      so every failure outside dictionary values, is reported as an error. */
  lemma PanicsExactly(b: Bytes, opts: Options)
    ensures DecodeAll(b, opts).Panicked? <==>
      exists p, level :: Reaches(b, 0, opts, 0, p, level) && Decode(b, p, opts, level).Rejected?
  {
    hide Decode, Reaches;
    var start := 0;
    CallPanics(b, start, opts, start);
    assert DecodeAll(b, opts).Panicked? <==> Decode(b, start, opts, start).Panicked?;
    if MeetsRejected(b, start, opts, start) {
      var p, level :| Reaches(b, start, opts, start, p, level) && Decode(b, p, opts, level).Rejected?;
      assert Reaches(b, 0, opts, 0, p, level);
    }
  }

  /** For instance the input `d1:a`, cut off after its first key, under any nesting limit above zero. */
  lemma CutOffDictPanics(opts: Options)
    requires opts.maxRecursion > 0
    ensures DecodeAll([DICT_START, 49, BYTE_LEN_END, 97], opts).Panicked?
  {
    var b: Bytes := [DICT_START, 49, BYTE_LEN_END, 97];
    var key: Bytes := [97];
    assert Numeral(1) == [49];
    assert EncodeBytes(key) == [49, BYTE_LEN_END, 97];
    assert SameWindow(EncodeBytes(key), 0, 3, b, 1);
    EncodedBytesDecode(key, b, 1);
    hide EncodeBytes, DecodeBytes;
    assert Decode(b, 4, opts, 1).Rejected?;
    assert ReachesInDict(b, 1, opts, 0, [], 4, 1);
    assert Reaches(b, 0, opts, 0, 4, 1);
    PanicsExactly(b, opts);
  }
}
