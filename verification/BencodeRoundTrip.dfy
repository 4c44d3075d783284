/** What the decoder and the encoders promise each other. */
module BencodeRoundTrip {
  import opened Common
  import opened BencodeTokens
  import opened BencodeDecode
  import opened BencodeEncode

  // ---------------------------------------------------------------- every decoded value is a proper one

  /** Well formed, and nested no deeper than the limit left room for. */
  predicate Fits(v: Value, opts: Options, depth: nat) {
    WellFormed(v) && depth + Depth(v) <= opts.maxRecursion
  }

  predicate AllFit(vs: seq<Value>, opts: Options, depth: nat) {
    forall i :: 0 <= i < |vs| ==> Fits(vs[i], opts, depth)
  }

  predicate EntriesFit(es: seq<(Bytes, Value)>, opts: Options, depth: nat) {
    KeysAscend(es) && forall i :: 0 <= i < |es| ==> |es[i].0| <= I64_MAX && Fits(es[i].1, opts, depth)
  }

  lemma {:induction false} ItemsFit(vs: seq<Value>, i: nat, opts: Options, depth: nat)
    requires i <= |vs| && AllFit(vs, opts, depth + 1) && depth < opts.maxRecursion
    ensures depth + 1 + ItemsDepth(vs, i) <= opts.maxRecursion
    decreases |vs| - i
  {
    if i < |vs| { ItemsFit(vs, i + 1, opts, depth); }
  }

  lemma {:induction false} DictFits(es: seq<(Bytes, Value)>, i: nat, opts: Options, depth: nat)
    requires i <= |es| && EntriesFit(es, opts, depth + 1) && depth < opts.maxRecursion
    ensures depth + 1 + EntriesDepth(es, i) <= opts.maxRecursion
    decreases |es| - i
  {
    if i < |es| {
      assert es[i].1 < es[i];
      DictFits(es, i + 1, opts, depth);
    }
  }

  lemma {:induction false} DecodedFits(b: Bytes, pos: nat, opts: Options, depth: nat)
    requires Decode(b, pos, opts, depth).Done?
    ensures Fits(Erase(Decode(b, pos, opts, depth).value), opts, depth)
    decreases |b| - pos, 0
  {
    if b[pos] == LIST_START {
      DecodedItemsFit(b, pos + 1, opts, depth, []);
      ItemsFit(EraseItems(DecodeItems(b, pos + 1, opts, depth, []).value), 0, opts, depth);
    } else if b[pos] == DICT_START {
      DecodedEntriesFit(b, pos + 1, opts, depth, []);
      DictFits(EraseEntries(DecodeEntries(b, pos + 1, opts, depth, []).value), 0, opts, depth);
    }
  }

  lemma {:induction false} DecodedItemsFit(b: Bytes, pos: nat, opts: Options, depth: nat, acc: seq<Ref>)
    requires pos <= |b| && DecodeItems(b, pos, opts, depth, acc).Done? && AllFit(EraseItems(acc), opts, depth + 1)
    ensures AllFit(EraseItems(DecodeItems(b, pos, opts, depth, acc).value), opts, depth + 1)
    decreases |b| - pos, 1
  {
    hide Decode, Fits;
    if b[pos] != BEN_END {
      DecodedFits(b, pos, opts, depth + 1);
      var d := Decode(b, pos, opts, depth + 1);
      assert EraseItems(acc + [d.value]) == EraseItems(acc) + [Erase(d.value)];
      DecodedItemsFit(b, d.next, opts, depth, acc + [d.value]);
    }
  }

  lemma {:induction false} DecodedEntriesFit(b: Bytes, pos: nat, opts: Options, depth: nat, acc: seq<(Bytes, Ref)>)
    requires pos <= |b| && DecodeEntries(b, pos, opts, depth, acc).Done?
    requires EntriesFit(EraseEntries(acc), opts, depth + 1)
    ensures EntriesFit(EraseEntries(DecodeEntries(b, pos, opts, depth, acc).value), opts, depth + 1)
    decreases |b| - pos, 1
  {
    hide Decode, DecodeBytes, EntriesFit, InsertSorted, EraseEntries, HasKey;
    if b[pos] != BEN_END {
      var (key, valuePos) := DecodeBytes(b, pos).value;
      DecodedFits(b, valuePos, opts, depth + 1);
      var d := Decode(b, valuePos, opts, depth + 1);
      InsertFits(acc, key, d.value, opts, depth + 1);
      DecodedEntriesFit(b, d.next, opts, depth, InsertSorted(acc, key, d.value));
    }
  }

  lemma InsertFits(acc: seq<(Bytes, Ref)>, key: Bytes, r: Ref, opts: Options, depth: nat)
    requires EntriesFit(EraseEntries(acc), opts, depth) && !HasKey(acc, key)
    requires |key| <= I64_MAX && Fits(Erase(r), opts, depth)
    ensures EntriesFit(EraseEntries(InsertSorted(acc, key, r)), opts, depth)
  {
    hide Fits;
    InsertErases(acc, key, r);
    var es := EraseEntries(acc);
    forall i | 0 <= i < |es| ensures es[i].0 != key { assert acc[i].0 != key; }
    InsertAscends(es, key, Erase(r));
    var es' := InsertSorted(es, key, Erase(r));
    forall i | 0 <= i < |es'|
      ensures |es'[i].0| <= I64_MAX && Fits(es'[i].1, opts, depth)
    {
      assert es'[i] in multiset(es');
      assert es'[i] == (key, Erase(r)) || es'[i] in es;
    }
  }

  // ---------------------------------------------------------------- decode after encode

  /** Decoding the encoding of a value gives the value back exactly when its nesting is within the
      limit; otherwise decoding fails. */
  lemma RoundTrip(v: Value, opts: Options)
    requires WellFormed(v)
    ensures var d := DecodeAll(Encode(v), opts);
      && (d.Done? <==> Depth(v) <= opts.maxRecursion)
      && (d.Done? ==> Erase(d.value) == v && d.next == |Encode(v)|)
  {
    var b := Encode(v);
    assert At(b, 0, b);
    if Depth(v) <= opts.maxRecursion {
      EncodingDecodes(v, b, 0, opts, 0);
    } else if Decode(b, 0, opts, 0).Done? {
      var d := Decode(b, 0, opts, 0);
      var deep := opts.(maxRecursion := Depth(v));
      DecodeFrame(b, 0, opts, 0, b, 0, deep, 0);
      EncodingDecodes(v, b, 0, deep, 0);
      DecodedFits(b, 0, opts, 0);
    }
  }

  /** Bytes after a complete value make decoding the whole input fail if and only if a full decode is
      enforced; otherwise they are left unread. */
  lemma TrailingBytes(v: Value, tail: Bytes, opts: Options)
    requires WellFormed(v) && Depth(v) <= opts.maxRecursion && |tail| > 0
    ensures var d := DecodeAll(Encode(v) + tail, opts);
      if opts.enforceFullDecode then d.Rejected?
      else d.Done? && Erase(d.value) == v && d.next == |Encode(v)|
  {
    var b := Encode(v) + tail;
    assert b[0..|Encode(v)|] == Encode(v);
    EncodingDecodes(v, b, 0, opts, 0);
    hide Decode;
  }

  /** Enforcing a full decode accepts exactly the inputs that are accepted without it and read to the end,
      as the same values. */
  lemma FullDecodeExactly(b: Bytes, opts: Options)
    ensures var (strict, lax) := (opts.(enforceFullDecode := true), opts.(enforceFullDecode := false));
      var (d, d') := (DecodeAll(b, strict), DecodeAll(b, lax));
      && (d.Done? <==> d'.Done? && d'.next == |b|)
      && (d.Done? ==> d.next == |b| && Erase(d.value) == Erase(d'.value))
  {
    var (strict, lax) := (opts.(enforceFullDecode := true), opts.(enforceFullDecode := false));
    if Decode(b, 0, strict, 0).Done? { DecodeFrame(b, 0, strict, 0, b, 0, lax, 0); }
    if Decode(b, 0, lax, 0).Done? { DecodeFrame(b, 0, lax, 0, b, 0, strict, 0); }
    hide Decode;
  }

  // ---------------------------------------------------------------- encode after decode

  /** Where the key of entry i starts, when entries were read in key order. */
  function KeyPos(entries: seq<(Bytes, Ref)>, lo: nat, i: nat): nat
    requires i <= |entries|
  {
    if i == 0 then lo + 1 else entries[i - 1].1.hi
  }

  predicate StartsWithoutPlus(b: Bytes, pos: nat) {
    pos < |b| && b[pos] != PLUS
  }

  /** No integer and no key length of the decoded tree is written with a plus sign. */
  predicate PlusFree(b: Bytes, r: Ref)
    decreases r
  {
    match r
    case RInt(_, lo, _) => StartsWithoutPlus(b, lo + 1)
    case RStr(_, _, _) => true
    case RList(items, _, _) => forall i :: 0 <= i < |items| ==> PlusFree(b, items[i])
    case RDict(entries, lo, _) =>
      forall i :: 0 <= i < |entries| ==>
        (assert entries[i].1 < entries[i];
         StartsWithoutPlus(b, KeyPos(entries, lo, i)) && PlusFree(b, entries[i].1))
  }

  /** Where a value was read, its own encoding can only stand if it spans the same bytes. */
  lemma EncodingSpansSource(b: Bytes, pos: nat, opts: Options, depth: nat)
    requires Decode(b, pos, opts, depth).Done?
    requires At(b, pos, Encode(Erase(Decode(b, pos, opts, depth).value)))
    ensures var d := Decode(b, pos, opts, depth); Encode(Erase(d.value)) == b[pos..d.next]
  {
    hide Decode, Encode;
    DecodedFits(b, pos, opts, depth);
    EncodingDecodes(Erase(Decode(b, pos, opts, depth).value), b, pos, opts, depth);
  }

  /** Re-encoding an input accepted under key-order checking gives back the same bytes exactly when
      no integer and no key length in it is written with a plus sign. */
  lemma {:induction false} Reencoding(b: Bytes, pos: nat, opts: Options, depth: nat)
    requires opts.checkKeySort && Decode(b, pos, opts, depth).Done?
    ensures var d := Decode(b, pos, opts, depth);
      Encode(Erase(d.value)) == b[pos..d.next] <==> PlusFree(b, d.value)
    decreases |b| - pos, 0, 1
  {
    if b[pos] == INT_START {
      ReencodingInt(b, pos);
    } else if b[pos] == LIST_START {
      ReencodingList(b, pos, opts, depth);
    } else if b[pos] == DICT_START {
      ReencodingDict(b, pos, opts, depth);
    } else {
      BytesCanonical(b, pos);
    }
  }

  lemma {:induction false} ReencodingList(b: Bytes, pos: nat, opts: Options, depth: nat)
    requires opts.checkKeySort && pos < |b| && b[pos] == LIST_START && Decode(b, pos, opts, depth).Done?
    ensures var d := Decode(b, pos, opts, depth);
      Encode(Erase(d.value)) == b[pos..d.next] <==> PlusFree(b, d.value)
    decreases |b| - pos, 0, 0
  {
    var d := Decode(b, pos, opts, depth);
    ReencodingItems(b, pos + 1, opts, depth, []);
    Bracketed(b, pos, d.next, EncodeItems(EraseItems(d.value.items), 0));
  }

  lemma {:induction false} ReencodingDict(b: Bytes, pos: nat, opts: Options, depth: nat)
    requires opts.checkKeySort && pos < |b| && b[pos] == DICT_START && Decode(b, pos, opts, depth).Done?
    ensures var d := Decode(b, pos, opts, depth);
      Encode(Erase(d.value)) == b[pos..d.next] <==> PlusFree(b, d.value)
    decreases |b| - pos, 0, 0
  {
    DictOpened(b, pos, opts, depth);
    hide Decode, DecodeEntries, Encode, EncodeEntries, Erase, EraseEntries, PlusFree, KeyPos;
    ReencodingEntries(b, pos + 1, opts, depth, [], pos);
    var d := DecodeEntries(b, pos + 1, opts, depth, []);
    Bracketed(b, pos, d.next, EncodeEntries(EraseEntries(d.value), 0));
  }

  lemma DictOpened(b: Bytes, pos: nat, opts: Options, depth: nat)
    requires pos < |b| && b[pos] == DICT_START && Decode(b, pos, opts, depth).Done?
    ensures var d := DecodeEntries(b, pos + 1, opts, depth, []);
      && d.Done? && Decode(b, pos, opts, depth) == Done(RDict(d.value, pos, d.next), d.next)
      && KeyPos([], pos, 0) == pos + 1
      && Encode(Erase(RDict(d.value, pos, d.next))) == [b[pos]] + EncodeEntries(EraseEntries(d.value), 0) + [BEN_END]
      && (PlusFree(b, RDict(d.value, pos, d.next)) <==> forall i :: 0 <= i < |d.value| ==>
            StartsWithoutPlus(b, KeyPos(d.value, pos, i)) && PlusFree(b, d.value[i].1))
  {
    hide DecodeEntries, EncodeEntries, EraseEntries;
  }

  lemma Bracketed(b: Bytes, lo: nat, hi: nat, body: Bytes)
    requires lo < hi <= |b|
    ensures [b[lo]] + body + [BEN_END] == b[lo..hi] <==> body + [BEN_END] == b[lo + 1..hi]
  {
    assert b[lo..hi] == [b[lo]] + b[lo + 1..hi];
    assert [b[lo]] + body + [BEN_END] == [b[lo]] + (body + [BEN_END]);
    assert ([b[lo]] + (body + [BEN_END]))[1..] == body + [BEN_END];
    assert b[lo..hi][1..] == b[lo + 1..hi];
  }

  lemma ReencodingInt(b: Bytes, pos: nat)
    requires pos < |b| && b[pos] == INT_START && DecodeInt(b, pos + 1, BEN_END).Some?
    ensures var (n, next) := DecodeInt(b, pos + 1, BEN_END).value;
      Encode(Int(n)) == b[pos..next] <==> StartsWithoutPlus(b, pos + 1)
  {
    var (n, next) := DecodeInt(b, pos + 1, BEN_END).value;
    hide DecodeInt, IntText, ParseToken;
    assert Encode(Int(n)) == [INT_START] + IntText(n) + [BEN_END];
    hide Encode;
    Bracketed(b, pos, next, IntText(n));
    IntTextParses(n);
    assert (IntText(n) + [BEN_END])[0] == IntText(n)[0];
    assert b[pos + 1..next][0] == b[pos + 1];
    if b[pos + 1] != PLUS {
      IntCanonical(b, pos + 1, BEN_END);
    }
  }

  /** Two byte strings glued to tails agree as a whole iff they agree part by part, once the first
      parts are known to have the same length whenever one starts the other. */
  lemma Glue(b: Bytes, pos: nat, mid: nat, end: nat, x: Bytes, y: Bytes)
    requires pos <= mid <= end <= |b|
    requires At(b, pos, x) ==> x == b[pos..mid]
    ensures x + y == b[pos..end] <==> x == b[pos..mid] && y == b[mid..end]
  {
    assert b[pos..end] == b[pos..mid] + b[mid..end];
    if x + y == b[pos..end] {
      assert x == (x + y)[..|x|];
      assert b[pos..end][..|x|] == b[pos..pos + |x|];
      assert y == (x + y)[|x|..];
      assert b[pos..end][|x|..] == b[pos + |x|..end];
    }
  }

  lemma {:induction false} ReencodingItems(b: Bytes, pos: nat, opts: Options, depth: nat, acc: seq<Ref>)
    requires opts.checkKeySort && pos <= |b| && DecodeItems(b, pos, opts, depth, acc).Done?
    ensures var d := DecodeItems(b, pos, opts, depth, acc);
      EncodeItems(EraseItems(d.value), |acc|) + [BEN_END] == b[pos..d.next]
      <==> forall i :: |acc| <= i < |d.value| ==> PlusFree(b, d.value[i])
    decreases |b| - pos, 1
  {
    hide Decode, Encode, PlusFree, Erase, At;
    var d := DecodeItems(b, pos, opts, depth, acc);
    var k := |acc|;
    if b[pos] == BEN_END {
      assert EncodeItems(EraseItems(acc), k) + [BEN_END] == [BEN_END] == b[pos..d.next];
    } else {
      var item := Decode(b, pos, opts, depth + 1);
      Reencoding(b, pos, opts, depth + 1);
      ReencodingItems(b, item.next, opts, depth, acc + [item.value]);
      assert d.value[k] == (acc + [item.value])[k] == item.value;
      var tail := EncodeItems(EraseItems(d.value), k + 1) + [BEN_END];
      assert EncodeItems(EraseItems(d.value), k) + [BEN_END] == Encode(Erase(item.value)) + tail;
      if At(b, pos, Encode(Erase(item.value))) {
        EncodingSpansSource(b, pos, opts, depth + 1);
      }
      Glue(b, pos, item.next, d.next, Encode(Erase(item.value)), tail);
    }
  }

  /** Under key-order checking a new key always goes to the end. */
  lemma AppendsKey<T>(acc: seq<(Bytes, T)>, key: Bytes, v: T)
    requires |acc| > 0 ==> !LexLess(key, acc[|acc| - 1].0)
    requires !HasKey(acc, key)
    ensures InsertSorted(acc, key, v) == acc + [(key, v)]
  {
    if |acc| > 0 { LexTotal(key, acc[|acc| - 1].0); }
  }

  lemma {:induction false} ReencodingEntries(b: Bytes, pos: nat, opts: Options, depth: nat,
                                             acc: seq<(Bytes, Ref)>, lo: nat)
    requires opts.checkKeySort && pos <= |b| && DecodeEntries(b, pos, opts, depth, acc).Done?
    requires pos == KeyPos(acc, lo, |acc|)
    ensures var d := DecodeEntries(b, pos, opts, depth, acc);
      && acc <= d.value
      && (EncodeEntries(EraseEntries(d.value), |acc|) + [BEN_END] == b[pos..d.next]
          <==> forall i :: |acc| <= i < |d.value| ==>
                 StartsWithoutPlus(b, KeyPos(d.value, lo, i)) && PlusFree(b, d.value[i].1))
    decreases |b| - pos, 1
  {
    hide Decode, DecodeBytes, EncodeBytes, Encode, PlusFree, Erase, InsertSorted, HasKey, At;
    var d := DecodeEntries(b, pos, opts, depth, acc);
    var k := |acc|;
    if b[pos] == BEN_END {
      assert EncodeEntries(EraseEntries(acc), k) + [BEN_END] == [BEN_END] == b[pos..d.next];
    } else {
      var (key, valuePos) := DecodeBytes(b, pos).value;
      var value := Decode(b, valuePos, opts, depth + 1);
      AppendsKey(acc, key, value.value);
      var acc' := acc + [(key, value.value)];
      Reencoding(b, valuePos, opts, depth + 1);
      ReencodingEntries(b, value.next, opts, depth, acc', lo);
      assert d.value[k] == acc'[k];
      assert KeyPos(d.value, lo, k) == pos;
      ReencodingEntry(b, pos, opts, depth, EncodeEntries(EraseEntries(d.value), k + 1) + [BEN_END], d.next);
      var v := Encode(Erase(value.value));
      assert EncodeEntries(EraseEntries(d.value), k) == EncodeBytes(key) + (v + EncodeEntries(EraseEntries(d.value), k + 1));
      assert EncodeEntries(EraseEntries(d.value), k) + [BEN_END]
          == EncodeBytes(key) + (v + (EncodeEntries(EraseEntries(d.value), k + 1) + [BEN_END]));
    }
  }

  /** A key and its value can be read, and end no later than `end`. */
  predicate EntryWithin(b: Bytes, pos: nat, opts: Options, depth: nat, end: nat)
    requires pos < |b|
  {
    && DecodeBytes(b, pos).Some?
    && var value := Decode(b, DecodeBytes(b, pos).value.1, opts, depth + 1); value.Done? && value.next <= end <= |b|
  }

  /** One key and its value. */
  lemma ReencodingEntry(b: Bytes, pos: nat, opts: Options, depth: nat, tail: Bytes, end: nat)
    requires pos < |b|
    ensures EntryWithin(b, pos, opts, depth, end) ==>
      var (key, valuePos) := DecodeBytes(b, pos).value;
      var value := Decode(b, valuePos, opts, depth + 1);
      var text := Encode(Erase(value.value));
      EncodeBytes(key) + (text + tail) == b[pos..end]
      <==> StartsWithoutPlus(b, pos) && text == b[valuePos..value.next] && tail == b[value.next..end]
  {
    hide Decode, Encode, DecodeBytes, EncodeBytes, At;
    if EntryWithin(b, pos, opts, depth, end) {
      var (key, valuePos) := DecodeBytes(b, pos).value;
      var value := Decode(b, valuePos, opts, depth + 1);
      var text := Encode(Erase(value.value));
      KeyReencodes(b, pos);
      if At(b, valuePos, text) { EncodingSpansSource(b, valuePos, opts, depth + 1); }
      Glue(b, pos, valuePos, end, EncodeBytes(key), text + tail);
      Glue(b, valuePos, value.next, end, text, tail);
    }
  }

  lemma KeyReencodes(b: Bytes, pos: nat)
    requires pos < |b| && DecodeBytes(b, pos).Some?
    ensures var (key, next) := DecodeBytes(b, pos).value;
      && (At(b, pos, EncodeBytes(key)) ==> EncodeBytes(key) == b[pos..next])
      && (EncodeBytes(key) == b[pos..next] <==> StartsWithoutPlus(b, pos))
  {
    var (key, next) := DecodeBytes(b, pos).value;
    hide DecodeBytes, EncodeBytes;
    if At(b, pos, EncodeBytes(key)) {
      AtWindow(b, pos, EncodeBytes(key));
      EncodedBytesDecode(key, b, pos);
    }
    assert b[pos..next][0] == b[pos];
    if b[pos] != PLUS {
      BytesCanonical(b, pos);
    }
  }
}
