/** Every part of a decoded tree is what its own bytes decode to. */
module BencodeLocality {
  import opened Common
  import opened BencodeTokens
  import opened BencodeDecode

  /** x is r or stands somewhere inside it. */
  predicate Within(r: Ref, x: Ref)
    decreases r
  {
    || x == r
    || (r.RList? && (exists i :: 0 <= i < |r.items| && Within(r.items[i], x)))
    || (r.RDict? && (exists i ::
          0 <= i < |r.entries| && (assert r.entries[i].1 < r.entries[i]; Within(r.entries[i].1, x))))
  }

  /** `BencodeRef::buffer`. */
  function Buffer(b: Bytes, r: Ref): Bytes
    requires r.lo <= r.hi <= |b|
  {
    b[r.lo..r.hi]
  }

  /** r is what decoding at its own recorded start gives, one level down, inside [from, to). */
  predicate ReadInPlace(b: Bytes, opts: Options, depth: nat, from: nat, to: nat, r: Ref) {
    from <= r.lo && r.hi <= to && Decode(b, r.lo, opts, depth) == Done(r, r.hi)
  }

  lemma {:induction false} ItemsReadInPlace(b: Bytes, pos: nat, opts: Options, depth: nat, acc: seq<Ref>)
    requires pos <= |b| && DecodeItems(b, pos, opts, depth, acc).Done?
    ensures var d := DecodeItems(b, pos, opts, depth, acc);
      forall i :: |acc| <= i < |d.value| ==> ReadInPlace(b, opts, depth + 1, pos, d.next, d.value[i])
    decreases |b| - pos
  {
    hide Decode;
    if b[pos] != BEN_END {
      var item := Decode(b, pos, opts, depth + 1);
      ItemsReadInPlace(b, item.next, opts, depth, acc + [item.value]);
      assert DecodeItems(b, pos, opts, depth, acc).value[|acc|] == (acc + [item.value])[|acc|];
    }
  }

  lemma {:induction false} EntriesReadInPlace(b: Bytes, pos: nat, opts: Options, depth: nat, acc: seq<(Bytes, Ref)>)
    requires pos <= |b| && DecodeEntries(b, pos, opts, depth, acc).Done?
    ensures var d := DecodeEntries(b, pos, opts, depth, acc);
      forall e :: e in d.value ==> e in acc || ReadInPlace(b, opts, depth + 1, pos, d.next, e.1)
    decreases |b| - pos
  {
    hide Decode, DecodeBytes, HasKey;
    if b[pos] != BEN_END {
      var (key, valuePos) := DecodeBytes(b, pos).value;
      var value := Decode(b, valuePos, opts, depth + 1);
      var acc' := InsertSorted(acc, key, value.value);
      EntriesReadInPlace(b, value.next, opts, depth, acc');
      forall e | e in acc'
        ensures e in acc || e == (key, value.value)
      {
        assert e in multiset(acc');
      }
    }
  }

  lemma ChildrenReadInPlace(b: Bytes, pos: nat, opts: Options, depth: nat)
    requires Decode(b, pos, opts, depth).Done?
    ensures var d := Decode(b, pos, opts, depth);
      && (d.value.RList? ==> forall i :: 0 <= i < |d.value.items| ==>
            ReadInPlace(b, opts, depth + 1, pos, d.next, d.value.items[i]))
      && (d.value.RDict? ==> forall i :: 0 <= i < |d.value.entries| ==>
            ReadInPlace(b, opts, depth + 1, pos, d.next, d.value.entries[i].1))
  {
    hide DecodeItems, DecodeEntries, DecodeInt, DecodeBytes;
    if b[pos] == LIST_START {
      ItemsReadInPlace(b, pos + 1, opts, depth, []);
    } else if b[pos] == DICT_START {
      EntriesReadInPlace(b, pos + 1, opts, depth, []);
    }
  }

  /** A nested value is the result of the decoding call made at its start. */
  lemma {:induction false} NestedReadInPlace(b: Bytes, pos: nat, opts: Options, depth: nat, x: Ref) returns (level: nat)
    requires Decode(b, pos, opts, depth).Done? && Within(Decode(b, pos, opts, depth).value, x)
    ensures depth <= level && ReadInPlace(b, opts, level, pos, Decode(b, pos, opts, depth).next, x)
    decreases Decode(b, pos, opts, depth).value
  {
    hide Decode;
    var d := Decode(b, pos, opts, depth);
    ChildrenReadInPlace(b, pos, opts, depth);
    if x == d.value {
      level := depth;
    } else if d.value.RList? {
      var i :| 0 <= i < |d.value.items| && Within(d.value.items[i], x);
      level := NestedReadInPlace(b, d.value.items[i].lo, opts, depth + 1, x);
    } else {
      var i :| 0 <= i < |d.value.entries| && Within(d.value.entries[i].1, x);
      var e := d.value.entries[i];
      assert e.1 < e;
      level := NestedReadInPlace(b, e.1.lo, opts, depth + 1, x);
    }
  }

  /** Decoding is local: every value nested anywhere in a decoded tree lies inside its parent's span,
      and decoding its buffer alone succeeds, consumes all of it and yields the same value. */
  lemma Locality(b: Bytes, opts: Options, x: Ref)
    requires DecodeAll(b, opts).Done? && Within(DecodeAll(b, opts).value, x)
    ensures x.lo < x.hi <= DecodeAll(b, opts).next <= |b|
    ensures var d := DecodeAll(Buffer(b, x), opts);
      d.Done? && d.next == |Buffer(b, x)| && Erase(d.value) == Erase(x)
  {
    hide Decode, Within, Erase, SameWindow;
    var level := NestedReadInPlace(b, 0, opts, 0, x);
    SliceWindow(b, x.lo, x.hi, Buffer(b, x), 0);
    DecodeFrame(b, x.lo, opts, level, Buffer(b, x), 0, opts, 0);
  }
}
