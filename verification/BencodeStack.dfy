/** The explicit-stack decoder of src/dht/bencode, and its agreement with the recursive one. */
module BencodeStack {
  import opened Common
  import opened BencodeTokens
  import opened BencodeDecode
  import opened BencodeEncode

  // ---------------------------------------------------------------- what both decoders compute

  /** The dictionary rules of the specification: keys in order, no key twice. */
  predicate BadKey<T>(acc: seq<(Bytes, T)>, key: Bytes) {
    (|acc| > 0 && LexLess(key, acc[|acc| - 1].0)) || HasKey(acc, key)
  }

  /** The grammar as a plain reader of values: no spans, no nesting limit. */
  function Parse(b: Bytes, pos: nat): (r: Option<(Value, nat)>)
    ensures r.Some? ==> pos < r.value.1 <= |b|
    decreases if pos <= |b| then |b| - pos else 0, 0
  {
    if pos >= |b| then None
    else if b[pos] == INT_START then
      match DecodeInt(b, pos + 1, BEN_END)
      case None => None
      case Some((n, next)) => Some((Int(n), next))
    else if b[pos] == LIST_START then
      match ParseItems(b, pos + 1, [])
      case None => None
      case Some((items, next)) => Some((List(items), next))
    else if b[pos] == DICT_START then
      match ParseEntries(b, pos + 1, [])
      case None => None
      case Some((entries, next)) => Some((Dict(entries), next))
    else if BYTE_LEN_LOW <= b[pos] <= BYTE_LEN_HIGH then
      match DecodeBytes(b, pos)
      case None => None
      case Some((s, next)) => Some((Str(s), next))
    else None
  }

  function ParseItems(b: Bytes, pos: nat, acc: seq<Value>): (r: Option<(seq<Value>, nat)>)
    requires pos <= |b|
    ensures r.Some? ==> pos < r.value.1 <= |b|
    decreases |b| - pos, 1
  {
    if pos >= |b| then None
    else if b[pos] == BEN_END then Some((acc, pos + 1))
    else
      match Parse(b, pos)
      case None => None
      case Some((v, next)) => ParseItems(b, next, acc + [v])
  }

  function ParseEntries(b: Bytes, pos: nat, acc: seq<(Bytes, Value)>): (r: Option<(seq<(Bytes, Value)>, nat)>)
    requires pos <= |b|
    ensures r.Some? ==> pos < r.value.1 <= |b|
    decreases |b| - pos, 1
  {
    if pos >= |b| then None
    else if b[pos] == BEN_END then Some((acc, pos + 1))
    else
      match DecodeBytes(b, pos)
      case None => None
      case Some((key, valuePos)) =>
        match Parse(b, valuePos)
        case None => None
        case Some((v, next)) =>
          if BadKey(acc, key) then None else ParseEntries(b, next, InsertSorted(acc, key, v))
  }

  // ---------------------------------------------------------------- the recursive decoder reads the grammar

  /** The nesting limit exceeds what the rest of the input could need. */
  predicate Roomy(b: Bytes, pos: nat, opts: Options, depth: nat) {
    opts.checkKeySort && depth + |b| < opts.maxRecursion + pos
  }

  /** With key-order checking on and room to nest, the recursive decoder reads exactly the grammar. */
  lemma {:induction false} RecursiveReadsGrammar(b: Bytes, pos: nat, opts: Options, depth: nat)
    requires pos <= |b| && Roomy(b, pos, opts, depth)
    ensures var (d, p) := (Decode(b, pos, opts, depth), Parse(b, pos));
      && (d.Done? <==> p.Some?)
      && (d.Done? ==> p.value == (Erase(d.value), d.next))
    decreases |b| - pos, 0
  {
    hide DecodeInt, DecodeBytes, DecodeItems, DecodeEntries, ParseItems, ParseEntries;
    if pos < |b| {
      if b[pos] == LIST_START {
        assert EraseItems([]) == [];
        RecursiveReadsItems(b, pos + 1, opts, depth, []);
      } else if b[pos] == DICT_START {
        assert EraseEntries([]) == [];
        RecursiveReadsEntries(b, pos + 1, opts, depth, []);
      }
    }
  }

  lemma {:induction false} RecursiveReadsItems(b: Bytes, pos: nat, opts: Options, depth: nat, acc: seq<Ref>)
    requires pos <= |b| && Roomy(b, pos, opts, depth + 1)
    ensures var (d, p) := (DecodeItems(b, pos, opts, depth, acc), ParseItems(b, pos, EraseItems(acc)));
      && (d.Done? <==> p.Some?)
      && (d.Done? ==> p.value == (EraseItems(d.value), d.next))
    decreases |b| - pos, 1
  {
    hide Decode, Parse;
    if pos < |b| && b[pos] != BEN_END {
      RecursiveReadsGrammar(b, pos, opts, depth + 1);
      var d := Decode(b, pos, opts, depth + 1);
      if d.Done? {
        assert EraseItems(acc + [d.value]) == EraseItems(acc) + [Erase(d.value)];
        RecursiveReadsItems(b, d.next, opts, depth, acc + [d.value]);
      }
    }
  }

  lemma {:induction false} RecursiveReadsEntries(b: Bytes, pos: nat, opts: Options, depth: nat,
                                                 acc: seq<(Bytes, Ref)>)
    requires pos <= |b| && Roomy(b, pos, opts, depth + 1)
    ensures var (d, p) := (DecodeEntries(b, pos, opts, depth, acc), ParseEntries(b, pos, EraseEntries(acc)));
      && (d.Done? <==> p.Some?)
      && (d.Done? ==> p.value == (EraseEntries(d.value), d.next))
    decreases |b| - pos, 1
  {
    hide Decode, Parse, DecodeBytes, InsertSorted, BadKey, EraseEntries;
    if pos < |b| && b[pos] != BEN_END && DecodeBytes(b, pos).Some? {
      var (key, valuePos) := DecodeBytes(b, pos).value;
      RecursiveReadsGrammar(b, valuePos, opts, depth + 1);
      var d := Decode(b, valuePos, opts, depth + 1);
      SameBadKey(acc, key);
      if d.Done? && !BadKey(acc, key) {
        InsertErases(acc, key, d.value);
        RecursiveReadsEntries(b, d.next, opts, depth, InsertSorted(acc, key, d.value));
      }
    }
  }

  lemma SameBadKey(acc: seq<(Bytes, Ref)>, key: Bytes)
    ensures BadKey(acc, key) <==> BadKey(EraseEntries(acc), key)
    ensures BadKey(acc, key) <==> (|acc| > 0 && LexLess(key, acc[|acc| - 1].0)) || HasKey(acc, key)
  {
    var es := EraseEntries(acc);
    forall i | 0 <= i < |acc| ensures es[i].0 == acc[i].0 {}
    if HasKey(acc, key) {
      var i :| 0 <= i < |acc| && acc[i].0 == key;
      assert es[i].0 == key;
    }
  }

  // ---------------------------------------------------------------- the stack machine

  /** A stack entry: a value, or a value together with the key it is for. */
  datatype Frame = Plain(value: Value) | Mapping(key: Bytes, value: Value)

  datatype Collapsed = Pushed(stack: seq<Frame>) | Returned(value: Value) | KeyError | Crashed

  predicate IsContainer(v: Value) {
    v.List? || v.Dict?
  }

  /** `collapse_bencode`: fold a complete entry into the entry below it. */
  function Collapse(stack: seq<Frame>, frame: Frame): Collapsed
  {
    if |stack| == 0 then
      if frame.Plain? then Returned(frame.value) else Crashed
    else
      var (below, top) := (stack[..|stack| - 1], stack[|stack| - 1]);
      match top.value
      case Int(_) => Crashed
      case Str(_) => Crashed
      case List(items) =>
        if frame.Plain? then Pushed(below + [top.(value := List(items + [frame.value]))]) else Crashed
      case Dict(entries) =>
        if frame.Plain? then Crashed
        else if BadKey(entries, frame.key) then KeyError
        else Pushed(below + [top.(value := Dict(InsertSorted(entries, frame.key, frame.value)))])
  }

  /** `decode_shallow`: containers are opened empty. */
  function Shallow(b: Bytes, pos: nat): (r: Option<(Value, nat)>)
    ensures r.Some? ==> pos < r.value.1 <= |b|
  {
    if pos >= |b| then None
    else if b[pos] == INT_START then
      match DecodeInt(b, pos + 1, BEN_END)
      case None => None
      case Some((n, next)) => Some((Int(n), next))
    else if b[pos] == LIST_START then Some((List([]), pos + 1))
    else if b[pos] == DICT_START then Some((Dict([]), pos + 1))
    else if BYTE_LEN_LOW <= b[pos] <= BYTE_LEN_HIGH then
      match DecodeBytes(b, pos)
      case None => None
      case Some((s, next)) => Some((Str(s), next))
    else None
  }

  /** Containers all the way down, each holding the kind of entry that stands on it. */
  predicate Alternates(stack: seq<Frame>)
    decreases |stack|, 0
  {
    |stack| == 0 || FitsOn(stack[..|stack| - 1], stack[|stack| - 1])
  }

  /** The frame fits on top of the stack: mappings stand on dictionaries, plain values on lists. */
  predicate FitsOn(stack: seq<Frame>, frame: Frame)
    decreases |stack|, 1
  {
    && Alternates(stack)
    && (if |stack| == 0 then frame.Plain?
        else IsContainer(stack[|stack| - 1].value) && (stack[|stack| - 1].value.List? <==> frame.Plain?))
  }

  /** None of the panics of `collapse_bencode` can be reached from a stack that alternates. */
  lemma CollapseNeverCrashes(stack: seq<Frame>, frame: Frame)
    requires FitsOn(stack, frame)
    ensures !Collapse(stack, frame).Crashed?
    ensures var c := Collapse(stack, frame);
      c.Pushed? ==> Alternates(c.stack) && |c.stack| == |stack| && IsContainer(c.stack[|stack| - 1].value)
  {
    var c := Collapse(stack, frame);
    if c.Pushed? {
      var below := stack[..|stack| - 1];
      assert FitsOn(below, stack[|stack| - 1]);
      assert c.stack[..|c.stack| - 1] == below;
      assert FitsOn(below, c.stack[|c.stack| - 1]);
    }
  }

  // ---------------------------------------------------------------- the meaning of a stack

  /** What remains to be read once `frame` is complete and `rest` lies below it. */
  function Finish(b: Bytes, rest: seq<Frame>, frame: Frame, pos: nat): Option<(Value, nat)>
    requires pos <= |b|
    decreases |rest|, 0
  {
    match Collapse(rest, frame)
    case Returned(v) => Some((v, pos))
    case Pushed(stack) => if |stack| == 0 then None else Reopen(b, rest[..|rest| - 1], stack[|stack| - 1], pos)
    case KeyError => None
    case Crashed => None
  }

  /** What remains to be read while `frame` is an open container at pos. */
  function Reopen(b: Bytes, below: seq<Frame>, frame: Frame, pos: nat): Option<(Value, nat)>
    requires pos <= |b|
    decreases |below|, 1
  {
    match frame.value
    case List(acc) =>
      (match ParseItems(b, pos, acc)
       case None => None
       case Some((items, next)) => Finish(b, below, frame.(value := List(items)), next))
    case Dict(acc) =>
      (match ParseEntries(b, pos, acc)
       case None => None
       case Some((entries, next)) => Finish(b, below, frame.(value := Dict(entries)), next))
    case _ => None
  }

  function Resume(b: Bytes, stack: seq<Frame>, pos: nat): Option<(Value, nat)>
    requires pos <= |b| && |stack| > 0
  {
    var (below, top) := (stack[..|stack| - 1], stack[|stack| - 1]);
    if IsContainer(top.value) then Reopen(b, below, top, pos) else Finish(b, below, top, pos)
  }

  /** Resume with a value read shallowly, put on the stack in the given kind of frame. */
  function Descend(b: Bytes, stack: seq<Frame>, wrap: Frame, read: Option<(Value, nat)>): Option<(Value, nat)>
    requires read.Some? ==> read.value.1 <= |b|
  {
    match read
    case None => None
    case Some((v, next)) => Resume(b, stack + [wrap.(value := v)], next)
  }

  /** Finish with a value read completely. */
  function Ascend(b: Bytes, stack: seq<Frame>, wrap: Frame, read: Option<(Value, nat)>): Option<(Value, nat)>
    requires read.Some? ==> read.value.1 <= |b|
  {
    match read
    case None => None
    case Some((v, next)) => Finish(b, stack, wrap.(value := v), next)
  }

  /** Reading a value completely is reading it shallowly and resuming, on any stack. */
  lemma ShallowThenResume(b: Bytes, pos: nat, stack: seq<Frame>, wrap: Frame)
    requires pos <= |b|
    ensures Ascend(b, stack, wrap, Parse(b, pos)) == Descend(b, stack, wrap, Shallow(b, pos))
  {
    hide DecodeInt, DecodeBytes, Finish;
    var s := Shallow(b, pos);
    if s.Some? {
      var stack' := stack + [wrap.(value := s.value.0)];
      assert stack'[..|stack'| - 1] == stack;
    }
  }

  /** Reading one more item of an open list does not change what the whole stack reads. */
  lemma StepIntoList(b: Bytes, stack: seq<Frame>, pos: nat)
    requires |stack| > 0 && stack[|stack| - 1].value.List? && pos < |b| && b[pos] != BEN_END
    ensures Resume(b, stack, pos) == Descend(b, stack, Plain(Int(0)), Shallow(b, pos))
  {
    hide Parse, Shallow;
    var (below, top) := (stack[..|stack| - 1], stack[|stack| - 1]);
    ShallowThenResume(b, pos, stack, Plain(Int(0)));
    var p := Parse(b, pos);
    if p.Some? {
      var top' := top.(value := List(top.value.items + [p.value.0]));
      assert Collapse(stack, Plain(p.value.0)) == Pushed(below + [top']);
      assert Finish(b, stack, Plain(p.value.0), p.value.1) == Reopen(b, below, top', p.value.1);
      assert Reopen(b, below, top, pos) == Reopen(b, below, top', p.value.1);
    }
  }

  /** Reading one more key and value of an open dictionary does not change what the whole stack reads. */
  lemma StepIntoDict(b: Bytes, stack: seq<Frame>, pos: nat)
    requires |stack| > 0 && stack[|stack| - 1].value.Dict? && pos < |b| && b[pos] != BEN_END
    ensures DecodeBytes(b, pos).None? ==> Resume(b, stack, pos).None?
    ensures DecodeBytes(b, pos).Some? ==>
      var (key, valuePos) := DecodeBytes(b, pos).value;
      Resume(b, stack, pos) == Descend(b, stack, Mapping(key, Int(0)), Shallow(b, valuePos))
  {
    hide Parse, Shallow, DecodeBytes, InsertSorted, BadKey;
    if DecodeBytes(b, pos).Some? {
      var (below, top) := (stack[..|stack| - 1], stack[|stack| - 1]);
      var (key, valuePos) := DecodeBytes(b, pos).value;
      ShallowThenResume(b, valuePos, stack, Mapping(key, Int(0)));
      var p := Parse(b, valuePos);
      if p.Some? && !BadKey(top.value.entries, key) {
        var top' := top.(value := Dict(InsertSorted(top.value.entries, key, p.value.0)));
        assert Collapse(stack, Mapping(key, p.value.0)) == Pushed(below + [top']);
        assert Finish(b, stack, Mapping(key, p.value.0), p.value.1) == Reopen(b, below, top', p.value.1);
        assert Reopen(b, below, top, pos) == Reopen(b, below, top', p.value.1);
      }
    }
  }

  /** Collapsing a complete entry does not change what the whole stack reads. */
  lemma StepUp(b: Bytes, rest: seq<Frame>, frame: Frame, pos: nat)
    requires FitsOn(rest, frame) && pos <= |b|
    ensures var c := Collapse(rest, frame);
      && (c.Returned? ==> Finish(b, rest, frame, pos) == Some((c.value, pos)))
      && (c.Pushed? ==> |c.stack| > 0 && Finish(b, rest, frame, pos) == Resume(b, c.stack, pos))
      && (c.KeyError? ==> Finish(b, rest, frame, pos).None?)
  {
    hide Reopen;
    CollapseNeverCrashes(rest, frame);
    var c := Collapse(rest, frame);
    if c.Pushed? {
      assert c.stack[..|c.stack| - 1] == rest[..|rest| - 1];
    }
  }

  lemma NothingThere(b: Bytes, pos: nat)
    requires pos >= |b|
    ensures Parse(b, pos).None?
  {}

  /** The first value stands on an empty stack. */
  lemma Bottom(b: Bytes, start: nat)
    requires start < |b|
    ensures Shallow(b, start).None? ==> Parse(b, start).None?
    ensures Shallow(b, start).Some? ==>
      && Alternates([Plain(Shallow(b, start).value.0)])
      && Resume(b, [Plain(Shallow(b, start).value.0)], Shallow(b, start).value.1) == Parse(b, start)
  {
    hide Parse, Shallow;
    ShallowThenResume(b, start, [], Plain(Int(0)));
    if Shallow(b, start).Some? {
      assert [] + [Plain(Shallow(b, start).value.0)] == [Plain(Shallow(b, start).value.0)];
    }
  }

  lemma Unclosed(b: Bytes, stack: seq<Frame>, pos: nat)
    requires |stack| > 0 && IsContainer(stack[|stack| - 1].value) && pos == |b|
    ensures Resume(b, stack, pos).None?
  {}

  lemma Closing(b: Bytes, stack: seq<Frame>, pos: nat)
    requires |stack| > 0 && IsContainer(stack[|stack| - 1].value) && pos < |b| && b[pos] == BEN_END
    ensures Resume(b, stack, pos) == Finish(b, stack[..|stack| - 1], stack[|stack| - 1], pos + 1)
  {}

  lemma Complete(b: Bytes, stack: seq<Frame>, pos: nat)
    requires |stack| > 0 && !IsContainer(stack[|stack| - 1].value) && pos <= |b|
    ensures Resume(b, stack, pos) == Finish(b, stack[..|stack| - 1], stack[|stack| - 1], pos)
  {}

  lemma PushEntry(stack: seq<Frame>, wrap: Frame, v: Value)
    requires Alternates(stack) && |stack| > 0 && IsContainer(stack[|stack| - 1].value)
    requires stack[|stack| - 1].value.List? <==> wrap.Plain?
    ensures Alternates(stack + [wrap.(value := v)])
  {
    assert (stack + [wrap.(value := v)])[..|stack|] == stack;
  }

  /** What the stack decoder reads from the encoding of a value is that value, at any nesting. */
  lemma GrammarRoundTrip(v: Value)
    requires WellFormed(v)
    ensures Parse(Encode(v), 0) == Some((v, |Encode(v)|))
  {
    hide Decode, Encode, Parse, WellFormed, Depth, Erase;
    var b := Encode(v);
    var opts := Options(Depth(v) + |b| + 1, true, true);
    assert At(b, 0, b);
    EncodingDecodes(v, b, 0, opts, 0);
    RecursiveReadsGrammar(b, 0, opts, 0);
  }

  // ---------------------------------------------------------------- the decoder as the source runs it

  /** `decode`: never panics, and accepts exactly what the recursive decoder accepts with key-order
      checking on and a nesting limit above the input length, with the same value and end position. */
  method RunStack(b: Bytes, start: nat) returns (r: Outcome<Value>)
    ensures !r.Panicked?
    ensures forall opts :: Roomy(b, start, opts, 0) ==>
      var d := Decode(b, start, opts, 0);
      (r.Done? <==> d.Done?) && (r.Done? ==> r.value == Erase(d.value) && r.next == d.next)
    ensures r.Done? <==> Parse(b, start).Some?
    ensures r.Done? ==> (r.value, r.next) == Parse(b, start).value
  {
    if start <= |b| {
      forall opts | Roomy(b, start, opts, 0)
        ensures var (d, p) := (Decode(b, start, opts, 0), Parse(b, start));
          (d.Done? <==> p.Some?) && (d.Done? ==> p.value == (Erase(d.value), d.next))
      {
        RecursiveReadsGrammar(b, start, opts, 0);
      }
    }
    hide Parse, Shallow, Resume, Finish, Collapse, FitsOn, DecodeBytes;
    if start >= |b| { NothingThere(b, start); return Rejected; }
    Bottom(b, start);
    var shallow := Shallow(b, start);
    if shallow.None? { return Rejected; }
    var (first, pos) := shallow.value;
    var stack := [Plain(first)];
    while |stack| > 0
      invariant start < pos <= |b|
      invariant Alternates(stack)
      invariant |stack| > 0
      invariant Resume(b, stack, pos) == Parse(b, start)
      decreases |b| - pos, |stack|
    {
      var (rest, frame) := (stack[..|stack| - 1], stack[|stack| - 1]);
      if IsContainer(frame.value) {
        if pos >= |b| { Unclosed(b, stack, pos); return Rejected; }
        if b[pos] == BEN_END {
          Closing(b, stack, pos);
          pos := pos + 1;
        } else {
          var wrap := Plain(Int(0));
          var valuePos := pos;
          if frame.value.List? {
            StepIntoList(b, stack, pos);
          } else {
            StepIntoDict(b, stack, pos);
            var key := DecodeBytes(b, pos);
            if key.None? { return Rejected; }
            valuePos := key.value.1;
            wrap := Mapping(key.value.0, Int(0));
          }
          var entry := Shallow(b, valuePos);
          if entry.None? { return Rejected; }
          PushEntry(stack, wrap, entry.value.0);
          stack := stack + [wrap.(value := entry.value.0)];
          pos := entry.value.1;
          continue;
        }
      } else {
        Complete(b, stack, pos);
      }
      // The entry is complete: collapse it into the one below.
      assert Alternates(stack);
      StepUp(b, rest, frame, pos);
      CollapseNeverCrashes(rest, frame);
      match Collapse(rest, frame)
      case Returned(v) => return Done(v, pos);
      case Pushed(stack') => stack := stack';
      case KeyError => return Rejected;
      case Crashed => return Panicked;
    }
    r := Panicked;
  }
}
