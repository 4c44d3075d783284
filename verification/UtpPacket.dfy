/** uTP packets: a twenty-byte header, a chain of extensions, and the payload. */
module UtpPacket {
  import opened Common

  const HEADER_SIZE := 20
  const VERSION := 1
  const NO_EXTENSION: byte := 0
  const SELECTIVE_ACK: byte := 1

  datatype PacketType = Data | Fin | State | Reset | Syn

  function TypeCode(t: PacketType): byte {
    match t case Data => 0 case Fin => 1 case State => 2 case Reset => 3 case Syn => 4
  }

  function TypeOf(n: byte): Option<PacketType> {
    if n == 0 then Some(Data) else if n == 1 then Some(Fin) else if n == 2 then Some(State)
    else if n == 3 then Some(Reset) else if n == 4 then Some(Syn) else None
  }

  datatype ParseError = InvalidPacketLength | UnsupportedVersion | InvalidPacketType(n: byte) | InvalidExtensionLength

  datatype Extension = Extension(kind: byte, data: Bytes)

  // ---------------------------------------------------------------- the chain of extensions

  /** A chain of extensions and the position of the payload, or the first thing wrong with it. */
  datatype Scanned = Chain(exts: seq<Extension>, end: nat) | Malformed(error: ParseError)

  /** The loop of `check_extensions` from the top: an extension of the given kind is expected at index. */
  function Scan(b: Bytes, index: nat, kind: byte): (r: Scanned)
    requires index <= |b|
    ensures r.Chain? ==> index <= r.end <= |b|
    decreases |b| - index
  {
    if kind == NO_EXTENSION then Chain([], index)
    else if |b| < index + 2 then Malformed(InvalidPacketLength)
    else
      var len := b[index + 1];
      if len == 0 || len % 4 != 0 || index + 2 + len > |b| then Malformed(InvalidExtensionLength)
      else
        match Scan(b, index + 2 + len, b[index])
        case Chain(exts, end) => Chain([Extension(kind, b[index + 2..index + 2 + len])] + exts, end)
        case Malformed(e) => Malformed(e)
  }

  /** A well-formed extension starts at index. */
  predicate LinkAt(b: Bytes, index: nat) {
    index + 2 <= |b| && 0 < b[index + 1] && b[index + 1] % 4 == 0 && index + 2 + b[index + 1] <= |b|
  }

  /** Reading one link. */
  lemma ScanLink(b: Bytes, index: nat, kind: byte)
    requires index <= |b| && kind != NO_EXTENSION
    ensures Scan(b, index, kind).Chain? ==> LinkAt(b, index)
    ensures LinkAt(b, index) ==>
      var next := index + 2 + b[index + 1];
      var s := Scan(b, next, b[index]);
      Scan(b, index, kind) == if s.Chain? then Chain([Extension(kind, b[index + 2..next])] + s.exts, s.end) else s
  {}

  function ErrorOf(s: Scanned): Option<ParseError> {
    if s.Chain? then None else Some(s.error)
  }

  /** `check_extensions`. */
  function CheckExtensions(b: Bytes): (r: Option<ParseError>) {
    if |b| < HEADER_SIZE then Some(InvalidPacketLength)
    else if |b| == HEADER_SIZE && b[1] != NO_EXTENSION then Some(InvalidExtensionLength)
    else ErrorOf(Scan(b, HEADER_SIZE, b[1]))
  }

  /** `PacketHeader::try_from_type`: only the checks. */
  function CheckHeader(b: Bytes): (r: Option<ParseError>) {
    if |b| < HEADER_SIZE then Some(InvalidPacketLength)
    else if b[0] % 16 != VERSION then Some(UnsupportedVersion)
    else if TypeOf(b[0] / 16).None? then Some(InvalidPacketType(b[0] / 16))
    else None
  }

  /** `Packet::try_from_type`: what is wrong with the bytes, if anything. */
  function CheckPacket(b: Bytes): (r: Option<ParseError>) {
    if CheckHeader(b).Some? then CheckHeader(b) else CheckExtensions(b)
  }

  /** The bytes of a `Packet`. */
  predicate IsPacket(b: Bytes) {
    CheckPacket(b).None?
  }

  lemma PacketScans(b: Bytes)
    ensures IsPacket(b) <==>
      && |b| >= HEADER_SIZE && b[0] % 16 == VERSION && TypeOf(b[0] / 16).Some?
      && Scan(b, HEADER_SIZE, b[1]).Chain?
  {}

  /** Following well-formed extensions from index leads to the position at, where the kind is announced. */
  predicate LinksTo(b: Bytes, index: nat, kind: byte, at: nat, announced: byte)
    requires index <= |b|
    decreases |b| - index
  {
    || (at == index && announced == kind)
    || (kind != NO_EXTENSION && LinkAt(b, index) && LinksTo(b, index + 2 + b[index + 1], b[index], at, announced))
  }

  /** An announced extension is missing: fewer than two bytes are left for it. */
  predicate MissingAt(b: Bytes, index: nat, kind: byte, at: nat, announced: byte)
    requires index <= |b|
  {
    announced != NO_EXTENSION && LinksTo(b, index, kind, at, announced) && |b| < at + 2
  }

  /** An announced extension has a length that is zero, no multiple of four, or beyond the end. */
  predicate MalformedAt(b: Bytes, index: nat, kind: byte, at: nat, announced: byte)
    requires index <= |b|
  {
    announced != NO_EXTENSION && LinksTo(b, index, kind, at, announced) && at + 2 <= |b| && !LinkAt(b, at)
  }

  lemma {:induction false} ScanErrors(b: Bytes, index: nat, kind: byte)
    requires index <= |b|
    ensures Scan(b, index, kind) == Malformed(InvalidPacketLength) <==>
      exists at: nat, announced :: MissingAt(b, index, kind, at, announced)
    ensures Scan(b, index, kind) == Malformed(InvalidExtensionLength) <==>
      exists at: nat, announced :: MalformedAt(b, index, kind, at, announced)
    ensures Scan(b, index, kind).Malformed? ==>
      Scan(b, index, kind).error.InvalidPacketLength? || Scan(b, index, kind).error.InvalidExtensionLength?
    decreases |b| - index
  {
    if kind == NO_EXTENSION {
    } else if !LinkAt(b, index) {
      assert LinksTo(b, index, kind, index, kind);
      if |b| < index + 2 {
        assert MissingAt(b, index, kind, index, kind);
      } else {
        assert MalformedAt(b, index, kind, index, kind);
      }
    } else {
      var (next, announced) := (index + 2 + b[index + 1], b[index]);
      ScanErrors(b, next, announced);
      ScanLink(b, index, kind);
      hide Scan;
      forall at: nat, k: byte
        ensures MissingAt(b, index, kind, at, k) <==> MissingAt(b, next, announced, at, k)
        ensures MalformedAt(b, index, kind, at, k) <==> MalformedAt(b, next, announced, at, k)
      {}
    }
  }

  /** Which error bytes are refused with: too short, or an announced extension missing; a wrong version; an
      unknown type; a wrong extension length. */
  lemma ErrorsExactly(b: Bytes)
    ensures var e := CheckPacket(b);
      && (|b| < HEADER_SIZE ==> e == Some(InvalidPacketLength))
      && (|b| >= HEADER_SIZE ==>
            && (e == Some(UnsupportedVersion) <==> b[0] % 16 != VERSION)
            && (forall n :: e == Some(InvalidPacketType(n)) <==> b[0] % 16 == VERSION && n == b[0] / 16 >= 5)
            && (b[0] % 16 == VERSION && b[0] / 16 < 5 ==>
                  && (e == Some(InvalidPacketLength) <==>
                        |b| > HEADER_SIZE && exists at: nat, k :: MissingAt(b, HEADER_SIZE, b[1], at, k))
                  && (e == Some(InvalidExtensionLength) <==>
                        (|b| == HEADER_SIZE && b[1] != NO_EXTENSION)
                        || exists at: nat, k :: MalformedAt(b, HEADER_SIZE, b[1], at, k))))
  {
    if |b| >= HEADER_SIZE {
      ScanErrors(b, HEADER_SIZE, b[1]);
      hide Scan, MissingAt, MalformedAt;
    }
  }

  function Extensions(b: Bytes): seq<Extension>
    requires IsPacket(b)
  {
    PacketScans(b);
    Scan(b, HEADER_SIZE, b[1]).exts
  }

  function PayloadStart(b: Bytes): (n: nat)
    requires IsPacket(b)
    ensures HEADER_SIZE <= n <= |b|
  {
    PacketScans(b);
    Scan(b, HEADER_SIZE, b[1]).end
  }

  function Payload(b: Bytes): Bytes
    requires IsPacket(b)
  {
    b[PayloadStart(b)..]
  }

  // ---------------------------------------------------------------- packets by their parts

  /** An extension that can be written: a real kind, and a non-zero multiple of four bytes whose number
      fits one byte. */
  predicate Writable(e: Extension) {
    e.kind != NO_EXTENSION && 0 < |e.data| < 256 && |e.data| % 4 == 0
  }

  predicate AllWritable(exts: seq<Extension>) {
    forall i :: 0 <= i < |exts| ==> Writable(exts[i])
  }

  function FirstKind(exts: seq<Extension>): byte {
    if |exts| == 0 then NO_EXTENSION else exts[0].kind
  }

  /** Each extension is preceded by the kind of the next one and its own length. */
  function ChainBytes(exts: seq<Extension>): Bytes
    requires AllWritable(exts)
  {
    if |exts| == 0 then []
    else [FirstKind(exts[1..]), |exts[0].data|] + exts[0].data + ChainBytes(exts[1..])
  }

  function Assemble(header: Bytes, exts: seq<Extension>, payload: Bytes): Bytes
    requires |header| == HEADER_SIZE && AllWritable(exts)
  {
    header[1 := FirstKind(exts)] + ChainBytes(exts) + payload
  }

  /** Wherever the bytes of a chain stand, that chain is read. */
  lemma {:induction false} ScanAssembled(b: Bytes, index: nat, exts: seq<Extension>)
    requires AllWritable(exts) && index <= |b| && ChainBytes(exts) <= b[index..]
    ensures Scan(b, index, FirstKind(exts)) == Chain(exts, index + |ChainBytes(exts)|)
    decreases |exts|
  {
    hide ChainBytes, Scan, LinkAt, AllWritable;
    if |exts| == 0 {
      NoChain(b, index);
    } else {
      var (e, rest) := (exts[0], exts[1..]);
      FirstLink(b, index, exts);
      ScanAssembled(b, index + 2 + |e.data|, rest);
      ScanLink(b, index, e.kind);
      assert exts == [e] + rest;
    }
  }

  lemma NoChain(b: Bytes, index: nat)
    requires index <= |b|
    ensures Scan(b, index, NO_EXTENSION) == Chain([], index) && ChainBytes([]) == []
  {}

  lemma FirstLink(b: Bytes, index: nat, exts: seq<Extension>)
    requires AllWritable(exts) && |exts| > 0 && index <= |b| && ChainBytes(exts) <= b[index..]
    ensures AllWritable(exts[1..]) && exts[0].kind != NO_EXTENSION && LinkAt(b, index)
    ensures b[index] == FirstKind(exts[1..]) && b[index + 1] == |exts[0].data|
    ensures var next := index + 2 + |exts[0].data|;
      && b[index + 2..next] == exts[0].data
      && ChainBytes(exts[1..]) <= b[next..]
    ensures |ChainBytes(exts)| == 2 + |exts[0].data| + |ChainBytes(exts[1..])|
  {
    var (e, rest) := (exts[0], exts[1..]);
    var link: Bytes := [FirstKind(rest), |e.data|] + e.data;
    assert ChainBytes(exts) == link + ChainBytes(rest);
    hide ChainBytes;
    assert Writable(e);
    LinkRead(b, index, link, ChainBytes(rest));
  }

  lemma LinkRead(b: Bytes, index: nat, link: Bytes, rest: Bytes)
    requires index <= |b| && |link| >= 2 && link + rest <= b[index..]
    ensures index + |link| <= |b| && b[index] == link[0] && b[index + 1] == link[1]
    ensures b[index + 2..index + |link|] == link[2..]
    ensures rest <= b[index + |link|..]
  {
    var t := b[index..];
    assert t[..|link|] == (link + rest)[..|link|] == link;
    assert t[|link|..|link| + |rest|] == (link + rest)[|link|..] == rest;
    assert b[index + |link|..][..|rest|] == t[|link|..|link| + |rest|];
    assert b[index + 2..index + |link|] == t[2..|link|];
  }

  lemma {:induction false} ScannedBytes(b: Bytes, index: nat, kind: byte)
    requires index <= |b| && Scan(b, index, kind).Chain?
    ensures var s := Scan(b, index, kind);
      kind == FirstKind(s.exts) && AllWritable(s.exts) && b[index..s.end] == ChainBytes(s.exts)
    decreases |b| - index
  {
    if kind != NO_EXTENSION {
      var len := b[index + 1];
      var next := index + 2 + len;
      ScannedBytes(b, next, b[index]);
      var (s, s') := (Scan(b, index, kind), Scan(b, next, b[index]));
      assert s.exts[1..] == s'.exts;
      assert b[index..s.end] == [b[index], len] + b[index + 2..next] + b[next..s.end];
    }
  }

  /** Every accepted packet is its header, its extensions and its payload, and nothing else. */
  lemma PacketParts(b: Bytes)
    requires IsPacket(b)
    ensures AllWritable(Extensions(b))
    ensures b == Assemble(b[..HEADER_SIZE], Extensions(b), Payload(b))
  {
    PacketScans(b);
    ScannedBytes(b, HEADER_SIZE, b[1]);
    var header := b[..HEADER_SIZE];
    assert header[1 := b[1]] == header;
    hide Scan;
    assert b == header + b[HEADER_SIZE..PayloadStart(b)] + b[PayloadStart(b)..];
  }

  /** Any parts put together are accepted and come apart again, so a packet has only one reading. */
  lemma AssembledParts(header: Bytes, exts: seq<Extension>, payload: Bytes)
    requires |header| == HEADER_SIZE && CheckHeader(header).None? && AllWritable(exts)
    ensures var b := Assemble(header, exts, payload);
      IsPacket(b) && Extensions(b) == exts && Payload(b) == payload
  {
    var h := header[1 := FirstKind(exts)];
    var b := Assemble(header, exts, payload);
    assert b[HEADER_SIZE..] == ChainBytes(exts) + payload;
    ScanAssembled(b, HEADER_SIZE, exts);
    assert b[0] == header[0] && b[1] == FirstKind(exts);
    hide Scan, ChainBytes;
    PacketScans(b);
    hide IsPacket;
    assert Payload(b) == payload;
  }

  // ---------------------------------------------------------------- the loops of the source

  method RunCheckExtensions(b: Bytes) returns (r: Option<ParseError>)
    ensures r == CheckExtensions(b)
  {
    if |b| < HEADER_SIZE { return Some(InvalidPacketLength); }
    var index := HEADER_SIZE;
    var kind := b[1];
    if |b| == HEADER_SIZE && kind != NO_EXTENSION { return Some(InvalidExtensionLength); }
    while index < |b| && kind != NO_EXTENSION
      invariant HEADER_SIZE <= index <= |b|
      invariant ErrorOf(Scan(b, HEADER_SIZE, b[1])) == ErrorOf(Scan(b, index, kind))
      decreases |b| - index
    {
      if |b| < index + 2 { return Some(InvalidPacketLength); }
      var len := b[index + 1];
      if len == 0 || len % 4 != 0 || index + 2 + len > |b| { return Some(InvalidExtensionLength); }
      kind := b[index];
      index := index + len + 2;
    }
    if kind != NO_EXTENSION { return Some(InvalidPacketLength); }
    r := None;
  }

  /** `payload`: on an accepted packet its unchecked reads stay inside the bytes. */
  method RunPayload(b: Bytes) returns (payload: Bytes)
    requires IsPacket(b)
    ensures payload == Payload(b)
  {
    PacketScans(b);
    var index := HEADER_SIZE;
    var kind := b[1];
    while index < |b| && kind != NO_EXTENSION
      invariant HEADER_SIZE <= index <= |b|
      invariant Scan(b, index, kind).Chain? && Scan(b, index, kind).end == PayloadStart(b)
      decreases |b| - index
    {
      var len := b[index + 1];
      kind := b[index];
      index := index + len + 2;
    }
    payload := b[index..];
  }

  /** `ExtensionIterator` over an accepted packet. */
  class ExtensionIterator {
    const bytes: Bytes
    var nextKind: byte
    var index: nat

    ghost predicate Valid()
      reads this
    {
      index <= |bytes| && Scan(bytes, index, nextKind).Chain?
    }

    /** The extensions not handed out yet. */
    ghost function Remaining(): seq<Extension>
      requires Valid()
      reads this
    {
      Scan(bytes, index, nextKind).exts
    }

    constructor (b: Bytes)
      requires IsPacket(b)
      ensures Valid() && bytes == b && Remaining() == Extensions(b)
    {
      PacketScans(b);
      bytes := b;
      nextKind := b[1];
      index := HEADER_SIZE;
    }

    method Next() returns (r: Option<Extension>)
      requires Valid()
      modifies this
      ensures Valid()
      ensures r.Some? ==> old(Remaining()) == [r.value] + Remaining()
      ensures r.None? ==> old(Remaining()) == [] && Remaining() == []
    {
      if nextKind == NO_EXTENSION { return None; }
      if index >= |bytes| { return None; }
      var len := bytes[index + 1];
      r := Some(Extension(nextKind, bytes[index + 2..index + 2 + len]));
      nextKind := bytes[index];
      index := index + len + 2;
    }
  }

  // ---------------------------------------------------------------- adding a selective acknowledgement

  /** Where the kind of the first extension after the chain is noted. */
  function LastMarker(b: Bytes, index: nat, kind: byte, marker: nat): (m: nat)
    requires index <= |b| && Scan(b, index, kind).Chain?
    ensures m == marker || index <= m < Scan(b, index, kind).end
    ensures kind != NO_EXTENSION ==> index <= m < Scan(b, index, kind).end
    decreases |b| - index
  {
    if kind == NO_EXTENSION then marker else LastMarker(b, index + 2 + b[index + 1], b[index], index)
  }

  /** Following the chain from here, with the last marker seen at m, ends at `end` with that marker last. */
  predicate Leads(b: Bytes, index: nat, kind: byte, m: nat, end: nat, marker: nat) {
    && index <= |b| && m < |b|
    && Scan(b, index, kind).Chain? && Scan(b, index, kind).end == end && LastMarker(b, index, kind, m) == marker
  }

  lemma LeadsOn(b: Bytes, index: nat, kind: byte, m: nat, end: nat, marker: nat)
    requires Leads(b, index, kind, m, end, marker) && kind != NO_EXTENSION
    ensures index + 1 < |b| && Leads(b, index + 2 + b[index + 1], b[index], index, end, marker)
  {}

  lemma LeadsHere(b: Bytes, index: nat, kind: byte, m: nat, end: nat, marker: nat)
    requires Leads(b, index, kind, m, end, marker) && (index == |b| || kind == NO_EXTENSION)
    ensures kind == NO_EXTENSION && end == index && marker == m
  {}

  /** `set_sack`: the length is cut to one byte. */
  function WithSack(b: Bytes, mask: Bytes): Bytes
    requires IsPacket(b)
  {
    PacketScans(b);
    var (end, marker) := (PayloadStart(b), LastMarker(b, HEADER_SIZE, b[1], 1));
    b[..end][marker := SELECTIVE_ACK] + [NO_EXTENSION, |mask| % 256] + mask + b[end..]
  }

  /** From this link on, r repeats b's chain, except that its last marker announces one more extension,
      which holds the mask and is followed by the tail. */
  predicate Extends(b: Bytes, index: nat, kind: byte, marker: nat, r: Bytes, mask: Bytes, tail: Bytes)
    requires index <= |b| && Scan(b, index, kind).Chain?
  {
    var (end, m) := (Scan(b, index, kind).end, LastMarker(b, index, kind, marker));
    && 0 < |mask| < 256 && |mask| % 4 == 0
    && end <= |r|
    && (forall i :: index <= i < end && i != m ==> r[i] == b[i])
    && (index <= m < end ==> r[m] == SELECTIVE_ACK)
    && r[end..] == [NO_EXTENSION, |mask|] + mask + tail
  }

  lemma {:induction false} ScanExtended(b: Bytes, index: nat, kind: byte, marker: nat, r: Bytes, mask: Bytes, tail: Bytes)
    requires index <= |b| && Scan(b, index, kind).Chain? && Extends(b, index, kind, marker, r, mask, tail)
    ensures index <= |r|
    ensures var s := Scan(b, index, kind);
      Scan(r, index, if kind == NO_EXTENSION then SELECTIVE_ACK else kind)
      == Chain(s.exts + [Extension(SELECTIVE_ACK, mask)], s.end + 2 + |mask|)
    decreases |b| - index
  {
    hide Extends, LastMarker, Scan;
    if kind == NO_EXTENSION {
      ExtendsLast(b, index, marker, r, mask, tail);
      ScanOnlySack(r, index, mask, tail);
    } else {
      ExtendsNext(b, index, kind, marker, r, mask, tail);
      var next := index + 2 + b[index + 1];
      ScanExtended(b, next, b[index], index, r, mask, tail);
      var (s, s') := (Scan(b, index, kind), Scan(b, next, b[index]));
      ScanLink(b, index, kind);
      ScanLink(r, index, kind);
      assert s.exts == [Extension(kind, b[index + 2..next])] + s'.exts;
      assert s.exts + [Extension(SELECTIVE_ACK, mask)]
          == [Extension(kind, b[index + 2..next])] + (s'.exts + [Extension(SELECTIVE_ACK, mask)]);
    }
  }

  lemma ExtendsLast(b: Bytes, index: nat, marker: nat, r: Bytes, mask: Bytes, tail: Bytes)
    requires index <= |b| && Extends(b, index, NO_EXTENSION, marker, r, mask, tail)
    ensures Scan(b, index, NO_EXTENSION) == Chain([], index) && index <= |r|
    ensures 0 < |mask| < 256 && |mask| % 4 == 0 && r[index..] == [NO_EXTENSION, |mask|] + mask + tail
  {}

  lemma ScanOnlySack(r: Bytes, index: nat, mask: Bytes, tail: Bytes)
    requires 0 < |mask| < 256 && |mask| % 4 == 0
    requires index <= |r| && r[index..] == [NO_EXTENSION, |mask|] + mask + tail
    ensures Scan(r, index, SELECTIVE_ACK) == Chain([Extension(SELECTIVE_ACK, mask)], index + 2 + |mask|)
  {
    assert r[index] == r[index..][0] && r[index + 1] == r[index..][1];
    assert r[index + 2..index + 2 + |mask|] == r[index..][2..2 + |mask|] == mask;
    assert Scan(r, index + 2 + |mask|, NO_EXTENSION) == Chain([], index + 2 + |mask|);
  }

  lemma ExtendsNext(b: Bytes, index: nat, kind: byte, marker: nat, r: Bytes, mask: Bytes, tail: Bytes)
    requires index <= |b| && Scan(b, index, kind).Chain? && Extends(b, index, kind, marker, r, mask, tail)
    requires kind != NO_EXTENSION
    ensures var next := index + 2 + b[index + 1];
      && next <= |r| && Scan(b, next, b[index]).Chain? && Extends(b, next, b[index], index, r, mask, tail)
      && r[index] == (if b[index] == NO_EXTENSION then SELECTIVE_ACK else b[index])
      && r[index + 1] == b[index + 1]
      && r[index + 2..next] == b[index + 2..next]
      && LinkAt(r, index)
  {
    var next := index + 2 + b[index + 1];
    var (end, m) := (Scan(b, index, kind).end, LastMarker(b, index, kind, marker));
    assert end == Scan(b, next, b[index]).end && m == LastMarker(b, next, b[index], index);
    assert m == index <==> b[index] == NO_EXTENSION;
    hide Scan, LastMarker;
  }

  /** A mask of 4 to 252 bytes is appended as one more extension; the extensions before it and the
      payload stay as they were. */
  lemma SackAppended(b: Bytes, mask: Bytes)
    requires IsPacket(b) && 0 < |mask| < 256 && |mask| % 4 == 0
    ensures var r := WithSack(b, mask);
      && IsPacket(r)
      && Extensions(r) == Extensions(b) + [Extension(SELECTIVE_ACK, mask)]
      && Payload(r) == Payload(b)
  {
    PacketScans(b);
    var (end, marker) := (PayloadStart(b), LastMarker(b, HEADER_SIZE, b[1], 1));
    var r := WithSack(b, mask);
    var tail := b[end..];
    assert r[end..] == [NO_EXTENSION, |mask|] + mask + tail;
    assert forall i :: 0 <= i < end && i != marker ==> r[i] == b[i];
    ScanExtended(b, HEADER_SIZE, b[1], 1, r, mask, tail);
    assert r[1] == if b[1] == NO_EXTENSION then SELECTIVE_ACK else b[1];
    PacketScans(r);
    assert r[end + 2 + |mask|..] == tail;
  }

  /** For any mask the source lets through, the packet reads back with exactly that extension added if
      and only if the mask has fewer than 256 bytes: the length byte cannot say more. */
  lemma SackExact(b: Bytes, mask: Bytes)
    requires IsPacket(b) && |mask| >= 4 && |mask| % 4 == 0
    ensures var r := WithSack(b, mask);
      (IsPacket(r) && Extensions(r) == Extensions(b) + [Extension(SELECTIVE_ACK, mask)] && Payload(r) == Payload(b))
      <==> |mask| < 256
  {
    var r := WithSack(b, mask);
    if |mask| < 256 {
      SackAppended(b, mask);
    } else if IsPacket(r) && |Extensions(b)| < |Extensions(r)| {
      ExtensionIsShort(r, |Extensions(b)|);
    }
  }

  lemma ExtensionIsShort(b: Bytes, i: nat)
    requires IsPacket(b) && i < |Extensions(b)|
    ensures |Extensions(b)[i].data| < 256
  {
    PacketParts(b);
    hide IsPacket, Extensions;
    assert Writable(Extensions(b)[i]);
  }

  // ---------------------------------------------------------------- header fields

  /** Set the two bytes of a 16-bit header field, most significant first. */
  function PutU16(b: Bytes, at: nat, value: nat): Bytes
    requires at + 2 <= |b| && value < 0x1_0000
  {
    b[at := value / 256][at + 1 := value % 256]
  }

  function GetU16(b: Bytes, at: nat): (value: nat)
    requires at + 2 <= |b|
    ensures value < 0x1_0000
  {
    (b[at] as int) * 256 + b[at + 1]
  }

  function PutU32(b: Bytes, at: nat, value: nat): Bytes
    requires at + 4 <= |b| && value < 0x1_0000_0000
  {
    PutU16(PutU16(b, at, value / 0x1_0000), at + 2, value % 0x1_0000)
  }

  function GetU32(b: Bytes, at: nat): (value: nat)
    requires at + 4 <= |b|
    ensures value < 0x1_0000_0000
  {
    GetU16(b, at) * 0x1_0000 + GetU16(b, at + 2)
  }

  const CONNECTION_ID_AT := 2
  const TIMESTAMP_AT := 4
  const DIFFERENCE_AT := 8
  const WND_SIZE_AT := 12
  const SEQ_NR_AT := 16
  const ACK_NR_AT := 18

  /** The two-byte header fields. */
  predicate IsField16(at: nat) {
    at == CONNECTION_ID_AT || at == SEQ_NR_AT || at == ACK_NR_AT
  }

  /** The four-byte header fields. */
  predicate IsField32(at: nat) {
    at == TIMESTAMP_AT || at == DIFFERENCE_AT || at == WND_SIZE_AT
  }

  /** `set_type`: the low half of the first byte, the version, stays. */
  function PutType(b: Bytes, t: PacketType): Bytes
    requires |b| > 0
  {
    b[0 := TypeCode(t) * 16 + b[0] % 16]
  }

  lemma {:induction false} ScanSameTail(b: Bytes, r: Bytes, index: nat, kind: byte)
    requires HEADER_SIZE <= index <= |b| == |r| && b[HEADER_SIZE..] == r[HEADER_SIZE..]
    ensures Scan(b, index, kind) == Scan(r, index, kind)
    decreases |b| - index
  {
    assert forall i :: HEADER_SIZE <= i < |b| ==> b[i] == b[HEADER_SIZE..][i - HEADER_SIZE] == r[i];
    if kind != NO_EXTENSION && index + 2 <= |b| && index + 2 + b[index + 1] <= |b| && b[index + 1] > 0 {
      ScanSameTail(b, r, index + 2 + b[index + 1], b[index]);
      assert b[index + 2..index + 2 + b[index + 1]] == r[index + 2..index + 2 + b[index + 1]];
    }
  }

  /** Bytes that agree from the extension byte on, apart from header fields, and in the first byte name a
      version and type, are a packet with the same extensions and payload. */
  lemma HeaderChange(b: Bytes, r: Bytes)
    requires IsPacket(b) && |r| == |b| && r[1] == b[1] && r[HEADER_SIZE..] == b[HEADER_SIZE..]
    requires r[0] % 16 == VERSION && TypeOf(r[0] / 16).Some?
    ensures IsPacket(r) && Extensions(r) == Extensions(b) && Payload(r) == Payload(b)
  {
    PacketScans(b);
    PacketScans(r);
    ScanSameTail(b, r, HEADER_SIZE, b[1]);
    hide Scan;
    assert forall n :: HEADER_SIZE <= n <= |b| ==> b[n..] == b[HEADER_SIZE..][n - HEADER_SIZE..];
    assert forall n :: HEADER_SIZE <= n <= |b| ==> r[n..] == r[HEADER_SIZE..][n - HEADER_SIZE..];
  }

  /** Setting a two-byte field changes its two bytes and nothing else, and the field reads back. */
  lemma FieldSet(b: Bytes, at: nat, value: nat)
    requires IsPacket(b) && IsField16(at) && value < 0x1_0000
    ensures var r := PutU16(b, at, value);
      && IsPacket(r) && Extensions(r) == Extensions(b) && Payload(r) == Payload(b)
      && GetU16(r, at) == value
      && |r| == |b| && forall i :: 0 <= i < |b| && !(at <= i < at + 2) ==> r[i] == b[i]
  {
    PacketScans(b);
    HeaderChange(b, PutU16(b, at, value));
  }

  /** The same for the four-byte fields. */
  lemma WideFieldSet(b: Bytes, at: nat, value: nat)
    requires IsPacket(b) && IsField32(at) && value < 0x1_0000_0000
    ensures var r := PutU32(b, at, value);
      && IsPacket(r) && Extensions(r) == Extensions(b) && Payload(r) == Payload(b)
      && GetU32(r, at) == value
      && |r| == |b| && forall i :: 0 <= i < |b| && !(at <= i < at + 4) ==> r[i] == b[i]
  {
    PacketScans(b);
    HeaderChange(b, PutU32(b, at, value));
  }

  /** Setting the type changes the first byte only, reads back, and keeps the version. */
  lemma TypeSet(b: Bytes, t: PacketType)
    requires IsPacket(b)
    ensures |b| > 0
    ensures var r := PutType(b, t);
      && IsPacket(r) && Extensions(r) == Extensions(b) && Payload(r) == Payload(b)
      && TypeOf(r[0] / 16) == Some(t) && r[0] % 16 == b[0] % 16
      && |r| == |b| && forall i :: 0 < i < |b| ==> r[i] == b[i]
  {
    PacketScans(b);
    HeaderChange(b, PutType(b, t));
  }

  // ---------------------------------------------------------------- the packet as an object

  const DEFAULT_HEADER: Bytes := [1, 0, 0, 0, 0, 0, 0, 0, 0, 0, 0, 0, 0, 0, 0, 0, 0, 0, 0, 0]

  lemma FreshPacket(payload: Bytes)
    ensures IsPacket(DEFAULT_HEADER + payload)
    ensures Extensions(DEFAULT_HEADER + payload) == [] && Payload(DEFAULT_HEADER + payload) == payload
  {
    AssembledParts(DEFAULT_HEADER, [], payload);
    assert Assemble(DEFAULT_HEADER, [], payload) == DEFAULT_HEADER + payload;
  }

  /** The loop of `set_sack` on the bytes of the packet: where the payload starts, and the bytes with the
      last marker changed. */
  method FollowChain(b: Bytes) returns (index: nat, bytes: Bytes)
    requires IsPacket(b)
    ensures index == PayloadStart(b)
    ensures |b| >= HEADER_SIZE && Scan(b, HEADER_SIZE, b[1]).Chain?
    ensures bytes == b[LastMarker(b, HEADER_SIZE, b[1], 1) := SELECTIVE_ACK]
  {
    PacketScans(b);
    ghost var (end, marker) := (PayloadStart(b), LastMarker(b, HEADER_SIZE, b[1], 1));
    assert Leads(b, HEADER_SIZE, b[1], 1, end, marker);
    hide Scan, LastMarker, IsPacket, PayloadStart, Leads;
    if b[1] == NO_EXTENSION {
      LeadsHere(b, HEADER_SIZE, b[1], 1, end, marker);
      index, bytes := HEADER_SIZE, b[1 := SELECTIVE_ACK];
    } else {
      index, bytes := FollowLinks(b, end, marker);
    }
  }

  /** Its loop, when there are extensions. */
  method FollowLinks(b: Bytes, ghost end: nat, ghost marker: nat) returns (index: nat, bytes: Bytes)
    requires |b| >= HEADER_SIZE && b[1] != NO_EXTENSION && Leads(b, HEADER_SIZE, b[1], 1, end, marker)
    ensures index == end && marker < |b| && bytes == b[marker := SELECTIVE_ACK]
  {
    hide Scan, LastMarker, Leads;
    index, bytes := HEADER_SIZE, b;
    var kind := bytes[1];
    ghost var m := 1;
    while index < |bytes| && kind != NO_EXTENSION
      invariant index <= |b| == |bytes| && m < |b|
      invariant Leads(b, index, kind, m, end, marker)
      invariant bytes == if kind == NO_EXTENSION then b[m := SELECTIVE_ACK] else b
      decreases |b| - index
    {
      LeadsOn(b, index, kind, m, end, marker);
      var len := bytes[index + 1];
      kind := bytes[index];
      m := index;
      if kind == NO_EXTENSION {
        bytes := bytes[index := SELECTIVE_ACK];
      }
      index := index + len + 2;
    }
    LeadsHere(b, index, kind, m, end, marker);
  }

  class Packet {
    var data: Bytes

    ghost predicate Valid()
      reads this
    {
      IsPacket(data)
    }

    /** `Packet::with_payload`, and `Packet::new` for an empty payload. */
    constructor (payload: Bytes)
      ensures Valid() && data == DEFAULT_HEADER + payload
    {
      data := DEFAULT_HEADER + payload;
      FreshPacket(payload);
    }

    /** The setters of the two-byte fields. */
    method SetField(at: nat, value: nat)
      requires Valid() && IsField16(at) && value < 0x1_0000
      modifies this
      ensures Valid() && data == PutU16(old(data), at, value)
    {
      FieldSet(data, at, value);
      data := PutU16(data, at, value);
    }

    /** The setters of the four-byte fields. */
    method SetWideField(at: nat, value: nat)
      requires Valid() && IsField32(at) && value < 0x1_0000_0000
      modifies this
      ensures Valid() && data == PutU32(old(data), at, value)
    {
      WideFieldSet(data, at, value);
      data := PutU32(data, at, value);
    }

    /** `set_type`. */
    method SetType(t: PacketType)
      requires Valid()
      modifies this
      ensures Valid() && |old(data)| > 0 && data == PutType(old(data), t)
    {
      TypeSet(data, t);
      data := PutType(data, t);
    }

    /** The first half of `set_sack`: note the new extension in the last marker, wherever that is. */
    method Announce() returns (index: nat)
      requires Valid()
      modifies this
      ensures index == PayloadStart(old(data))
      ensures |old(data)| >= HEADER_SIZE && Scan(old(data), HEADER_SIZE, old(data)[1]).Chain?
      ensures data == old(data)[LastMarker(old(data), HEADER_SIZE, old(data)[1], 1) := SELECTIVE_ACK]
    {
      index, data := FollowChain(data);
    }

    /** The second half: insert the marker, the length and the mask, byte by byte. */
    method InsertExtension(index: nat, mask: Bytes)
      requires index <= |data|
      modifies this
      ensures data == old(data)[..index] + [NO_EXTENSION, |mask| % 256] + mask + old(data)[index..]
    {
      var (before, after) := (data[..index], data[index..]);
      data := data[..index] + [NO_EXTENSION] + data[index..];
      data := data[..index + 1] + [|mask| % 256] + data[index + 1..];
      for i := 0 to |mask|
        invariant data == before + [NO_EXTENSION, |mask| % 256] + mask[..i] + after
      {
        data := data[..index + 2 + i] + [mask[i]] + data[index + 2 + i..];
      }
      assert mask[..|mask|] == mask;
    }

    /** `set_sack`. */
    method SetSack(mask: Bytes)
      requires Valid() && |mask| >= 4 && |mask| % 4 == 0
      modifies this
      ensures data == WithSack(old(data), mask)
      ensures |mask| < 256 ==> Valid()
    {
      if |mask| < 256 { SackAppended(data, mask); }
      hide IsPacket;
      ghost var b := data;
      var index := Announce();
      ghost var marker := LastMarker(b, HEADER_SIZE, b[1], 1);
      assert data[..index] == b[..index][marker := SELECTIVE_ACK] && data[index..] == b[index..];
      InsertExtension(index, mask);
    }
  }
}
