/** The three request forms, told apart by their number of tags; always 1012 bytes inside 1024-byte frames. */
module Requests {
  import opened Wrappers
  import opened Primitives
  import opened Cursors
  import opened Tags
  import opened Versions
  import opened WordLists
  import opened Frames
  import Headers

  const REQUEST_SIZE: nat := 1024
  const MESSAGE_SIZE: nat := 1012

  /** Byte where the nonce begins in a framed draft-08 request that announces one version. */
  const FRAMED_NONCE_OFFSET: nat := 40

  datatype Kind = Draft08 | Draft14 | Draft14Srv {

    function NumTags(): u32 {
      match this
      case Draft08 => 3
      case Draft14 => 4
      case Draft14Srv => 5
    }

    /** Where the values lie when one version is announced. */
    function FreshOffsets(): seq<u32> {
      match this
      case Draft08 => [4, 36]
      case Draft14 => [4, 36, 40]
      case Draft14Srv => [4, 36, 68, 72]
    }

    function TagList(): (tags: seq<Tag>)
      ensures |tags| == NumTags()
    {
      match this
      case Draft08 => [VER, NONC, ZZZZ]
      case Draft14 => [VER, NONC, TYPE, ZZZZ]
      case Draft14Srv => [VER, SRV, NONC, TYPE, ZZZZ]
    }

    function SrvSize(): nat { if this == Draft14Srv then 32 else 0 }

    function TypeSize(): nat { if this == Draft08 then 0 else 4 }

    function Padding(): nat {
      match this
      case Draft08 => 952
      case Draft14 => 940
      case Draft14Srv => 900
    }
  }

  /** The padding is always zero and never read back, so it is not part of the value; SRV is empty where there is none. */
  datatype Request = Request(kind: Kind, offsets: seq<u32>, ver: VersionList, srv: Bytes, nonc: Bytes32) {

    predicate Sized() {
      |offsets| == kind.NumTags() - 1 && |srv| == kind.SrvSize()
    }

    function Size(): nat {
      Headers.HeaderSize(kind.NumTags()) + (Quad(|ver|) + (kind.SrvSize() + (32 + (kind.TypeSize() + kind.Padding()))))
    }
  }

  function HeaderOf(kind: Kind, offsets: seq<u32>): Headers.Header {
    Headers.Header(offsets, kind.TagList())
  }

  function EncodeHead(kind: Kind, offsets: seq<u32>): (b: Bytes)
    requires |offsets| == kind.NumTags() - 1
    ensures |b| == Headers.HeaderSize(kind.NumTags())
  {
    Headers.EncodedLength(HeaderOf(kind, offsets), kind.NumTags());
    Headers.Encode(HeaderOf(kind, offsets))
  }

  function TypeBytes(kind: Kind): (b: Bytes)
    ensures |b| == kind.TypeSize()
  {
    if kind == Draft08 then [] else EncodeType(MessageType.Request)
  }

  function EncodeBody(r: Request): (b: Bytes)
    requires |r.srv| == r.kind.SrvSize()
    ensures |b| == Quad(|r.ver|) + (r.kind.SrvSize() + (32 + (r.kind.TypeSize() + r.kind.Padding())))
  {
    VersionsLength(r.ver);
    EncodeVersions(r.ver) + (r.srv + (r.nonc + (TypeBytes(r.kind) + Zeros(r.kind.Padding()))))
  }

  function Encode(r: Request): (b: Bytes)
    requires r.Sized()
    ensures |b| == r.Size()
  {
    EncodeHead(r.kind, r.offsets) + EncodeBody(r)
  }

  function TakeType(b: Bytes, kind: Kind): Parse<()> {
    if kind == Draft08 then Ok(((), b))
    else
      var (t, rest) :- DecodeType(b);
      if t != MessageType.Request then Err(InvalidMessageType(t.Number())) else Ok(((), rest))
  }

  function DecodeBody(b1: Bytes, kind: Kind, offsets: seq<u32>, versions: nat): Parse<Request>
    requires versions <= MAX_VERSIONS
  {
    var (ver, b2) :- DecodeVersions(b1, versions);
    var (srv, b3) :- Take(b2, kind.SrvSize());
    var (nonc, b4) :- Take(b3, 32);
    var (_, b5) :- TakeType(b4, kind);
    Ok((Request.Request(kind, offsets, ver, srv, nonc), b5))
  }

  function CheckHead(h: Headers.Header, kind: Kind, length: nat): Result<(), Error> {
    var _ :- Headers.CheckOffsetBounds(h.offsets, length);
    if h.tags != kind.TagList() then Err(UnexpectedTags) else Ok(())
  }

  function DecodeAs(b: Bytes, kind: Kind): Parse<Request> {
    var (h, body) :- Headers.Decode(b, kind.NumTags());
    Headers.DecodedFacts(b, kind.NumTags());
    var _ :- CheckHead(h, kind, |body|);
    DecodeBody(body, kind, h.offsets, VersionCount(h.offsets[0]))
  }

  function KindOf(numTags: u32): Result<Kind, Error> {
    if numTags == 3 then Ok(Draft08)
    else if numTags == 4 then Ok(Draft14)
    else if numTags == 5 then Ok(Draft14Srv)
    else Err(InvalidRequestNumTags(numTags))
  }

  /** Only messages of the one size are parsed; the number of tags is peeked at to tell the forms apart. */
  function Decode(b: Bytes): Parse<Request> {
    if |b| != MESSAGE_SIZE then Err(BadRequestSize(|b|))
    else
      var (numTags, _) :- TakeU32(b);
      var kind :- KindOf(numTags);
      DecodeAs(b, kind)
  }

  function ToFrame(r: Request): Bytes
    requires r.Sized()
  {
    SizeBound(r);
    Framed(Encode(r))
  }

  function FromFrame(b: Bytes): Parse<Request> {
    var message :- Unframe(b);
    Decode(message)
  }

  lemma SizeBound(r: Request)
    ensures r.Size() < 0x1000
  {
    var v := |r.ver|;
    assert v <= 32;
  }

  // ---- Constructors ----------------------------------------------------------------------------

  /** A request announces the one version of its draft. */
  function Fresh(kind: Kind, srv: Bytes, nonc: Bytes32): (r: Request)
    requires |srv| == kind.SrvSize()
    ensures r.Sized() && r.Size() == MESSAGE_SIZE
  {
    Request.Request(kind, kind.FreshOffsets(), [if kind.Draft08? then RfcDraft08 else RfcDraft14], srv, nonc)
  }

  function NewDraft08(nonc: Bytes32): Request { Fresh(Draft08, [], nonc) }

  function NewDraft14(nonc: Bytes32): Request { Fresh(Draft14, [], nonc) }

  function NewDraft14Srv(nonc: Bytes32, srv: Bytes32): Request { Fresh(Draft14Srv, srv, nonc) }

  // ---- Round trip ------------------------------------------------------------------------------

  lemma TagListsInOrder(kind: Kind)
    ensures Headers.TagsInOrder(kind.TagList())
  {
    Headers.TagsRise(kind.TagList());
  }

  lemma BodyParsePrinted(r: Request, versions: nat)
    requires |r.srv| == r.kind.SrvSize() && |r.ver| == versions && Ascending(r.ver)
    ensures DecodeBody(EncodeBody(r), r.kind, r.offsets, versions) == Ok((r, Zeros(r.kind.Padding())))
  {
    var b5 := Zeros(r.kind.Padding());
    var b4 := TypeBytes(r.kind) + b5;
    var b3 := r.nonc + b4;
    var b2 := r.srv + b3;
    VersionsParsePrinted(r.ver, versions, b2);
    TakeFront(r.srv, b3);
    TakeFront(r.nonc, b4);
    if r.kind == Draft08 {
      assert b4 == b5;
    } else {
      TypeRoundTrip(MessageType.Request, b5, []);
    }
  }

  /** Offsets in order and in bounds, versions ascending and as many as the first offset announces. */
  ghost predicate Coherent(r: Request) {
    && r.Sized()
    && Headers.OffsetsInOrder(r.offsets)
    && Headers.CheckOffsetBounds(r.offsets, |EncodeBody(r)|).Ok?
    && |r.ver| == VersionCount(r.offsets[0]) && Ascending(r.ver)
  }

  lemma PartsParsed(b: Bytes, kind: Kind, h: Headers.Header, body: Bytes, versions: nat, r: Request, rest: Bytes)
    requires Headers.Decode(b, kind.NumTags()) == Ok((h, body)) && CheckHead(h, kind, |body|) == Ok(())
    requires h.Sized(kind.NumTags()) && versions == VersionCount(h.offsets[0])
    requires DecodeBody(body, kind, h.offsets, versions) == Ok((r, rest))
    ensures r.Sized() && r.kind == kind && r.offsets == h.offsets
    ensures b == EncodeHead(kind, r.offsets) + body && Headers.OffsetsInOrder(r.offsets)
    ensures |r.ver| == versions && Ascending(r.ver)
    ensures NonceAt(body, Quad(|r.ver|) + kind.SrvSize()) == r.nonc
  {
    BodyParsed(body, kind, h.offsets, versions);
    assert h == HeaderOf(kind, r.offsets);
    Headers.PrintParsed(b, kind.NumTags());
  }

  function NonceAt(b: Bytes, start: nat): Bytes {
    if start + 32 <= |b| then b[start..start + 32] else []
  }

  lemma BodyParsed(b1: Bytes, kind: Kind, offsets: seq<u32>, versions: nat)
    requires versions <= MAX_VERSIONS && DecodeBody(b1, kind, offsets, versions).Ok?
    ensures var (r, rest) := DecodeBody(b1, kind, offsets, versions).value;
            && r.kind == kind && r.offsets == offsets && |r.srv| == kind.SrvSize()
            && |r.ver| == versions && Ascending(r.ver)
            && NonceAt(b1, Quad(|r.ver|) + kind.SrvSize()) == r.nonc
  {
    var (ver, b2) := DecodeVersions(b1, versions).value;
    var (srv, b3) := Take(b2, kind.SrvSize()).value;
    var (nonc, b4) := Take(b3, 32).value;
    VersionsPrintParsed(b1, versions);
    VersionsRest(b1, versions);
    NonceInMiddle(b1, Quad(versions), kind.SrvSize(), b2, b3);
  }

  lemma NonceInMiddle(b1: Bytes, x: nat, y: nat, b2: Bytes, b3: Bytes)
    requires x + y + 32 <= |b1| && b2 == b1[x..] && b3 == b2[y..]
    ensures NonceAt(b1, x + y) == b3[..32]
  {
  }

  /** A printed request is parsed back, unchanged, exactly when it has the one size and is coherent. */
  lemma ParsePrinted(r: Request)
    requires r.Sized()
    ensures Decode(Encode(r)) == Ok((r, Zeros(r.kind.Padding()))) <==> r.Size() == MESSAGE_SIZE && Coherent(r)
  {
    var b, h, body := Encode(r), HeaderOf(r.kind, r.offsets), EncodeBody(r);
    Headers.CountInFront(h, body);
    Headers.ParsePrinted(h, r.kind.NumTags(), body);
    TagListsInOrder(r.kind);
    if Coherent(r) {
      BodyParsePrinted(r, VersionCount(r.offsets[0]));
    }
    if Decode(b).Ok? {
      Headers.DecodedFacts(b, r.kind.NumTags());
      var (r', rest) := Decode(b).value;
      PartsParsed(b, r.kind, h, body, VersionCount(h.offsets[0]), r', rest);
    }
  }

  /**
    Each constructor prints to one full frame, which parses back to the same form with equal fields;
    the forms are never confused.
  */
  lemma FreshRoundTrip(kind: Kind, srv: Bytes, nonc: Bytes32)
    requires |srv| == kind.SrvSize()
    ensures var r := Fresh(kind, srv, nonc);
            && |ToFrame(r)| == REQUEST_SIZE
            && FromFrame(ToFrame(r)) == Ok((r, Zeros(kind.Padding())))
  {
    var r := Fresh(kind, srv, nonc);
    FreshCoherent(kind, srv, nonc);
    ParsePrinted(r);
    UnframeFramed(Encode(r));
  }

  lemma FreshOffsetsInOrder(kind: Kind)
    ensures Headers.OffsetsInOrder(kind.FreshOffsets())
  {
    Headers.OffsetsRise(kind.FreshOffsets());
  }

  lemma FreshCoherent(kind: Kind, srv: Bytes, nonc: Bytes32)
    requires |srv| == kind.SrvSize()
    ensures Coherent(Fresh(kind, srv, nonc))
  {
    var r := Fresh(kind, srv, nonc);
    FreshOffsetsInOrder(kind);
    Headers.BoundsMeanLast(r.offsets, |EncodeBody(r)|, 0);
  }

  lemma NonceInMessage(message: Bytes, r: Request, rest: Bytes)
    requires Decode(message) == Ok((r, rest))
    ensures |message| == MESSAGE_SIZE
    ensures NonceAt(message, Headers.HeaderSize(r.kind.NumTags()) + Quad(|r.ver|) + r.kind.SrvSize()) == r.nonc
  {
    var kind := KindOf(TakeU32(message).value.0).value;
    var (h, body) := Headers.Decode(message, kind.NumTags()).value;
    Headers.DecodedFacts(message, kind.NumTags());
    PartsParsed(message, kind, h, body, VersionCount(h.offsets[0]), r, rest);
    BodyBehindHead(message, EncodeHead(kind, r.offsets), body, Quad(|r.ver|) + kind.SrvSize());
  }

  lemma BodyBehindHead(message: Bytes, head: Bytes, body: Bytes, start: nat)
    requires message == head + body && |NonceAt(body, start)| == 32
    ensures NonceAt(message, |head| + start) == NonceAt(body, start)
  {
  }

  /** Where the nonce of a parsed request lies in the frame that was received. */
  lemma NonceInFrame(b: Bytes, r: Request, rest: Bytes)
    requires FromFrame(b) == Ok((r, rest))
    ensures |b| == REQUEST_SIZE
    ensures NonceAt(b, FRAME_OVERHEAD + (Headers.HeaderSize(r.kind.NumTags()) + Quad(|r.ver|) + r.kind.SrvSize())) == r.nonc
  {
    var message := Unframe(b).value;
    FrameUnframed(b);
    NonceInMessage(message, r, rest);
    BodyBehindHead(b, b[..FRAME_OVERHEAD], message, Headers.HeaderSize(r.kind.NumTags()) + Quad(|r.ver|) + r.kind.SrvSize());
  }

  // ---- A draft-08 request with two versions ----------------------------------------------------

  const BOTH_VERSIONS: VersionList := [RfcDraft08, RfcDraft14]

  const SHIFTED_OFFSETS: seq<u32> := [8, 40]

  function TwoVersions(nonc: Bytes32): Request {
    Request.Request(Draft08, SHIFTED_OFFSETS, BOTH_VERSIONS, [], nonc)
  }

  /** The second version takes four bytes of the padding. */
  function TwoVersionsBody(nonc: Bytes32): (b: Bytes)
    ensures |b| == 988
  {
    VersionsLength(BOTH_VERSIONS);
    EncodeVersions(BOTH_VERSIONS) + (nonc + Zeros(948))
  }

  function TwoVersionsMessage(nonc: Bytes32): (b: Bytes)
    ensures |b| == MESSAGE_SIZE
  {
    EncodeHead(Draft08, SHIFTED_OFFSETS) + TwoVersionsBody(nonc)
  }

  lemma ShiftedInOrder()
    ensures Headers.OffsetsInOrder(SHIFTED_OFFSETS)
  {
    Headers.OffsetsRise(SHIFTED_OFFSETS);
  }

  lemma ShiftedInBounds()
    ensures Headers.CheckOffsetBounds(SHIFTED_OFFSETS, 988).Ok?
  {
    ShiftedInOrder();
    Headers.BoundsMeanLast(SHIFTED_OFFSETS, 988, 0);
  }

  lemma HeadParses(kind: Kind, offsets: seq<u32>, body: Bytes)
    requires |offsets| == kind.NumTags() - 1 && Headers.OffsetsInOrder(offsets)
    requires Headers.CheckOffsetBounds(offsets, |body|).Ok?
    ensures var h := HeaderOf(kind, offsets);
            Headers.Decode(EncodeHead(kind, offsets) + body, kind.NumTags()) == Ok((h, body)) && CheckHead(h, kind, |body|) == Ok(())
  {
    var h := HeaderOf(kind, offsets);
    TagListsInOrder(kind);
    Headers.ParsePrinted(h, kind.NumTags(), body);
  }

  /** It is accepted, with its nonce. */
  lemma TwoVersionsParsed(nonc: Bytes32)
    ensures FromFrame(Framed(TwoVersionsMessage(nonc))) == Ok((TwoVersions(nonc), Zeros(948)))
  {
    var message, body := TwoVersionsMessage(nonc), TwoVersionsBody(nonc);
    ShiftedInOrder();
    ShiftedInBounds();
    HeadParses(Draft08, SHIFTED_OFFSETS, body);
    Headers.CountInFront(HeaderOf(Draft08, SHIFTED_OFFSETS), body);
    VersionsParsePrinted(BOTH_VERSIONS, 2, nonc + Zeros(948));
    TakeFront(nonc, Zeros(948));
    UnframeFramed(message);
  }

  lemma SecondVersionFirstByte()
    ensures |EncodeVersions(BOTH_VERSIONS)| == 8 && EncodeVersions(BOTH_VERSIONS)[4] == 0x0c
  {
    var words := Numbers(BOTH_VERSIONS);
    VersionsLength(BOTH_VERSIONS);
    assert words[1..][0] == 0x8000000c;
    assert Print(VERSIONS, words) == VERSIONS.put(words[0]) + Print(VERSIONS, words[1..]);
    assert Print(VERSIONS, words[1..])[0] == LE(0x8000000c, 4)[0] == 0x0c;
  }

  /** Where the client looks for the nonce there is the second version. */
  lemma TwoVersionsMisplace(nonc: Bytes32)
    ensures var b := Framed(TwoVersionsMessage(nonc));
            |b| == REQUEST_SIZE && |NonceAt(b, FRAMED_NONCE_OFFSET)| == 32 && NonceAt(b, FRAMED_NONCE_OFFSET)[0] == 0x0c
  {
    var head, message := EncodeHead(Draft08, SHIFTED_OFFSETS), TwoVersionsMessage(nonc);
    var b := Framed(message);
    SecondVersionFirstByte();
    FrameExact(b, MESSAGE_SIZE, message);
    assert |head| == 24;
    assert b[40] == message[28] == TwoVersionsBody(nonc)[4];
  }

  // ---- The cursor methods ----------------------------------------------------------------------

  method FromWire(cursor: ParseCursor) returns (r: Result<Request, Error>)
    requires cursor.Valid()
    modifies cursor`position
    ensures cursor.Valid() && Agrees(Decode(old(cursor.Tail())), r, cursor.Tail())
  {
    assert cursor.Remaining() == |cursor.Tail()|;
    if cursor.Remaining() != MESSAGE_SIZE {
      return Err(BadRequestSize(cursor.Remaining()));
    }
    var savedPos := cursor.position;
    ghost var start := cursor.Tail();
    var numTags := PeekTags(cursor);
    cursor.SetPosition(savedPos);
    assert cursor.Tail() == start;
    var kind :- KindOf(numTags);
    r := FromWireAs(kind, cursor);
  }

  method PeekTags(cursor: ParseCursor) returns (numTags: u32)
    requires cursor.Valid() && 4 <= cursor.Remaining()
    modifies cursor`position
    ensures cursor.Valid() && TakeU32(old(cursor.Tail())) == Ok((numTags, cursor.Tail()))
  {
    var got := cursor.TryGetU32();
    numTags := got.value;
  }

  /** The three parsers differ in the tags they expect and in the values they read. */
  method FromWireAs(kind: Kind, cursor: ParseCursor) returns (r: Result<Request, Error>)
    requires cursor.Valid()
    modifies cursor`position
    ensures cursor.Valid() && Agrees(DecodeAs(old(cursor.Tail()), kind), r, cursor.Tail())
  {
    Headers.DecodedFacts(cursor.Tail(), kind.NumTags());
    var h :- Headers.FromWire(kind.NumTags(), cursor);
    assert cursor.Remaining() == |cursor.Tail()|;
    var _ :- CheckHead(h, kind, cursor.Remaining());
    assert Headers.Aligned(h.offsets[0]);
    r := BodyFromWire(kind, h.offsets, cursor);
  }

  method BodyFromWire(kind: Kind, offsets: seq<u32>, cursor: ParseCursor) returns (r: Result<Request, Error>)
    requires cursor.Valid() && offsets != [] && Headers.Aligned(offsets[0])
    modifies cursor`position
    ensures cursor.Valid() && Agrees(DecodeBody(old(cursor.Tail()), kind, offsets, VersionCount(offsets[0])), r, cursor.Tail())
  {
    var ver :- GetVersions(offsets[0], cursor);
    var srv :- cursor.TryGetFixed(kind.SrvSize());
    var nonc :- cursor.TryGetFixed(32);
    if kind != Draft08 {
      var msgType :- GetType(cursor);
      if msgType != MessageType.Request {
        return Err(InvalidMessageType(msgType.Number()));
      }
    }
    return Ok(Request.Request(kind, offsets, ver, srv, nonc));
  }

  method ToWire(r: Request, cursor: ParseCursor) returns (done: Result<(), Error>)
    requires r.Sized() && cursor.Valid()
    modifies cursor`position, cursor.buf
    ensures cursor.Valid() && cursor.Outside() == old(cursor.Outside())
    ensures done.Ok? <==> r.Size() <= old(cursor.Remaining())
    ensures done.Ok? ==> cursor.Written() == old(cursor.Written()) + Encode(r)
    ensures done.Ok? ==> cursor.Remaining() == old(cursor.Remaining()) - r.Size()
    ensures done.Err? ==> done.error == BufferTooSmall(r.Size(), old(cursor.Remaining()))
    ensures done.Err? ==> cursor.Written() == old(cursor.Written())
  {
    if cursor.Remaining() < r.Size() {
      return Err(BufferTooSmall(r.Size(), cursor.Remaining()));
    }
    ghost var written := cursor.Written();
    var head := Headers.ToWire(HeaderOf(r.kind, r.offsets), r.kind.NumTags(), cursor);
    PutVersions(r.ver, cursor);
    cursor.PutSlice(r.srv);
    cursor.PutSlice(r.nonc);
    cursor.PutSlice(TypeBytes(r.kind));
    cursor.PutSlice(Zeros(r.kind.Padding()));
    Onto6(written, EncodeHead(r.kind, r.offsets), EncodeVersions(r.ver), r.srv, r.nonc, TypeBytes(r.kind), Zeros(r.kind.Padding()));
    return Ok(());
  }

  method ReadFrame(cursor: ParseCursor) returns (r: Result<Request, Error>)
    requires cursor.Valid()
    modifies cursor`position
    ensures cursor.Valid() && Agrees(FromFrame(old(cursor.Tail())), r, cursor.Tail())
  {
    var _ :- FrameHeadFromWire(cursor);
    r := FromWire(cursor);
  }

  method AsFrameBytes(r: Request) returns (b: Bytes)
    requires r.Sized()
    ensures b == ToFrame(r)
  {
    SizeBound(r);
    var buf := new byte[FRAME_OVERHEAD + r.Size()](_ => 0);
    var cursor := new ParseCursor(buf, 0, buf.Length);
    var head := FrameHeadToWire(r.Size(), cursor);
    var done := ToWire(r, cursor);
    Onto3([], BE(FRAME_MAGIC, 8), LE(r.Size(), 4), Encode(r));
    assert [] + BE(FRAME_MAGIC, 8) == BE(FRAME_MAGIC, 8);
    assert cursor.Written() == buf[..];
    b := buf[..];
  }
}
