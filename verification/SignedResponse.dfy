/** Signed responses: the time, its uncertainty and the Merkle root, in both drafts. */
module SignedResponses {
  import opened Wrappers
  import opened Primitives
  import opened Cursors
  import opened Tags
  import opened Versions
  import opened WordLists
  import Headers

  const SREP_TAGS: seq<Tag> := [VER, RADI, MIDP, VERS, ROOT]
  const FIXED_OFFSETS: seq<u32> := [4, 8, 16]
  const VERS_OFFSET: u32 := 16
  const DEFAULT_RADI_SECONDS: u32 := 5

  /** Only the last of the header's four offsets, the one of ROOT, varies; it is 0 until versions are set. */
  datatype SignedResponse = SignedResponse(
    ver: ProtocolVersion, radi: u32, midp: u64, vers: VersionList, root: Bytes32, rootOffset: u32)
  {
    function SetVers(versions: VersionList): SignedResponse {
      this.(vers := versions, rootOffset := VERS_OFFSET + Quad(|versions|))
    }

    function Size(): nat { 88 + Quad(|vers|) }
  }

  const DEFAULT_SREP: SignedResponse := SignedResponse(RfcDraft14, 0, 0, [], Zeros(32), 0)

  function SrepHeader(rootOffset: u32): Headers.Header {
    Headers.Header([4, 8, 16, rootOffset], SREP_TAGS)
  }

  function EncodeHead(rootOffset: u32): (b: Bytes)
    ensures |b| == 40
  {
    Headers.EncodedLength(SrepHeader(rootOffset), 5);
    Headers.Encode(SrepHeader(rootOffset))
  }

  function EncodeBody(s: SignedResponse): (b: Bytes)
    ensures |b| == 48 + Quad(|s.vers|)
  {
    VersionsLength(s.vers);
    EncodeVersion(s.ver) + (LE(s.radi, 4) + (LE(s.midp, 8) + (EncodeVersions(s.vers) + s.root)))
  }

  function Encode(s: SignedResponse): (b: Bytes)
    ensures |b| == s.Size()
  {
    EncodeHead(s.rootOffset) + EncodeBody(s)
  }

  /** All the checks of a parsed header; what varies in it is the offset of ROOT. */
  function CheckHead(h: Headers.Header, length: nat): (r: Result<u32, Error>)
    requires h.Sized(5) && Headers.OffsetsInOrder(h.offsets)
    ensures r.Ok? ==> r.value > VERS_OFFSET
  {
    var _ :- Headers.CheckOffsetBounds(h.offsets, length);
    if h.tags != SREP_TAGS then Err(UnexpectedTags)
    else if h.offsets[..3] != FIXED_OFFSETS then Err(UnexpectedOffsets)
    else if h.offsets[2] == h.offsets[3] then Err(NoSupportedVersions)
    else assert Headers.OffsetOrder(h.offsets[2], h.offsets[3]); Ok(h.offsets[3])
  }

  function DecodeHead(b: Bytes): (r: Parse<u32>)
    ensures r.Ok? ==> r.value.0 > VERS_OFFSET
  {
    var (h, body) :- Headers.Decode(b, 5);
    Headers.DecodedFacts(b, 5);
    var rootOffset :- CheckHead(h, |body|);
    Ok((rootOffset, body))
  }

  function DecodeBody(b1: Bytes, rootOffset: u32): Parse<SignedResponse>
    requires rootOffset > VERS_OFFSET
  {
    var (ver, b2) :- DecodeVersion(b1);
    var (radi, b3) :- TakeU32(b2);
    var (midp, b4) :- TakeU64(b3);
    var (vers, b5) :- DecodeVersions(b4, VersionCount(rootOffset - VERS_OFFSET));
    var (root, b6) :- Take(b5, 32);
    Ok((SignedResponse(ver, radi, midp, vers, root, rootOffset), b6))
  }

  function Decode(b: Bytes): Parse<SignedResponse> {
    var (rootOffset, body) :- DecodeHead(b);
    DecodeBody(body, rootOffset)
  }

  // ---- Parse after print, print after parse ----------------------------------------------------

  predicate HeadFits(rootOffset: u32, length: nat) {
    Headers.Aligned(rootOffset) && VERS_OFFSET < rootOffset <= length % 0x1_0000_0000
  }

  lemma HeadTagsInOrder()
    ensures Headers.TagsInOrder(SREP_TAGS)
  {
    Headers.TagsRise(SREP_TAGS);
  }

  lemma HeadOffsetsInOrder(rootOffset: u32)
    ensures Headers.OffsetsInOrder([4, 8, 16, rootOffset]) <==> Headers.Aligned(rootOffset) && 16 <= rootOffset
  {
    var offsets: seq<u32> := [4, 8, 16, rootOffset];
    Headers.OffsetsRise(offsets);
    assert offsets[2] == 16 && offsets[3] == rootOffset;
  }

  /** The header passes its checks exactly when it is the fixed one, with a fitting offset of ROOT. */
  lemma CheckHeadExact(h: Headers.Header, length: nat, rootOffset: u32)
    requires h.Sized(5) && Headers.OffsetsInOrder(h.offsets)
    ensures CheckHead(h, length) == Ok(rootOffset) <==> h == SrepHeader(rootOffset) && HeadFits(rootOffset, length)
  {
    Headers.BoundsMeanLast(h.offsets, length, 0);
    assert h.offsets == h.offsets[..3] + [h.offsets[3]];
    HeadTagsInOrder();
    HeadOffsetsInOrder(h.offsets[3]);
  }

  lemma HeadParsePrinted(rootOffset: u32, body: Bytes)
    ensures var r := DecodeHead(EncodeHead(rootOffset) + body);
            if HeadFits(rootOffset, |body|) then r == Ok((rootOffset, body)) else r.Err?
  {
    var h := SrepHeader(rootOffset);
    HeadTagsInOrder();
    HeadOffsetsInOrder(rootOffset);
    Headers.ParsePrinted(h, 5, body);
    if Headers.OffsetsInOrder(h.offsets) {
      CheckHeadExact(h, |body|, rootOffset);
      if CheckHead(h, |body|).Ok? {
        CheckHeadExact(h, |body|, CheckHead(h, |body|).value);
      }
    }
  }

  lemma HeadPrintParsed(b: Bytes)
    requires DecodeHead(b).Ok?
    ensures var (rootOffset, body) := DecodeHead(b).value;
            HeadFits(rootOffset, |body|) && b == EncodeHead(rootOffset) + body
  {
    var (rootOffset, body) := DecodeHead(b).value;
    Headers.PrintParsed(b, 5);
    CheckHeadExact(Headers.Decode(b, 5).value.0, |body|, rootOffset);
  }

  lemma BodyParsePrinted(s: SignedResponse, count: nat, rest: Bytes)
    requires s.rootOffset > VERS_OFFSET && count == VersionCount(s.rootOffset - VERS_OFFSET)
    requires |s.vers| == count && Ascending(s.vers)
    ensures DecodeBody(EncodeBody(s) + rest, s.rootOffset) == Ok((s, rest))
  {
    var b5 := s.root + rest;
    var b4 := EncodeVersions(s.vers) + b5;
    var b3 := LE(s.midp, 8) + b4;
    var b2 := LE(s.radi, 4) + b3;
    Follow5(EncodeVersion(s.ver), LE(s.radi, 4), LE(s.midp, 8), EncodeVersions(s.vers), s.root, rest);
    VersionParsePrinted(s.ver, b2);
    TakeFrontU32(s.radi, b3);
    TakeFrontU64(s.midp, b4);
    VersionsParsePrinted(s.vers, count, b5);
    TakeFront(s.root, rest);
  }

  /** None of the version words in a message body is the legacy zero. */
  predicate BodyLegacyFree(b1: Bytes, rootOffset: u32)
    requires |b1| >= 16 && rootOffset > VERS_OFFSET
  {
    TakeU32(b1).value.0 != 0 && 0 !in VersionWords(b1[4..][4..][8..], VersionCount(rootOffset - VERS_OFFSET))
  }

  predicate LegacyFree(b: Bytes)
    requires Decode(b).Ok?
  {
    var (rootOffset, body) := DecodeHead(b).value;
    BodyLegacyFree(body, rootOffset)
  }

  lemma BodyPrintParsed(b1: Bytes, rootOffset: u32, count: nat)
    requires rootOffset > VERS_OFFSET && count == VersionCount(rootOffset - VERS_OFFSET)
    requires DecodeBody(b1, rootOffset).Ok?
    ensures var (s, rest) := DecodeBody(b1, rootOffset).value;
            && s.rootOffset == rootOffset && |s.vers| == count && Ascending(s.vers)
            && |b1| == 48 + Quad(count) + |rest|
            && (b1 == EncodeBody(s) + rest <==> BodyLegacyFree(b1, rootOffset))
  {
    var (s, rest) := DecodeBody(b1, rootOffset).value;
    VersionPrintParsed(b1);
    var b2 := b1[4..];
    var b3 := TakeU32(b2).value.1;
    var b4 := TakeU64(b3).value.1;
    var b5 := DecodeVersions(b4, count).value.1;
    VersionsPrintParsed(b4, count);
    assert b2 == LE(s.radi, 4) + b3 by { WordsReprint(b2); }
    assert b3 == LE(s.midp, 8) + b4 by { WordsReprint(b3); }
    assert b5 == s.root + rest;
    BodySplit(s, b1, b2, b3, b4, b5, rest);
  }

  lemma BodySplit(s: SignedResponse, b1: Bytes, b2: Bytes, b3: Bytes, b4: Bytes, b5: Bytes, rest: Bytes)
    requires |b1| >= 4 && b2 == b1[4..] && b2 == LE(s.radi, 4) + b3 && b3 == LE(s.midp, 8) + b4 && b5 == s.root + rest
    ensures b1 == EncodeBody(s) + rest <==> b1 == EncodeVersion(s.ver) + b2 && b4 == EncodeVersions(s.vers) + b5
  {
    var v, r, m, vs := EncodeVersion(s.ver), LE(s.radi, 4), LE(s.midp, 8), EncodeVersions(s.vers);
    Follow5(v, r, m, vs, s.root, rest);
    var t1 := r + (m + (vs + b5));
    assert EncodeBody(s) + rest == v + t1;
    assert (v + t1)[4..] == t1;
    SameFront(v, t1, b2);
    SameFront(r, m + (vs + b5), b3);
    SameFront(m, vs + b5, b4);
  }

  /** What makes a signed response come back from its printed form, followed by `extra` more bytes. */
  ghost predicate Coherent(s: SignedResponse, extra: nat) {
    && HeadFits(s.rootOffset, 48 + Quad(|s.vers|) + extra)
    && |s.vers| == VersionCount(s.rootOffset - VERS_OFFSET)
    && Ascending(s.vers)
  }

  lemma HeadAndBody(s: SignedResponse, rootOffset: u32, body: Bytes, b: Bytes, rest: Bytes)
    requires b == EncodeHead(rootOffset) + body && |body| == 48 + Quad(|s.vers|) + |rest| && s.rootOffset == rootOffset
    ensures |b| == s.Size() + |rest|
    ensures b == Encode(s) + rest <==> body == EncodeBody(s) + rest
  {
    Follow2(EncodeHead(rootOffset), EncodeBody(s), rest);
    SameFront(EncodeHead(rootOffset), EncodeBody(s) + rest, body);
  }

  lemma CoherentParts(s: SignedResponse, length: nat, count: nat, extra: nat)
    requires HeadFits(s.rootOffset, length) && length == 48 + Quad(count) + extra
    requires |s.vers| == count == VersionCount(s.rootOffset - VERS_OFFSET) && Ascending(s.vers)
    ensures Coherent(s, extra)
  {
  }

  lemma PartsPrintParsed(b: Bytes, rootOffset: u32, body: Bytes, s: SignedResponse, rest: Bytes)
    requires DecodeHead(b) == Ok((rootOffset, body)) && DecodeBody(body, rootOffset) == Ok((s, rest))
    ensures Coherent(s, |rest|) && |b| == s.Size() + |rest| && |body| >= 16
    ensures b == Encode(s) + rest <==> BodyLegacyFree(body, rootOffset)
  {
    var count := VersionCount(rootOffset - VERS_OFFSET);
    HeadPrintParsed(b);
    BodyPrintParsed(body, rootOffset, count);
    CoherentParts(s, |body|, count, |rest|);
    HeadAndBody(s, rootOffset, body, b, rest);
  }

  /** Whatever a parse accepts is coherent; it reprints to the bytes read, except for legacy version numbers. */
  lemma PrintParsed(b: Bytes)
    requires Decode(b).Ok?
    ensures var (s, rest) := Decode(b).value;
            && Coherent(s, |rest|) && |b| == s.Size() + |rest|
            && (b == Encode(s) + rest <==> LegacyFree(b))
  {
    var (rootOffset, body) := DecodeHead(b).value;
    var (s, rest) := DecodeBody(body, rootOffset).value;
    PartsPrintParsed(b, rootOffset, body, s, rest);
  }

  /** A printed signed response is parsed back, unchanged, exactly when it is coherent. */
  lemma ParsePrinted(s: SignedResponse, rest: Bytes)
    ensures Decode(Encode(s) + rest) == Ok((s, rest)) <==> Coherent(s, |rest|)
  {
    var body := EncodeBody(s) + rest;
    Follow2(EncodeHead(s.rootOffset), EncodeBody(s), rest);
    HeadParsePrinted(s.rootOffset, body);
    if Coherent(s, |rest|) {
      BodyParsePrinted(s, VersionCount(s.rootOffset - VERS_OFFSET), rest);
    }
    if Decode(Encode(s) + rest) == Ok((s, rest)) {
      PrintParsed(Encode(s) + rest);
    }
  }

  /** If a signed response that was once parsed parses again from its printed form, it is coherent there. */
  lemma ReparsedIsCoherent(s: SignedResponse, extra: nat, rest: Bytes)
    requires Coherent(s, extra) && Decode(Encode(s) + rest).Ok?
    ensures Coherent(s, |rest|)
  {
    var body := EncodeBody(s) + rest;
    Follow2(EncodeHead(s.rootOffset), EncodeBody(s), rest);
    HeadParsePrinted(s.rootOffset, body);
    assert |body| == 48 + Quad(|s.vers|) + |rest|;
  }

  /** With less behind it, a coherent signed response stays so when its ROOT offset stays within what is there. */
  lemma Contained(s: SignedResponse, extra: nat, less: nat)
    requires Coherent(s, extra) && less < 0x1000
    ensures Coherent(s, less) <==> s.rootOffset <= 48 + Quad(|s.vers|) + less
  {
    SmallLength(|s.vers|, less);
  }

  lemma SmallLength(v: nat, less: nat)
    requires v <= 32 && less < 0x1000
    ensures (48 + Quad(v) + less) % 0x1_0000_0000 == 48 + Quad(v) + less
  {
  }

  /** Setting 1 to 32 ascending versions makes a signed response coherent, whatever is set before or after. */
  lemma SetVersCoherent(s: SignedResponse, vs: VersionList, extra: nat)
    requires vs != [] && Ascending(vs) && extra < 0x1000
    ensures Coherent(s.SetVers(vs), extra)
  {
  }

  // ---- The cursor methods ----------------------------------------------------------------------

  method FromWire(cursor: ParseCursor) returns (r: Result<SignedResponse, Error>)
    requires cursor.Valid()
    modifies cursor`position
    ensures cursor.Valid() && Agrees(Decode(old(cursor.Tail())), r, cursor.Tail())
  {
    var rootOffset :- HeadFromWire(cursor);
    r := BodyFromWire(rootOffset, cursor);
  }

  method HeadFromWire(cursor: ParseCursor) returns (r: Result<u32, Error>)
    requires cursor.Valid()
    modifies cursor`position
    ensures cursor.Valid() && Agrees(DecodeHead(old(cursor.Tail())), r, cursor.Tail())
    ensures r.Ok? ==> r.value > VERS_OFFSET && Headers.Aligned(r.value)
  {
    ghost var start := cursor.Tail();
    Headers.DecodedFacts(start, 5);
    var h :- Headers.FromWire(5, cursor);
    assert cursor.Remaining() == |cursor.Tail()|;
    r := CheckHead(h, cursor.Remaining());
    if r.Ok? {
      CheckHeadExact(h, cursor.Remaining(), r.value);
    }
  }

  lemma AlignedDifference(rootOffset: u32, n: nat)
    requires Headers.Aligned(rootOffset) && n == rootOffset - VERS_OFFSET
    ensures n % 4 == 0
  {
  }

  method VersFromWire(rootOffset: u32, cursor: ParseCursor) returns (r: Result<VersionList, Error>)
    requires cursor.Valid() && rootOffset > VERS_OFFSET && Headers.Aligned(rootOffset)
    modifies cursor`position
    ensures cursor.Valid() && Agrees(DecodeVersions(old(cursor.Tail()), VersionCount(rootOffset - VERS_OFFSET)), r, cursor.Tail())
  {
    AlignedDifference(rootOffset, rootOffset - VERS_OFFSET);
    r := GetVersions(rootOffset - VERS_OFFSET, cursor);
  }

  method BodyFromWire(rootOffset: u32, cursor: ParseCursor) returns (r: Result<SignedResponse, Error>)
    requires cursor.Valid() && rootOffset > VERS_OFFSET && Headers.Aligned(rootOffset)
    modifies cursor`position
    ensures cursor.Valid() && Agrees(DecodeBody(old(cursor.Tail()), rootOffset), r, cursor.Tail())
  {
    var ver :- GetVersion(cursor);
    var radi :- cursor.TryGetU32();
    var midp :- cursor.TryGetU64();
    var vers :- VersFromWire(rootOffset, cursor);
    var root :- cursor.TryGetFixed(32);
    return Ok(SignedResponse(ver, radi, midp, vers, root, rootOffset));
  }

  /** What comes of printing into a given room; the puts of words panic in the source where they are cut off. */
  function Room(s: SignedResponse, room: nat): Result<(), Error> {
    if room < Headers.HeaderSize(5) then Err(BufferTooSmall(Headers.HeaderSize(5), room))
    else if 56 + Quad(|s.vers|) <= room < s.Size() then Err(BufferTooSmall(32, room - (56 + Quad(|s.vers|))))
    else Ok(())
  }

  function Stop(s: SignedResponse, room: nat): (n: nat)
    ensures Room(s, room).Ok? ==> n == s.Size()
    ensures n <= s.Size()
  {
    if room < 40 then 0
    else if 56 + Quad(|s.vers|) <= room < s.Size() then 56 + Quad(|s.vers|)
    else s.Size()
  }

  predicate PutsFit(s: SignedResponse, room: nat) {
    Room(s, room).Ok? ==> s.Size() <= room
  }

  method ToWire(s: SignedResponse, cursor: ParseCursor) returns (r: Result<(), Error>)
    requires cursor.Valid() && PutsFit(s, cursor.Remaining())
    modifies cursor`position, cursor.buf
    ensures cursor.Valid() && cursor.Outside() == old(cursor.Outside())
    ensures r == Room(s, old(cursor.Remaining()))
    ensures cursor.Written() <= old(cursor.Written()) + Encode(s)
    ensures cursor.Remaining() == old(cursor.Remaining()) - Stop(s, old(cursor.Remaining()))
    ensures r.Ok? ==> cursor.Written() == old(cursor.Written()) + Encode(s)
  {
    ghost var written := cursor.Written();
    PiecesBegin(written, s);
    var _ :- Headers.ToWire(SrepHeader(s.rootOffset), 5, cursor);
    cursor.PutSlice(EncodeVersion(s.ver));
    cursor.PutSlice(LE(s.radi, 4));
    cursor.PutSlice(LE(s.midp, 8));
    PutVersions(s.vers, cursor);
    assert cursor.Written() == FrontOf(written, s);
    assert cursor.Remaining() == old(cursor.Remaining()) - (56 + Quad(|s.vers|));
    var _ :- cursor.TryPutFixed(s.root);
    return Ok(());
  }

  /** Everything in front of ROOT, behind what was written before. */
  ghost function FrontOf(w: Bytes, s: SignedResponse): Bytes {
    w + EncodeHead(s.rootOffset) + EncodeVersion(s.ver) + LE(s.radi, 4) + LE(s.midp, 8) + EncodeVersions(s.vers)
  }

  lemma PiecesBegin(w: Bytes, s: SignedResponse)
    ensures w <= w + Encode(s) && FrontOf(w, s) <= w + Encode(s) && FrontOf(w, s) + s.root == w + Encode(s)
  {
    Begins(w, EncodeHead(s.rootOffset), EncodeBody(s));
    Onto6(w, EncodeHead(s.rootOffset), EncodeVersion(s.ver), LE(s.radi, 4), LE(s.midp, 8), EncodeVersions(s.vers), s.root);
  }
}

/** Signed responses of draft-08: no version and no version list. */
module LegacySignedResponses {
  import opened Wrappers
  import opened Primitives
  import opened Cursors
  import opened Tags
  import opened Versions
  import Headers
  import SignedResponses

  const SREP_TAGS: seq<Tag> := [RADI, MIDP, ROOT]
  const SIZE: nat := 68

  /** The two offsets of the header are kept as they were parsed. */
  datatype SignedResponse = SignedResponse(radi: u32, midp: u64, root: Bytes32, midpOffset: u32, rootOffset: u32) {

    /** Conversion to the form of the later draft. */
    function Converted(): SignedResponses.SignedResponse {
      SignedResponses.DEFAULT_SREP.(ver := RfcDraft08, radi := radi, midp := midp).SetVers([RfcDraft08]).(root := root)
    }
  }

  const DEFAULT_SREP: SignedResponse := SignedResponse(0, 0, Zeros(32), 4, 12)

  function SrepHeader(midpOffset: u32, rootOffset: u32): Headers.Header {
    Headers.Header([midpOffset, rootOffset], SREP_TAGS)
  }

  function EncodeBody(s: SignedResponse): (b: Bytes)
    ensures |b| == 44
  {
    LE(s.radi, 4) + (LE(s.midp, 8) + s.root)
  }

  function EncodeHead(midpOffset: u32, rootOffset: u32): (b: Bytes)
    ensures |b| == 24
  {
    Headers.EncodedLength(SrepHeader(midpOffset, rootOffset), 3);
    Headers.Encode(SrepHeader(midpOffset, rootOffset))
  }

  function Encode(s: SignedResponse): (b: Bytes)
    ensures |b| == SIZE
  {
    EncodeHead(s.midpOffset, s.rootOffset) + EncodeBody(s)
  }

  function DecodeBody(b1: Bytes, midpOffset: u32, rootOffset: u32): Parse<SignedResponse> {
    var (radi, b2) :- TakeU32(b1);
    var (midp, b3) :- TakeU64(b2);
    var (root, b4) :- Take(b3, 32);
    Ok((SignedResponse(radi, midp, root, midpOffset, rootOffset), b4))
  }

  /** The header's offsets are bounded by the rest of the buffer, but not compared with the layout. */
  function CheckHead(h: Headers.Header, length: nat): Result<(), Error> {
    var _ :- Headers.CheckOffsetBounds(h.offsets, length);
    if h.tags != SREP_TAGS then Err(UnexpectedTags) else Ok(())
  }

  function Decode(b: Bytes): Parse<SignedResponse> {
    var (h, body) :- Headers.Decode(b, 3);
    Headers.DecodedFacts(b, 3);
    var _ :- CheckHead(h, |body|);
    DecodeBody(body, h.offsets[0], h.offsets[1])
  }

  predicate HeadFits(midpOffset: u32, rootOffset: u32, length: nat) {
    Headers.Aligned(midpOffset) && Headers.Aligned(rootOffset) && midpOffset <= rootOffset <= length % 0x1_0000_0000
  }

  predicate Coherent(s: SignedResponse, extra: nat) {
    HeadFits(s.midpOffset, s.rootOffset, 44 + extra)
  }

  lemma BodyRoundTrip(s: SignedResponse, rest: Bytes)
    ensures DecodeBody(EncodeBody(s) + rest, s.midpOffset, s.rootOffset) == Ok((s, rest))
  {
    var b3 := s.root + rest;
    var b2 := LE(s.midp, 8) + b3;
    Follow3(LE(s.radi, 4), LE(s.midp, 8), s.root, rest);
    TakeFrontU32(s.radi, b2);
    TakeFrontU64(s.midp, b3);
    TakeFront(s.root, rest);
  }

  lemma BodyReprint(b1: Bytes, midpOffset: u32, rootOffset: u32)
    requires DecodeBody(b1, midpOffset, rootOffset).Ok?
    ensures var (s, rest) := DecodeBody(b1, midpOffset, rootOffset).value;
            b1 == EncodeBody(s) + rest && s.midpOffset == midpOffset && s.rootOffset == rootOffset
  {
    var (s, rest) := DecodeBody(b1, midpOffset, rootOffset).value;
    var b2 := TakeU32(b1).value.1;
    var b3 := TakeU64(b2).value.1;
    assert b1 == LE(s.radi, 4) + b2 by { WordsReprint(b1); }
    assert b2 == LE(s.midp, 8) + b3 by { WordsReprint(b2); }
    Follow3(LE(s.radi, 4), LE(s.midp, 8), s.root, rest);
  }

  lemma HeadTagsInOrder()
    ensures Headers.TagsInOrder(SREP_TAGS)
  {
    Headers.TagsRise(SREP_TAGS);
  }

  lemma HeadOffsetsInOrder(midpOffset: u32, rootOffset: u32)
    ensures Headers.OffsetsInOrder([midpOffset, rootOffset]) <==>
            Headers.Aligned(midpOffset) && Headers.Aligned(rootOffset) && midpOffset <= rootOffset
  {
    var offsets := [midpOffset, rootOffset];
    Headers.OffsetsRise(offsets);
    assert offsets[0] == midpOffset && offsets[1] == rootOffset;
  }

  /** Every parsed draft-08 signed response reprints to the bytes it was parsed from. */
  lemma PrintParsed(b: Bytes)
    requires Decode(b).Ok?
    ensures var (s, rest) := Decode(b).value; b == Encode(s) + rest && Coherent(s, |rest|)
  {
    var (h, body) := Headers.Decode(b, 3).value;
    Headers.PrintParsed(b, 3);
    var m, o := h.offsets[0], h.offsets[1];
    var (s, rest) := DecodeBody(body, m, o).value;
    Headers.BoundsMeanLast(h.offsets, |body|, 0);
    assert h == SrepHeader(m, o);
    HeadTagsInOrder();
    HeadOffsetsInOrder(m, o);
    BodyReprint(body, m, o);
    Follow2(EncodeHead(m, o), EncodeBody(s), rest);
  }

  /** A printed draft-08 signed response is parsed back exactly when its offsets are in order and in bounds. */
  lemma ParsePrinted(s: SignedResponse, rest: Bytes)
    ensures var r := Decode(Encode(s) + rest);
            if Coherent(s, |rest|) then r == Ok((s, rest)) else r.Err?
  {
    var body := EncodeBody(s) + rest;
    var h := SrepHeader(s.midpOffset, s.rootOffset);
    Follow2(EncodeHead(s.midpOffset, s.rootOffset), EncodeBody(s), rest);
    HeadTagsInOrder();
    HeadOffsetsInOrder(s.midpOffset, s.rootOffset);
    Headers.ParsePrinted(h, 3, body);
    if Headers.OffsetsInOrder(h.offsets) {
      Headers.BoundsMeanLast(h.offsets, |body|, 0);
    }
    BodyRoundTrip(s, rest);
  }

  // ---- The cursor methods ----------------------------------------------------------------------

  method FromWire(cursor: ParseCursor) returns (r: Result<SignedResponse, Error>)
    requires cursor.Valid()
    modifies cursor`position
    ensures cursor.Valid() && Agrees(Decode(old(cursor.Tail())), r, cursor.Tail())
  {
    Headers.DecodedFacts(cursor.Tail(), 3);
    var h :- Headers.FromWire(3, cursor);
    assert cursor.Remaining() == |cursor.Tail()|;
    var _ :- CheckHead(h, cursor.Remaining());
    r := BodyFromWire(h.offsets[0], h.offsets[1], cursor);
  }

  method BodyFromWire(midpOffset: u32, rootOffset: u32, cursor: ParseCursor) returns (r: Result<SignedResponse, Error>)
    requires cursor.Valid()
    modifies cursor`position
    ensures cursor.Valid() && Agrees(DecodeBody(old(cursor.Tail()), midpOffset, rootOffset), r, cursor.Tail())
  {
    var radi :- cursor.TryGetU32();
    var midp :- cursor.TryGetU64();
    var root :- cursor.TryGetFixed(32);
    return Ok(SignedResponse(radi, midp, root, midpOffset, rootOffset));
  }

  function Room(room: nat): Result<(), Error> {
    if room < Headers.HeaderSize(3) then Err(BufferTooSmall(Headers.HeaderSize(3), room))
    else if 36 <= room < SIZE then Err(BufferTooSmall(32, room - 36))
    else Ok(())
  }

  function Stop(room: nat): (n: nat)
    ensures Room(room).Ok? ==> n == SIZE
    ensures n <= SIZE
  {
    if room < 24 then 0 else if 36 <= room < SIZE then 36 else SIZE
  }

  predicate PutsFit(room: nat) {
    Room(room).Ok? ==> SIZE <= room
  }

  method ToWire(s: SignedResponse, cursor: ParseCursor) returns (r: Result<(), Error>)
    requires cursor.Valid() && PutsFit(cursor.Remaining())
    modifies cursor`position, cursor.buf
    ensures cursor.Valid() && cursor.Outside() == old(cursor.Outside())
    ensures r == Room(old(cursor.Remaining()))
    ensures cursor.Written() <= old(cursor.Written()) + Encode(s)
    ensures cursor.Remaining() == old(cursor.Remaining()) - Stop(old(cursor.Remaining()))
    ensures r.Ok? ==> cursor.Written() == old(cursor.Written()) + Encode(s)
  {
    ghost var written := cursor.Written();
    PiecesBegin(written, s);
    var _ :- Headers.ToWire(SrepHeader(s.midpOffset, s.rootOffset), 3, cursor);
    cursor.PutSlice(LE(s.radi, 4));
    cursor.PutSlice(LE(s.midp, 8));
    assert cursor.Written() == FrontOf(written, s);
    assert cursor.Remaining() == old(cursor.Remaining()) - 36;
    var _ :- cursor.TryPutFixed(s.root);
    return Ok(());
  }

  ghost function FrontOf(w: Bytes, s: SignedResponse): Bytes {
    w + EncodeHead(s.midpOffset, s.rootOffset) + LE(s.radi, 4) + LE(s.midp, 8)
  }

  lemma PiecesBegin(w: Bytes, s: SignedResponse)
    ensures w <= w + Encode(s) && FrontOf(w, s) <= w + Encode(s) && FrontOf(w, s) + s.root == w + Encode(s)
  {
    Begins(w, EncodeHead(s.midpOffset, s.rootOffset), EncodeBody(s));
    Onto4(w, EncodeHead(s.midpOffset, s.rootOffset), LE(s.radi, 4), LE(s.midp, 8), s.root);
  }
}
