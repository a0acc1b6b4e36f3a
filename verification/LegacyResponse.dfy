/** Responses of draft-08: no nonce and no type, but a version. */
module LegacyResponses {
  import opened Wrappers
  import opened Primitives
  import opened Cursors
  import opened Tags
  import opened Versions
  import opened WordLists
  import opened MerkleSpec
  import opened MerklePaths
  import opened Certificates
  import LSR = LegacySignedResponses
  import R = Responses
  import Headers

  const RESPONSE_TAGS: seq<Tag> := [SIG, VER, PATH, SREP, CERT, INDX]

  datatype Response = Response(
    offsets: seq<u32>, sig: Bytes64, ver: ProtocolVersion, path: Path, srep: LSR.SignedResponse, cert: Certificate, indx: u32)
  {
    predicate Sized() { |offsets| == 5 }

    function Size(): nat { 48 + 64 + 4 + PathSize(|path|) + LSR.SIZE + CERT_SIZE + 4 }

    /** Offset k is the size of the first k + 1 values. */
    function RunningSums(): seq<u32> {
      PathSizeIsProduct(|path|);
      var srepAt := 68 + PathSize(|path|);
      [64, 68, srepAt, srepAt + LSR.SIZE, srepAt + LSR.SIZE + CERT_SIZE]
    }

    /** Conversion to the form of the later draft, for what handles responses downstream. */
    function Converted(): (c: R.Response)
      ensures c.Sized()
    {
      R.Apply(R.Apply(R.Apply(R.Apply(R.Apply(R.DEFAULT_RESPONSE,
        R.SetSig(sig)), R.SetPath(path)), R.SetSrep(srep.Converted())), R.SetCert(cert)), R.SetIndx(indx))
    }
  }

  function EncodeHead(offsets: seq<u32>): (b: Bytes)
    requires |offsets| == 5
    ensures |b| == 48
  {
    Headers.EncodedLength(Headers.Header(offsets, RESPONSE_TAGS), 6);
    Headers.Encode(Headers.Header(offsets, RESPONSE_TAGS))
  }

  function EncodeBody(r: Response): (b: Bytes)
    ensures |b| == 68 + PathSize(|r.path|) + LSR.SIZE + CERT_SIZE + 4
  {
    r.sig + (EncodeVersion(r.ver) + (EncodePath(r.path) + (LSR.Encode(r.srep) + (EncodeCert(r.cert) + LE(r.indx, 4)))))
  }

  function Encode(r: Response): (b: Bytes)
    requires r.Sized()
    ensures |b| == r.Size()
  {
    EncodeHead(r.offsets) + EncodeBody(r)
  }

  function DecodeBody(b1: Bytes, offsets: seq<u32>, pathLen: nat): Parse<Response> {
    var (sig, b2) :- Take(b1, 64);
    var (ver, b3) :- DecodeVersion(b2);
    var (path, b4) :- TakePath(b3, pathLen);
    var (srep, b5) :- LSR.Decode(b4);
    var (cert, b6) :- DecodeCert(b5);
    var (indx, b7) :- TakeU32(b6);
    Ok((Response.Response(offsets, sig, ver, path, srep, cert, indx), b7))
  }

  function CheckHead(h: Headers.Header, length: nat): Result<nat, Error>
    requires h.Sized(6) && Headers.OffsetsInOrder(h.offsets)
  {
    var _ :- Headers.CheckOffsetBounds(h.offsets, length);
    if h.tags != RESPONSE_TAGS then Err(UnexpectedTags)
    else assert Headers.OffsetOrder(h.offsets[1], h.offsets[2]); Ok(h.offsets[2] - h.offsets[1])
  }

  function Decode(b: Bytes): Parse<Response> {
    var (h, body) :- Headers.Decode(b, 6);
    Headers.DecodedFacts(b, 6);
    var pathLen :- CheckHead(h, |body|);
    DecodeBody(body, h.offsets, pathLen)
  }

  // ---- Parse after print, print after parse ----------------------------------------------------

  lemma BodyParsePrinted(r: Response, pathLen: nat, rest: Bytes)
    requires pathLen == PathSize(|r.path|) && LSR.Coherent(r.srep, CERT_SIZE + 4 + |rest|)
    ensures DecodeBody(EncodeBody(r) + rest, r.offsets, pathLen) == Ok((r, rest))
  {
    var b6 := LE(r.indx, 4) + rest;
    var b5 := EncodeCert(r.cert) + b6;
    var b4 := LSR.Encode(r.srep) + b5;
    var b3 := EncodePath(r.path) + b4;
    var b2 := EncodeVersion(r.ver) + b3;
    Follow6(r.sig, EncodeVersion(r.ver), EncodePath(r.path), LSR.Encode(r.srep), EncodeCert(r.cert), LE(r.indx, 4), rest);
    TakeFront(r.sig, b2);
    VersionParsePrinted(r.ver, b3);
    PathParsePrinted(r.path, pathLen, b4);
    LSR.ParsePrinted(r.srep, b5);
    CertParsePrinted(r.cert, b6);
    TakeFrontU32(r.indx, rest);
  }

  /** The version number of a parsed response is not the legacy zero. */
  predicate LegacyFree(b: Bytes)
    requires Decode(b).Ok?
  {
    var (_, body) := Headers.Decode(b, 6).value;
    BodyLegacyFree(body)
  }

  predicate BodyLegacyFree(b1: Bytes) {
    |b1| >= 68 && TakeU32(Take(b1, 64).value.1).value.0 != 0
  }

  lemma FrontPieces(r: Response, b1: Bytes, b2: Bytes, b3: Bytes, b4: Bytes, pathLen: nat)
    requires Take(b1, 64) == Ok((r.sig, b2)) && DecodeVersion(b2) == Ok((r.ver, b3)) && TakePath(b3, pathLen) == Ok((r.path, b4))
    ensures b1 == r.sig + b2 && PathSize(|r.path|) == pathLen && b3 == EncodePath(r.path) + b4
    ensures |b1| == 68 + pathLen + |b4|
    ensures |b2| >= 4 && (b2 == EncodeVersion(r.ver) + b3 <==> BodyLegacyFree(b1))
  {
    VersionPrintParsed(b2);
    PathPrintParsed(b3, pathLen);
  }

  lemma BackPieces(r: Response, b4: Bytes, b5: Bytes, b6: Bytes, rest: Bytes)
    requires LSR.Decode(b4) == Ok((r.srep, b5)) && DecodeCert(b5) == Ok((r.cert, b6)) && TakeU32(b6) == Ok((r.indx, rest))
    ensures b4 == LSR.Encode(r.srep) + b5 && b5 == EncodeCert(r.cert) + b6 && b6 == LE(r.indx, 4) + rest
    ensures LSR.Coherent(r.srep, CERT_SIZE + 4 + |rest|) && |b4| == LSR.SIZE + CERT_SIZE + 4 + |rest|
  {
    LSR.PrintParsed(b4);
    CertPrintParsed(b5);
    WordsReprint(b6);
    assert |b5| == CERT_SIZE + 4 + |rest|;
  }

  lemma BodySplit(r: Response, b1: Bytes, b2: Bytes, b3: Bytes, b4: Bytes, b5: Bytes, b6: Bytes, rest: Bytes)
    requires b1 == r.sig + b2 && b3 == EncodePath(r.path) + b4
    requires b4 == LSR.Encode(r.srep) + b5 && b5 == EncodeCert(r.cert) + b6 && b6 == LE(r.indx, 4) + rest
    ensures b1 == EncodeBody(r) + rest <==> b2 == EncodeVersion(r.ver) + b3
  {
    Follow6(r.sig, EncodeVersion(r.ver), EncodePath(r.path), LSR.Encode(r.srep), EncodeCert(r.cert), LE(r.indx, 4), rest);
    SameFront(r.sig, EncodeVersion(r.ver) + b3, b2);
  }

  lemma BodyPrintParsed(b1: Bytes, offsets: seq<u32>, pathLen: nat)
    requires DecodeBody(b1, offsets, pathLen).Ok?
    ensures var (r, rest) := DecodeBody(b1, offsets, pathLen).value;
            && r.offsets == offsets && PathSize(|r.path|) == pathLen && LSR.Coherent(r.srep, CERT_SIZE + 4 + |rest|)
            && |b1| == 68 + pathLen + LSR.SIZE + CERT_SIZE + 4 + |rest|
            && (b1 == EncodeBody(r) + rest <==> BodyLegacyFree(b1))
  {
    var (sig, b2) := Take(b1, 64).value;
    var (ver, b3) := DecodeVersion(b2).value;
    var (path, b4) := TakePath(b3, pathLen).value;
    var (srep, b5) := LSR.Decode(b4).value;
    var (cert, b6) := DecodeCert(b5).value;
    var (indx, rest) := TakeU32(b6).value;
    var r := Response.Response(offsets, sig, ver, path, srep, cert, indx);
    FrontPieces(r, b1, b2, b3, b4, pathLen);
    BackPieces(r, b4, b5, b6, rest);
    BodySplit(r, b1, b2, b3, b4, b5, b6, rest);
  }

  predicate HeadFits(offsets: seq<u32>, pathLen: nat, length: nat) {
    && |offsets| == 5
    && (forall i :: 0 <= i < 5 ==> Headers.Aligned(offsets[i]))
    && offsets[0] <= offsets[1] <= offsets[2] <= offsets[3] <= offsets[4] <= length % 0x1_0000_0000
    && offsets[2] - offsets[1] == pathLen
  }

  lemma HeadTagsInOrder()
    ensures Headers.TagsInOrder(RESPONSE_TAGS)
  {
    Headers.TagsRise(RESPONSE_TAGS);
  }

  lemma HeadOffsetsInOrder(offsets: seq<u32>)
    requires |offsets| == 5
    ensures Headers.OffsetsInOrder(offsets) <==>
            && (forall i :: 0 <= i < 5 ==> Headers.Aligned(offsets[i]))
            && offsets[0] <= offsets[1] <= offsets[2] <= offsets[3] <= offsets[4]
  {
    Headers.OffsetsRise(offsets);
  }

  lemma CheckHeadExact(h: Headers.Header, length: nat, pathLen: nat)
    requires h.Sized(6) && Headers.OffsetsInOrder(h.offsets)
    ensures CheckHead(h, length) == Ok(pathLen) <==> h.tags == RESPONSE_TAGS && HeadFits(h.offsets, pathLen, length)
  {
    Headers.BoundsMeanLast(h.offsets, length, 0);
    HeadTagsInOrder();
    HeadOffsetsInOrder(h.offsets);
  }

  /** What makes a response come back from its printed form, followed by `extra` more bytes. */
  ghost predicate Coherent(r: Response, extra: nat) {
    && HeadFits(r.offsets, PathSize(|r.path|), 68 + PathSize(|r.path|) + LSR.SIZE + CERT_SIZE + 4 + extra)
    && LSR.Coherent(r.srep, CERT_SIZE + 4 + extra)
  }

  lemma CoherentParts(r: Response, pathLen: nat, length: nat, extra: nat)
    requires HeadFits(r.offsets, pathLen, length) && pathLen == PathSize(|r.path|)
    requires length == 68 + pathLen + LSR.SIZE + CERT_SIZE + 4 + extra
    requires LSR.Coherent(r.srep, CERT_SIZE + 4 + extra)
    ensures Coherent(r, extra)
  {
  }

  lemma HeadAndBody(r: Response, body: Bytes, b: Bytes, rest: Bytes)
    requires r.Sized() && b == EncodeHead(r.offsets) + body
    requires |body| == 68 + PathSize(|r.path|) + LSR.SIZE + CERT_SIZE + 4 + |rest|
    ensures |b| == r.Size() + |rest|
    ensures b == Encode(r) + rest <==> body == EncodeBody(r) + rest
  {
    Follow2(EncodeHead(r.offsets), EncodeBody(r), rest);
    SameFront(EncodeHead(r.offsets), EncodeBody(r) + rest, body);
  }

  lemma PartsPrintParsed(b: Bytes, h: Headers.Header, body: Bytes, pathLen: nat, r: Response, rest: Bytes)
    requires Headers.Decode(b, 6) == Ok((h, body)) && h.Sized(6) && Headers.OffsetsInOrder(h.offsets)
    requires CheckHead(h, |body|) == Ok(pathLen) && DecodeBody(body, h.offsets, pathLen) == Ok((r, rest))
    ensures r.Sized() && Coherent(r, |rest|) && |b| == r.Size() + |rest|
    ensures b == Encode(r) + rest <==> BodyLegacyFree(body)
  {
    CheckHeadExact(h, |body|, pathLen);
    BodyPrintParsed(body, h.offsets, pathLen);
    CoherentParts(r, pathLen, |body|, |rest|);
    assert b == EncodeHead(r.offsets) + body by {
      Headers.PrintParsed(b, 6);
    }
    HeadAndBody(r, body, b, rest);
  }

  /** Whatever a parse accepts is coherent; it reprints to the bytes read unless its version was sent as zero. */
  lemma PrintParsed(b: Bytes)
    requires Decode(b).Ok?
    ensures var (r, rest) := Decode(b).value;
            && r.Sized() && Coherent(r, |rest|) && |b| == r.Size() + |rest|
            && (b == Encode(r) + rest <==> LegacyFree(b))
  {
    var (h, body) := Headers.Decode(b, 6).value;
    Headers.DecodedFacts(b, 6);
    var pathLen := CheckHead(h, |body|).value;
    var (r, rest) := DecodeBody(body, h.offsets, pathLen).value;
    PartsPrintParsed(b, h, body, pathLen, r, rest);
  }

  lemma HeadParsePrinted(offsets: seq<u32>, pathLen: nat, body: Bytes)
    requires HeadFits(offsets, pathLen, |body|)
    ensures var h := Headers.Header(offsets, RESPONSE_TAGS);
            && Headers.Decode(EncodeHead(offsets) + body, 6) == Ok((h, body))
            && Headers.OffsetsInOrder(h.offsets) && CheckHead(h, |body|) == Ok(pathLen)
  {
    var h := Headers.Header(offsets, RESPONSE_TAGS);
    HeadTagsInOrder();
    HeadOffsetsInOrder(offsets);
    Headers.ParsePrinted(h, 6, body);
    CheckHeadExact(h, |body|, pathLen);
  }

  /** A printed response is parsed back, unchanged, exactly when it is coherent. */
  lemma ParsePrinted(r: Response, rest: Bytes)
    requires r.Sized()
    ensures Decode(Encode(r) + rest) == Ok((r, rest)) <==> Coherent(r, |rest|)
  {
    var pathLen := PathSize(|r.path|);
    var body := EncodeBody(r) + rest;
    Follow2(EncodeHead(r.offsets), EncodeBody(r), rest);
    if Coherent(r, |rest|) {
      assert |body| == 68 + pathLen + LSR.SIZE + CERT_SIZE + 4 + |rest|;
      HeadParsePrinted(r.offsets, pathLen, body);
      BodyParsePrinted(r, pathLen, rest);
    }
    if Decode(Encode(r) + rest) == Ok((r, rest)) {
      PrintParsed(Encode(r) + rest);
    }
  }

  // ---- Setters and conversion ------------------------------------------------------------------

  const DEFAULT_RESPONSE: Response := Response.Response(
    [0, 0, 0, 0, 0], Zeros(64), RfcDraft08, [], LSR.DEFAULT_SREP, Certificate(Zeros(64), Delegation(Zeros(32), 0, 0)), 0)

  datatype Setter =
    | SetSig(sig: Bytes64)
    | SetPath(path: Path)
    | SetSrep(srep: LSR.SignedResponse)
    | SetCert(cert: Certificate)
    | SetIndx(indx: u32)

  function Refreshed(r: Response): Response {
    r.(offsets := r.RunningSums())
  }

  /** What one setter does; here the certificate's setter refreshes the offsets too. */
  function Apply(r: Response, setter: Setter): Response {
    match setter
    case SetSig(sig) => r.(sig := sig)
    case SetPath(path) => Refreshed(r.(path := path))
    case SetSrep(srep) => Refreshed(r.(srep := srep))
    case SetCert(cert) => Refreshed(r.(cert := cert))
    case SetIndx(indx) => r.(indx := indx)
  }

  function ApplyAll(setters: seq<Setter>): Response {
    if setters == [] then DEFAULT_RESPONSE
    else Apply(ApplyAll(setters[..|setters| - 1]), setters[|setters| - 1])
  }

  predicate Refreshes(setter: Setter) {
    setter.SetPath? || setter.SetSrep? || setter.SetCert?
  }

  predicate Refreshing(setters: seq<Setter>) {
    setters != [] && (Refreshing(setters[..|setters| - 1]) || Refreshes(setters[|setters| - 1]))
  }

  /** After any history of setters the offsets are the running sums of the value sizes, or were never refreshed. */
  lemma {:induction false} SettersKeepOffsets(setters: seq<Setter>)
    ensures var r := ApplyAll(setters);
            r.offsets == if Refreshing(setters) then r.RunningSums() else DEFAULT_RESPONSE.offsets
  {
    if setters != [] {
      var k := |setters| - 1;
      SettersKeepOffsets(setters[..k]);
      SetterKeepsSums(ApplyAll(setters[..k]), setters[k]);
    }
  }

  lemma SetterKeepsSums(r: Response, setter: Setter)
    ensures Refreshes(setter) ==> Apply(r, setter).offsets == Apply(r, setter).RunningSums()
    ensures !Refreshes(setter) ==>
              Apply(r, setter).offsets == r.offsets && Apply(r, setter).RunningSums() == r.RunningSums()
  {
  }

  /** With refreshed offsets a response survives printing and parsing exactly when its SREP does. */
  lemma RefreshedCoherent(r: Response, extra: nat)
    requires r.offsets == r.RunningSums() && extra < 0x1000
    ensures Coherent(r, extra) <==> LSR.Coherent(r.srep, CERT_SIZE + 4 + extra)
  {
    PathSizeIsProduct(|r.path|);
    var p := |r.path|;
    assert p <= 32;
  }

  /** A converted response has refreshed offsets and one version, so it survives printing and parsing. */
  lemma ConvertedCoherent(r: Response, extra: nat)
    requires extra < 0x800
    ensures var c := r.Converted();
            && c.Sized() && c.offsets == c.RunningSums() && R.Coherent(c, extra)
            && c.sig == r.sig && c.path == r.path && c.cert == r.cert && c.indx == r.indx
            && c.srep.midp == r.srep.midp && c.srep.radi == r.srep.radi && c.srep.root == r.srep.root
  {
    var c := r.Converted();
    R.RefreshedCoherent(c, extra);
    R.SR.SetVersCoherent(R.SR.DEFAULT_SREP.(ver := RfcDraft08, radi := r.srep.radi, midp := r.srep.midp), [RfcDraft08],
                         CERT_SIZE + 4 + extra);
  }

  /** All of it: no nonce, draft-08 as the version and as the only one supported, and everything else as it was. */
  lemma ConvertedExactly(r: Response)
    ensures var c, p := r.Converted(), 32 * |r.path|;
            && c.offsets == [64, 96, 100, 100 + p, 192 + p, 344 + p]
            && c == R.Response.Response(c.offsets, r.sig, Zeros(32), r.path, c.srep, r.cert, r.indx)
            && c.srep == R.SR.SignedResponse(RfcDraft08, r.srep.radi, r.srep.midp, [RfcDraft08], r.srep.root, 20)
  {
    PathSizeIsProduct(|r.path|);
  }

  // ---- The cursor methods ----------------------------------------------------------------------

  method FromWire(cursor: ParseCursor) returns (r: Result<Response, Error>)
    requires cursor.Valid()
    modifies cursor`position
    ensures cursor.Valid() && Agrees(Decode(old(cursor.Tail())), r, cursor.Tail())
  {
    Headers.DecodedFacts(cursor.Tail(), 6);
    var h :- Headers.FromWire(6, cursor);
    assert cursor.Remaining() == |cursor.Tail()|;
    var pathLen :- CheckHead(h, cursor.Remaining());
    r := BodyFromWire(h.offsets, pathLen, cursor);
  }

  method BodyFromWire(offsets: seq<u32>, pathLen: nat, cursor: ParseCursor) returns (r: Result<Response, Error>)
    requires cursor.Valid()
    modifies cursor`position
    ensures cursor.Valid() && Agrees(DecodeBody(old(cursor.Tail()), offsets, pathLen), r, cursor.Tail())
  {
    var sig :- cursor.TryGetFixed(64);
    var ver :- GetVersion(cursor);
    var path :- GetPath(pathLen, cursor);
    var srep :- LSR.FromWire(cursor);
    var cert :- CertFromWire(cursor);
    var indx :- cursor.TryGetU32();
    return Ok(Response.Response(offsets, sig, ver, path, srep, cert, indx));
  }

  // ---- Printing; the fixed-size values and the path are put with a check, the words are not --------

  /** What comes of printing SREP, CERT and INDX into a given room. */
  function BackRoom(r: Response, room: nat): Result<(), Error> {
    var _ :- LSR.Room(room);
    CertRoom(if room < LSR.SIZE then 0 else room - LSR.SIZE)
  }

  function BackStop(r: Response, room: nat): (n: nat)
    ensures n <= LSR.SIZE + CERT_SIZE + 4
  {
    if LSR.Room(room).Err? || room < LSR.SIZE then LSR.Stop(room)
    else if CertRoom(room - LSR.SIZE).Err? then LSR.SIZE + CertStop(room - LSR.SIZE)
    else LSR.SIZE + CERT_SIZE + 4
  }

  predicate BackPutsFit(r: Response, room: nat) {
    && LSR.PutsFit(room)
    && (LSR.Room(room).Ok? ==> CertPutsFit(room - LSR.SIZE))
    && (BackRoom(r, room).Ok? ==> LSR.SIZE + CERT_SIZE + 4 <= room)
  }

  function LastValues(r: Response): Bytes {
    LSR.Encode(r.srep) + (EncodeCert(r.cert) + LE(r.indx, 4))
  }

  method BackToWire(r: Response, cursor: ParseCursor) returns (done: Result<(), Error>)
    requires cursor.Valid() && BackPutsFit(r, cursor.Remaining())
    modifies cursor`position, cursor.buf
    ensures cursor.Valid() && cursor.Outside() == old(cursor.Outside())
    ensures done == BackRoom(r, old(cursor.Remaining()))
    ensures cursor.Written() <= old(cursor.Written()) + LastValues(r)
    ensures cursor.Remaining() == old(cursor.Remaining()) - BackStop(r, old(cursor.Remaining()))
    ensures done.Ok? ==> cursor.Written() == old(cursor.Written()) + LastValues(r)
  {
    ghost var written, srep, cert := cursor.Written(), LSR.Encode(r.srep), EncodeCert(r.cert);
    Begins(written, srep, cert + LE(r.indx, 4));
    Begins(written + srep, cert, LE(r.indx, 4));
    Onto3(written, srep, cert, LE(r.indx, 4));
    var _ :- LSR.ToWire(r.srep, cursor);
    var _ :- CertToWire(r.cert, cursor);
    cursor.PutSlice(LE(r.indx, 4));
    return Ok(());
  }

  /** What comes of printing the header, SIG and VER. */
  function FrontRoom(room: nat): Result<(), Error> {
    if room < Headers.HeaderSize(6) then Err(BufferTooSmall(Headers.HeaderSize(6), room))
    else if room < Headers.HeaderSize(6) + 64 then Err(BufferTooSmall(64, room - Headers.HeaderSize(6)))
    else Ok(())
  }

  function FrontStop(room: nat): (n: nat)
    ensures FrontRoom(room).Ok? ==> n == 116
    ensures n <= 116
  {
    if room < Headers.HeaderSize(6) then 0
    else if room < Headers.HeaderSize(6) + 64 then Headers.HeaderSize(6)
    else 116
  }

  function FirstValues(r: Response): (b: Bytes)
    requires r.Sized()
    ensures |b| == 116
  {
    EncodeHead(r.offsets) + (r.sig + EncodeVersion(r.ver))
  }

  method FrontToWire(r: Response, cursor: ParseCursor) returns (done: Result<(), Error>)
    requires r.Sized() && cursor.Valid() && (FrontRoom(cursor.Remaining()).Ok? ==> 116 <= cursor.Remaining())
    modifies cursor`position, cursor.buf
    ensures cursor.Valid() && cursor.Outside() == old(cursor.Outside())
    ensures done == FrontRoom(old(cursor.Remaining()))
    ensures cursor.Written() <= old(cursor.Written()) + FirstValues(r)
    ensures cursor.Remaining() == old(cursor.Remaining()) - FrontStop(old(cursor.Remaining()))
    ensures done.Ok? ==> cursor.Written() == old(cursor.Written()) + FirstValues(r)
  {
    ghost var written, head := cursor.Written(), EncodeHead(r.offsets);
    Begins(written, head, r.sig + EncodeVersion(r.ver));
    Onto3(written, head, r.sig, EncodeVersion(r.ver));
    var _ :- Headers.ToWire(Headers.Header(r.offsets, RESPONSE_TAGS), 6, cursor);
    var _ :- cursor.TryPutFixed(r.sig);
    cursor.PutSlice(EncodeVersion(r.ver));
    return Ok(());
  }

  /** What comes of printing a response into a given room. */
  function Room(r: Response, room: nat): Result<(), Error> {
    var path := PathSize(|r.path|);
    var _ :- FrontRoom(room);
    if room < 116 + path then Err(BufferTooSmall(path, if room < 116 then 0 else room - 116))
    else BackRoom(r, room - (116 + path))
  }

  /** How many bytes are written before printing stops. */
  function Stop(r: Response, room: nat): nat {
    var path := PathSize(|r.path|);
    if FrontRoom(room).Err? then FrontStop(room)
    else if room < 116 + path then 116
    else 116 + path + BackStop(r, room - (116 + path))
  }

  /** The unchecked puts of words panic in the source where they are cut off. */
  predicate PutsFit(r: Response, room: nat) {
    FrontRoom(room).Ok? ==>
      && 116 <= room
      && (116 + PathSize(|r.path|) <= room ==> BackPutsFit(r, room - (116 + PathSize(|r.path|))))
  }

  method PathToWire(path: Path, cursor: ParseCursor) returns (done: Result<(), Error>)
    requires cursor.Valid()
    modifies cursor`position, cursor.buf
    ensures cursor.Valid() && cursor.Outside() == old(cursor.Outside())
    ensures var size := PathSize(|path|);
            if size <= old(cursor.Remaining())
            then done.Ok? && cursor.Written() == old(cursor.Written()) + EncodePath(path) && cursor.Remaining() == old(cursor.Remaining()) - size
            else done == Err(BufferTooSmall(size, old(cursor.Remaining()))) && cursor.Written() == old(cursor.Written()) &&
                 cursor.Remaining() == old(cursor.Remaining())
  {
    if |path| == 0 {
      assert EncodePath(path) == [];
      return Ok(());
    }
    done := cursor.TryPutFixed(EncodePath(path));
  }

  method ToWire(r: Response, cursor: ParseCursor) returns (done: Result<(), Error>)
    requires r.Sized() && cursor.Valid() && PutsFit(r, cursor.Remaining())
    modifies cursor`position, cursor.buf
    ensures cursor.Valid() && cursor.Outside() == old(cursor.Outside())
    ensures done == Room(r, old(cursor.Remaining()))
    ensures cursor.Written() <= old(cursor.Written()) + Encode(r)
    ensures cursor.Remaining() == old(cursor.Remaining()) - Stop(r, old(cursor.Remaining()))
    ensures done.Ok? ==> cursor.Written() == old(cursor.Written()) + Encode(r)
  {
    ghost var written := cursor.Written();
    PiecesBegin(written, r);
    var _ :- FrontToWire(r, cursor);
    var _ :- PathToWire(r.path, cursor);
    done := BackToWire(r, cursor);
  }

  lemma PiecesBegin(w: Bytes, r: Response)
    requires r.Sized()
    ensures w + FirstValues(r) <= w + Encode(r)
    ensures w + FirstValues(r) + EncodePath(r.path) + LastValues(r) == w + Encode(r)
  {
    var head, ver, path, back := EncodeHead(r.offsets), EncodeVersion(r.ver), EncodePath(r.path), LastValues(r);
    Follow3(head, r.sig, ver, path + back);
    Begins(w, FirstValues(r), path + back);
    Onto3(w, FirstValues(r), path, back);
  }
}
