/** Responses of draft-14: what the server sends and the client parses. */
module Responses {
  import opened Wrappers
  import opened Primitives
  import opened Cursors
  import opened Tags
  import opened Versions
  import opened WordLists
  import opened MerkleSpec
  import opened MerklePaths
  import opened Certificates
  import SR = SignedResponses
  import Headers

  const RESPONSE_TAGS: seq<Tag> := [SIG, NONC, TYPE, PATH, SREP, CERT, INDX]
  const MINIMUM_SIZE: nat := 404

  /** Header offsets are fields: setters refresh them, a parse keeps what it read. */
  datatype Response = Response(
    offsets: seq<u32>, sig: Bytes64, nonc: Bytes32, path: Path, srep: SR.SignedResponse, cert: Certificate, indx: u32)
  {
    predicate Sized() { |offsets| == 6 }

    function Size(): nat { 56 + 64 + 32 + 4 + PathSize(|path|) + srep.Size() + CERT_SIZE + 4 }

    /** Offset k is the size of the first k + 1 values. */
    function RunningSums(): seq<u32>
    {
      PathSizeIsProduct(|path|);
      var srepAt := 100 + PathSize(|path|);
      var certAt := srepAt + srep.Size();
      [64, 96, 100, srepAt, certAt, certAt + CERT_SIZE]
    }
  }

  function EncodeHead(offsets: seq<u32>): (b: Bytes)
    requires |offsets| == 6
    ensures |b| == 56
  {
    Headers.EncodedLength(Headers.Header(offsets, RESPONSE_TAGS), 7);
    Headers.Encode(Headers.Header(offsets, RESPONSE_TAGS))
  }

  function EncodeBody(r: Response): (b: Bytes)
    ensures |b| == 100 + PathSize(|r.path|) + r.srep.Size() + CERT_SIZE + 4
  {
    r.sig + (r.nonc + (EncodeType(MessageType.Response) + (EncodePath(r.path) +
                       (SR.Encode(r.srep) + (EncodeCert(r.cert) + LE(r.indx, 4))))))
  }

  function Encode(r: Response): (b: Bytes)
    requires r.Sized()
    ensures |b| == r.Size()
  {
    EncodeHead(r.offsets) + EncodeBody(r)
  }

  function DecodeResponseType(b: Bytes): Parse<()> {
    var (t, rest) :- DecodeType(b);
    if t != MessageType.Response then Err(InvalidMessageType(t.Number())) else Ok(((), rest))
  }

  function DecodeBody(b1: Bytes, offsets: seq<u32>, pathLen: nat): Parse<Response> {
    var (sig, b2) :- Take(b1, 64);
    var (nonc, b3) :- Take(b2, 32);
    var (_, b4) :- DecodeResponseType(b3);
    var (path, b5) :- TakePath(b4, pathLen);
    var (srep, b6) :- SR.Decode(b5);
    var (cert, b7) :- DecodeCert(b6);
    var (indx, b8) :- TakeU32(b7);
    Ok((Response.Response(offsets, sig, nonc, path, srep, cert, indx), b8))
  }

  /** Checks of a parsed header; yields the announced length of PATH. */
  function CheckHead(h: Headers.Header, length: nat): Result<nat, Error>
    requires h.Sized(7) && Headers.OffsetsInOrder(h.offsets)
  {
    var _ :- Headers.CheckOffsetBounds(h.offsets, length);
    if h.tags != RESPONSE_TAGS then Err(UnexpectedTags)
    else assert Headers.OffsetOrder(h.offsets[2], h.offsets[3]); Ok(h.offsets[3] - h.offsets[2])
  }

  function Decode(b: Bytes): Parse<Response> {
    var (h, body) :- Headers.Decode(b, 7);
    Headers.DecodedFacts(b, 7);
    var pathLen :- CheckHead(h, |body|);
    DecodeBody(body, h.offsets, pathLen)
  }

  // ---- Parse after print, print after parse ----------------------------------------------------

  lemma BodyParsePrinted(r: Response, pathLen: nat, rest: Bytes)
    requires pathLen == PathSize(|r.path|) && SR.Coherent(r.srep, CERT_SIZE + 4 + |rest|)
    ensures DecodeBody(EncodeBody(r) + rest, r.offsets, pathLen) == Ok((r, rest))
  {
    var b7 := LE(r.indx, 4) + rest;
    var b6 := EncodeCert(r.cert) + b7;
    var b5 := SR.Encode(r.srep) + b6;
    var b4 := EncodePath(r.path) + b5;
    var b3 := EncodeType(MessageType.Response) + b4;
    var b2 := r.nonc + b3;
    Follow7(r.sig, r.nonc, EncodeType(MessageType.Response), EncodePath(r.path), SR.Encode(r.srep), EncodeCert(r.cert),
            LE(r.indx, 4), rest);
    TakeFront(r.sig, b2);
    TakeFront(r.nonc, b3);
    TypeRoundTrip(MessageType.Response, b4, []);
    PathParsePrinted(r.path, pathLen, b5);
    SR.ParsePrinted(r.srep, b6);
    CertParsePrinted(r.cert, b7);
    TakeFrontU32(r.indx, rest);
  }

  /** No version number in the body of a response is the legacy zero; they all sit in SREP. */
  predicate BodyLegacyFree(b1: Bytes, offsets: seq<u32>, pathLen: nat)
    requires DecodeBody(b1, offsets, pathLen).Ok?
  {
    var (_, b2) := Take(b1, 64).value;
    var (_, b3) := Take(b2, 32).value;
    var (_, b4) := DecodeResponseType(b3).value;
    var (_, b5) := TakePath(b4, pathLen).value;
    SR.LegacyFree(b5)
  }

  lemma BodyPrintParsed(b1: Bytes, offsets: seq<u32>, pathLen: nat)
    requires DecodeBody(b1, offsets, pathLen).Ok?
    ensures var (r, rest) := DecodeBody(b1, offsets, pathLen).value;
            && r.offsets == offsets && PathSize(|r.path|) == pathLen && SR.Coherent(r.srep, CERT_SIZE + 4 + |rest|)
            && |b1| == 100 + pathLen + r.srep.Size() + CERT_SIZE + 4 + |rest|
            && (b1 == EncodeBody(r) + rest <==> BodyLegacyFree(b1, offsets, pathLen))
  {
    var (sig, b2) := Take(b1, 64).value;
    var (nonc, b3) := Take(b2, 32).value;
    var (_, b4) := DecodeResponseType(b3).value;
    var (path, b5) := TakePath(b4, pathLen).value;
    var (srep, b6) := SR.Decode(b5).value;
    var (cert, b7) := DecodeCert(b6).value;
    var (indx, rest) := TakeU32(b7).value;
    var r := Response.Response(offsets, sig, nonc, path, srep, cert, indx);
    FrontPieces(r, b1, b2, b3, b4, b5, pathLen);
    BackPieces(r, b5, b6, b7, rest);
    BodySplit(r, b1, b2, b3, b4, b5, b6, b7, rest);
  }

  lemma FrontPieces(r: Response, b1: Bytes, b2: Bytes, b3: Bytes, b4: Bytes, b5: Bytes, pathLen: nat)
    requires Take(b1, 64) == Ok((r.sig, b2)) && Take(b2, 32) == Ok((r.nonc, b3)) && DecodeResponseType(b3) == Ok(((), b4))
    requires TakePath(b4, pathLen) == Ok((r.path, b5))
    ensures b1 == r.sig + b2 && b2 == r.nonc + b3 && b3 == EncodeType(MessageType.Response) + b4
    ensures PathSize(|r.path|) == pathLen && b4 == EncodePath(r.path) + b5 && |b1| == 100 + pathLen + |b5|
  {
    TypeRoundTrip(MessageType.Response, b4, b3);
    PathPrintParsed(b4, pathLen);
  }

  lemma BackPieces(r: Response, b5: Bytes, b6: Bytes, b7: Bytes, rest: Bytes)
    requires SR.Decode(b5) == Ok((r.srep, b6)) && DecodeCert(b6) == Ok((r.cert, b7)) && TakeU32(b7) == Ok((r.indx, rest))
    ensures b6 == EncodeCert(r.cert) + b7 && b7 == LE(r.indx, 4) + rest
    ensures SR.Coherent(r.srep, CERT_SIZE + 4 + |rest|) && |b5| == r.srep.Size() + CERT_SIZE + 4 + |rest|
    ensures b5 == SR.Encode(r.srep) + b6 <==> SR.LegacyFree(b5)
  {
    SR.PrintParsed(b5);
    CertPrintParsed(b6);
    WordsReprint(b7);
    assert |b6| == CERT_SIZE + 4 + |rest|;
  }

  lemma BodySplit(r: Response, b1: Bytes, b2: Bytes, b3: Bytes, b4: Bytes, b5: Bytes, b6: Bytes, b7: Bytes, rest: Bytes)
    requires b1 == r.sig + b2 && b2 == r.nonc + b3 && b3 == EncodeType(MessageType.Response) + b4
    requires b4 == EncodePath(r.path) + b5 && b6 == EncodeCert(r.cert) + b7 && b7 == LE(r.indx, 4) + rest
    ensures b1 == EncodeBody(r) + rest <==> b5 == SR.Encode(r.srep) + b6
  {
    var t, p, s := EncodeType(MessageType.Response), EncodePath(r.path), SR.Encode(r.srep);
    Follow7(r.sig, r.nonc, t, p, s, EncodeCert(r.cert), LE(r.indx, 4), rest);
    SameFront(r.sig, r.nonc + (t + (p + (s + b6))), b2);
    SameFront(r.nonc, t + (p + (s + b6)), b3);
    SameFront(t, p + (s + b6), b4);
    SameFront(p, s + b6, b5);
  }

  predicate HeadFits(offsets: seq<u32>, pathLen: nat, length: nat) {
    && |offsets| == 6
    && (forall i :: 0 <= i < 6 ==> Headers.Aligned(offsets[i]))
    && offsets[0] <= offsets[1] <= offsets[2] <= offsets[3] <= offsets[4] <= offsets[5] <= length % 0x1_0000_0000
    && offsets[3] - offsets[2] == pathLen
  }

  lemma HeadTagsInOrder()
    ensures Headers.TagsInOrder(RESPONSE_TAGS)
  {
    Headers.TagsRise(RESPONSE_TAGS);
  }

  lemma HeadOffsetsInOrder(offsets: seq<u32>)
    requires |offsets| == 6
    ensures Headers.OffsetsInOrder(offsets) <==>
            && (forall i :: 0 <= i < 6 ==> Headers.Aligned(offsets[i]))
            && offsets[0] <= offsets[1] <= offsets[2] <= offsets[3] <= offsets[4] <= offsets[5]
  {
    Headers.OffsetsRise(offsets);
  }

  lemma CheckHeadExact(h: Headers.Header, length: nat, pathLen: nat)
    requires h.Sized(7) && Headers.OffsetsInOrder(h.offsets)
    ensures CheckHead(h, length) == Ok(pathLen) <==> h.tags == RESPONSE_TAGS && HeadFits(h.offsets, pathLen, length)
  {
    Headers.BoundsMeanLast(h.offsets, length, 0);
    HeadTagsInOrder();
    HeadOffsetsInOrder(h.offsets);
  }

  /** What makes a response come back from its printed form, followed by `extra` more bytes. */
  ghost predicate Coherent(r: Response, extra: nat) {
    && HeadFits(r.offsets, PathSize(|r.path|), 100 + PathSize(|r.path|) + r.srep.Size() + CERT_SIZE + 4 + extra)
    && SR.Coherent(r.srep, CERT_SIZE + 4 + extra)
  }

  lemma CoherentParts(r: Response, pathLen: nat, length: nat, extra: nat)
    requires HeadFits(r.offsets, pathLen, length) && pathLen == PathSize(|r.path|)
    requires length == 100 + pathLen + r.srep.Size() + CERT_SIZE + 4 + extra
    requires SR.Coherent(r.srep, CERT_SIZE + 4 + extra)
    ensures Coherent(r, extra)
  {
  }

  lemma HeadAndBody(r: Response, body: Bytes, b: Bytes, rest: Bytes)
    requires r.Sized() && b == EncodeHead(r.offsets) + body
    requires |body| == 100 + PathSize(|r.path|) + r.srep.Size() + CERT_SIZE + 4 + |rest|
    ensures |b| == r.Size() + |rest|
    ensures b == Encode(r) + rest <==> body == EncodeBody(r) + rest
  {
    Follow2(EncodeHead(r.offsets), EncodeBody(r), rest);
    SameFront(EncodeHead(r.offsets), EncodeBody(r) + rest, body);
  }

  /** The pieces of a parse: header, body, announced path length, value and rest. */
  lemma PartsPrintParsed(b: Bytes, h: Headers.Header, body: Bytes, pathLen: nat, r: Response, rest: Bytes)
    requires Headers.Decode(b, 7) == Ok((h, body)) && h.Sized(7) && Headers.OffsetsInOrder(h.offsets)
    requires CheckHead(h, |body|) == Ok(pathLen) && DecodeBody(body, h.offsets, pathLen) == Ok((r, rest))
    ensures r.Sized() && Coherent(r, |rest|) && |b| == r.Size() + |rest|
    ensures b == Encode(r) + rest <==> BodyLegacyFree(body, h.offsets, pathLen)
  {
    CheckHeadExact(h, |body|, pathLen);
    BodyPrintParsed(body, h.offsets, pathLen);
    CoherentParts(r, pathLen, |body|, |rest|);
    assert b == EncodeHead(r.offsets) + body by {
      Headers.PrintParsed(b, 7);
    }
    HeadAndBody(r, body, b, rest);
  }

  /** No version number in a parsed response is the legacy zero. */
  predicate LegacyFree(b: Bytes)
    requires Decode(b).Ok?
  {
    var (h, body) := Headers.Decode(b, 7).value;
    Headers.DecodedFacts(b, 7);
    BodyLegacyFree(body, h.offsets, CheckHead(h, |body|).value)
  }

  /** Whatever a parse accepts is coherent; it reprints to the bytes read, except for legacy version numbers. */
  lemma PrintParsed(b: Bytes)
    requires Decode(b).Ok?
    ensures var (r, rest) := Decode(b).value;
            && r.Sized() && Coherent(r, |rest|) && |b| == r.Size() + |rest|
            && (b == Encode(r) + rest <==> LegacyFree(b))
  {
    var (h, body) := Headers.Decode(b, 7).value;
    Headers.DecodedFacts(b, 7);
    var pathLen := CheckHead(h, |body|).value;
    var (r, rest) := DecodeBody(body, h.offsets, pathLen).value;
    PartsPrintParsed(b, h, body, pathLen, r, rest);
  }

  lemma HeadParsePrinted(offsets: seq<u32>, pathLen: nat, body: Bytes)
    requires HeadFits(offsets, pathLen, |body|)
    ensures var h := Headers.Header(offsets, RESPONSE_TAGS);
            && Headers.Decode(EncodeHead(offsets) + body, 7) == Ok((h, body))
            && Headers.OffsetsInOrder(h.offsets) && CheckHead(h, |body|) == Ok(pathLen)
  {
    var h := Headers.Header(offsets, RESPONSE_TAGS);
    HeadTagsInOrder();
    HeadOffsetsInOrder(offsets);
    Headers.ParsePrinted(h, 7, body);
    CheckHeadExact(h, |body|, pathLen);
  }

  /** A printed response is parsed back, unchanged, exactly when it is coherent. */
  lemma ParsePrinted(r: Response, rest: Bytes)
    requires r.Sized()
    ensures Decode(Encode(r) + rest) == Ok((r, rest)) <==> Coherent(r, |rest|)
  {
    var pathLen := PathSize(|r.path|);
    var body := EncodeBody(r) + rest;
    Follow2(EncodeHead(r.offsets), EncodeBody(r), rest);
    if Coherent(r, |rest|) {
      assert |body| == 100 + pathLen + r.srep.Size() + CERT_SIZE + 4 + |rest|;
      HeadParsePrinted(r.offsets, pathLen, body);
      BodyParsePrinted(r, pathLen, rest);
    }
    if Decode(Encode(r) + rest) == Ok((r, rest)) {
      PrintParsed(Encode(r) + rest);
    }
  }

  lemma BodyReparses(r: Response, pathLen: nat, extra: nat, rest: Bytes)
    requires pathLen == PathSize(|r.path|) && SR.Coherent(r.srep, extra)
    requires DecodeBody(EncodeBody(r) + rest, r.offsets, pathLen).Ok?
    ensures SR.Coherent(r.srep, CERT_SIZE + 4 + |rest|)
  {
    var b7 := LE(r.indx, 4) + rest;
    var b6 := EncodeCert(r.cert) + b7;
    var b5 := SR.Encode(r.srep) + b6;
    var b4 := EncodePath(r.path) + b5;
    var b3 := EncodeType(MessageType.Response) + b4;
    var b2 := r.nonc + b3;
    Follow7(r.sig, r.nonc, EncodeType(MessageType.Response), EncodePath(r.path), SR.Encode(r.srep), EncodeCert(r.cert),
            LE(r.indx, 4), rest);
    TakeFront(r.sig, b2);
    TakeFront(r.nonc, b3);
    TypeRoundTrip(MessageType.Response, b4, []);
    PathParsePrinted(r.path, pathLen, b5);
    SR.ReparsedIsCoherent(r.srep, extra, b6);
    assert |b6| == CERT_SIZE + 4 + |rest|;
  }

  /** The bytes that a printed response needs its offsets to stay within. */
  predicate Contained(r: Response)
    requires r.Sized()
  {
    && r.offsets[5] <= 100 + PathSize(|r.path|) + r.srep.Size() + CERT_SIZE + 4
    && r.srep.rootOffset <= 48 + Quad(|r.srep.vers|) + CERT_SIZE + 4
  }

  lemma HeadContained(offsets: seq<u32>, pathLen: nat, length: nat, shorter: nat)
    requires HeadFits(offsets, pathLen, length) && shorter < 0x1_0000_0000
    ensures HeadFits(offsets, pathLen, shorter) <==> offsets[5] <= shorter
  {
  }

  /** For a response that was parsed, with whatever behind it, containment is all that coherence adds. */
  lemma ContainedIsCoherent(r: Response, extra: nat)
    requires r.Sized() && Coherent(r, extra)
    ensures Contained(r) <==> Coherent(r, 0)
  {
    RunningSumsFit(r, 0);
    var length := 100 + PathSize(|r.path|) + r.srep.Size() + CERT_SIZE + 4;
    assert length < 0x1_0000_0000;
    HeadContained(r.offsets, PathSize(|r.path|), length + extra, length);
    SR.Contained(r.srep, CERT_SIZE + 4 + extra, CERT_SIZE + 4);
  }

  /** The header of a printed response that was once parsed passes its checks exactly when the offsets fit. */
  lemma HeadReparses(r: Response, extra: nat, body: Bytes)
    requires r.Sized() && Coherent(r, extra)
    ensures var h := Headers.Header(r.offsets, RESPONSE_TAGS);
            && Headers.Decode(EncodeHead(r.offsets) + body, 7) == Ok((h, body))
            && Headers.OffsetsInOrder(h.offsets)
            && (CheckHead(h, |body|).Ok? ==> CheckHead(h, |body|) == Ok(PathSize(|r.path|)) && HeadFits(r.offsets, PathSize(|r.path|), |body|))
  {
    var h := Headers.Header(r.offsets, RESPONSE_TAGS);
    HeadTagsInOrder();
    HeadOffsetsInOrder(r.offsets);
    Headers.ParsePrinted(h, 7, body);
    if CheckHead(h, |body|).Ok? {
      CheckHeadExact(h, |body|, CheckHead(h, |body|).value);
    }
  }

  /** If a response that was once parsed parses again from its printed form, it comes back unchanged. */
  lemma ReparsedIsCoherent(r: Response, extra: nat, rest: Bytes)
    requires r.Sized() && Coherent(r, extra) && Decode(Encode(r) + rest).Ok?
    ensures Coherent(r, |rest|)
  {
    var pathLen := PathSize(|r.path|);
    var body := EncodeBody(r) + rest;
    Follow2(EncodeHead(r.offsets), EncodeBody(r), rest);
    HeadReparses(r, extra, body);
    BodyReparses(r, pathLen, CERT_SIZE + 4 + extra, rest);
    assert |body| == 100 + pathLen + r.srep.Size() + CERT_SIZE + 4 + |rest|;
    CoherentParts(r, pathLen, |body|, |rest|);
  }

  /** A response that stands alone also stands with bytes behind it. */
  lemma MoreBehindCoherent(r: Response, extra: nat)
    requires r.Sized() && Coherent(r, 0) && extra < 0x800
    ensures Coherent(r, extra)
  {
    RunningSumsFit(r, extra);
    var length := 100 + PathSize(|r.path|) + r.srep.Size() + CERT_SIZE + 4;
    assert length + extra < 0x1_0000_0000;
    HeadContained(r.offsets, PathSize(|r.path|), length, length + extra);
    SR.Contained(r.srep, CERT_SIZE + 4, CERT_SIZE + 4 + extra);
  }

  /** A parsed response is never shorter than the announced minimum. */
  lemma ParsedAtLeastMinimum(b: Bytes)
    requires Decode(b).Ok?
    ensures MINIMUM_SIZE <= Decode(b).value.0.Size() <= |b|
  {
    PrintParsed(b);
    var (r, rest) := Decode(b).value;
    CoherentSize(r, |rest|);
  }

  lemma CoherentSize(r: Response, extra: nat)
    requires Coherent(r, extra)
    ensures r.Size() >= MINIMUM_SIZE
  {
    SizeOfVersions(r.srep.rootOffset - SR.VERS_OFFSET);
  }

  lemma SizeOfVersions(n: nat)
    requires 0 < n && n % 4 == 0
    ensures VersionCount(n) > 0
  {
  }

  // ---- Setters ---------------------------------------------------------------------------------

  const DEFAULT_RESPONSE: Response := Response.Response(
    [0, 0, 0, 0, 0, 0], Zeros(64), Zeros(32), [], SR.DEFAULT_SREP,
    Certificate(Zeros(64), Delegation(Zeros(32), 0, 0)), 0)

  datatype Setter =
    | SetSig(sig: Bytes64)
    | SetNonc(nonc: Bytes32)
    | SetPath(path: Path)
    | SetSrep(srep: SR.SignedResponse)
    | SetCert(cert: Certificate)
    | SetIndx(indx: u32)

  function Refreshed(r: Response): Response {
    r.(offsets := r.RunningSums())
  }

  /** What one setter does; only PATH and SREP, whose sizes vary, refresh the offsets. */
  function Apply(r: Response, setter: Setter): Response {
    match setter
    case SetSig(sig) => r.(sig := sig)
    case SetNonc(nonc) => r.(nonc := nonc)
    case SetPath(path) => Refreshed(r.(path := path))
    case SetSrep(srep) => Refreshed(r.(srep := srep))
    case SetCert(cert) => r.(cert := cert)
    case SetIndx(indx) => r.(indx := indx)
  }

  function ApplyAll(setters: seq<Setter>): Response {
    if setters == [] then DEFAULT_RESPONSE
    else Apply(ApplyAll(setters[..|setters| - 1]), setters[|setters| - 1])
  }

  /** Some setter refreshed the offsets. */
  predicate Refreshing(setters: seq<Setter>) {
    setters != [] &&
    (Refreshing(setters[..|setters| - 1]) || setters[|setters| - 1].SetPath? || setters[|setters| - 1].SetSrep?)
  }

  /** After any history of setters the offsets are the running sums of the value sizes, or were never refreshed. */
  lemma {:induction false} SettersKeepOffsets(setters: seq<Setter>)
    ensures var r := ApplyAll(setters);
            r.offsets == if Refreshing(setters) then r.RunningSums() else DEFAULT_RESPONSE.offsets
  {
    if setters != [] {
      var k := |setters| - 1;
      SettersKeepOffsets(setters[..k]);
      SetterKeepsSums(ApplyAll(setters[..k]), setters[k]);
    }
  }

  lemma SetterKeepsSums(r: Response, setter: Setter)
    ensures setter.SetPath? || setter.SetSrep? ==> Apply(r, setter).offsets == Apply(r, setter).RunningSums()
    ensures !setter.SetPath? && !setter.SetSrep? ==>
              Apply(r, setter).offsets == r.offsets && Apply(r, setter).RunningSums() == r.RunningSums()
  {
  }

  lemma RunningSumsFit(r: Response, extra: nat)
    requires extra < 0x1000
    ensures HeadFits(r.RunningSums(), PathSize(|r.path|), 100 + PathSize(|r.path|) + r.srep.Size() + CERT_SIZE + 4 + extra)
  {
    PathSizeIsProduct(|r.path|);
    var p, v := |r.path|, |r.srep.vers|;
    assert p <= 32 && v <= 32;
  }

  /** With refreshed offsets a response survives printing and parsing exactly when its SREP does. */
  lemma RefreshedCoherent(r: Response, extra: nat)
    requires r.offsets == r.RunningSums() && extra < 0x1000
    ensures Coherent(r, extra) <==> SR.Coherent(r.srep, CERT_SIZE + 4 + extra)
  {
    RunningSumsFit(r, extra);
  }

  lemma RefreshedAlone(r: Response, behindSrep: nat)
    requires r.offsets == r.RunningSums() && behindSrep == CERT_SIZE + 4
    ensures Coherent(r, 0) <==> SR.Coherent(r.srep, behindSrep)
  {
    RefreshedCoherent(r, 0);
  }

  /** The mutable response, changed field by field. */
  class MutableResponse {
    var offsets: seq<u32>
    var sig: Bytes64
    var nonc: Bytes32
    var path: MerklePath
    var srep: SR.SignedResponse
    var cert: Certificate
    var indx: u32

    ghost predicate Valid()
      reads this, path
    {
      path.Valid() && |offsets| == 6
    }

    function Value(): Response
      requires Valid()
      reads this, path, path.data
    {
      Response.Response(offsets, sig, nonc, path.Elements(), srep, cert, indx)
    }

    constructor ()
      ensures Valid() && Value() == DEFAULT_RESPONSE && fresh(path) && fresh(path.data)
    {
      offsets, sig, nonc := DEFAULT_RESPONSE.offsets, DEFAULT_RESPONSE.sig, DEFAULT_RESPONSE.nonc;
      srep, cert, indx := DEFAULT_RESPONSE.srep, DEFAULT_RESPONSE.cert, 0;
      path := new MerklePath();
    }

    /** A copy of a response, with a path buffer of its own. */
    constructor Clone(other: Response)
      requires other.Sized() && other.path == []
      ensures Valid() && Value() == other && fresh(path) && fresh(path.data)
    {
      offsets, sig, nonc, srep, cert, indx := other.offsets, other.sig, other.nonc, other.srep, other.cert, other.indx;
      path := new MerklePath();
    }

    method UpdateOffsets()
      requires Valid()
      modifies this`offsets
      ensures Valid() && Value() == Refreshed(old(Value()))
    {
      PathSizeIsProduct(path.numPaths);
      var nonceAt: u32 := 64;
      var typeAt: u32 := nonceAt + 32;
      var pathAt: u32 := typeAt + 4;
      var srepAt: u32 := pathAt + 32 * path.numPaths;
      var certAt: u32 := srepAt + srep.Size();
      offsets := [nonceAt, typeAt, pathAt, srepAt, certAt, certAt + CERT_SIZE];
    }

    method SetSignature(signature: Bytes64)
      requires Valid()
      modifies this`sig
      ensures Valid() && Value() == Apply(old(Value()), SetSig(signature))
    {
      sig := signature;
    }

    method SetNonce(nonce: Bytes32)
      requires Valid()
      modifies this`nonc
      ensures Valid() && Value() == Apply(old(Value()), SetNonc(nonce))
    {
      nonc := nonce;
    }

    /** Takes the path over. */
    method SetMerklePath(other: MerklePath)
      requires Valid() && other.Valid()
      modifies this`path, this`offsets
      ensures Valid() && path == other && Value() == Apply(old(Value()), SetPath(old(other.Elements())))
    {
      path := other;
      UpdateOffsets();
    }

    /** Copies the elements of the path into the own buffer. */
    method CopyPath(other: MerklePath)
      requires Valid() && other.Valid() && path.data != other.data
      modifies this`offsets, path`numPaths, path.data
      ensures Valid() && path == old(path) && Value() == Apply(old(Value()), SetPath(old(other.Elements())))
    {
      path.CopyFrom(other);
      UpdateOffsets();
    }

    method SetSignedResponse(signed: SR.SignedResponse)
      requires Valid()
      modifies this`srep, this`offsets
      ensures Valid() && Value() == Apply(old(Value()), SetSrep(signed))
    {
      srep := signed;
      UpdateOffsets();
    }

    method SetCertificate(certificate: Certificate)
      requires Valid()
      modifies this`cert
      ensures Valid() && Value() == Apply(old(Value()), SetCert(certificate))
    {
      cert := certificate;
    }

    method SetIndex(index: u32)
      requires Valid()
      modifies this`indx
      ensures Valid() && Value() == Apply(old(Value()), SetIndx(index))
    {
      indx := index;
    }
  }

  // ---- The cursor methods ----------------------------------------------------------------------

  method FromWire(cursor: ParseCursor) returns (r: Result<Response, Error>)
    requires cursor.Valid()
    modifies cursor`position
    ensures cursor.Valid() && Agrees(Decode(old(cursor.Tail())), r, cursor.Tail())
  {
    Headers.DecodedFacts(cursor.Tail(), 7);
    var h :- Headers.FromWire(7, cursor);
    assert cursor.Remaining() == |cursor.Tail()|;
    var pathLen :- CheckHead(h, cursor.Remaining());
    r := BodyFromWire(h.offsets, pathLen, cursor);
  }

  method BodyFromWire(offsets: seq<u32>, pathLen: nat, cursor: ParseCursor) returns (r: Result<Response, Error>)
    requires cursor.Valid()
    modifies cursor`position
    ensures cursor.Valid() && Agrees(DecodeBody(old(cursor.Tail()), offsets, pathLen), r, cursor.Tail())
  {
    var sig :- cursor.TryGetFixed(64);
    var nonc :- cursor.TryGetFixed(32);
    var msgType :- GetType(cursor);
    if msgType != MessageType.Response {
      return Err(InvalidMessageType(msgType.Number()));
    }
    var path :- GetPath(pathLen, cursor);
    var srep :- SR.FromWire(cursor);
    var cert :- CertFromWire(cursor);
    var indx :- cursor.TryGetU32();
    return Ok(Response.Response(offsets, sig, nonc, path, srep, cert, indx));
  }

  /** The size is compared with the capacity of the cursor; the puts panic where less is left. */
  method ToWire(r: Response, cursor: ParseCursor) returns (done: Result<(), Error>)
    requires r.Sized() && cursor.Valid() && (r.Size() <= cursor.Capacity() ==> r.Size() <= cursor.Remaining())
    modifies cursor`position, cursor.buf
    ensures cursor.Valid() && cursor.Outside() == old(cursor.Outside())
    ensures done.Ok? <==> r.Size() <= cursor.Capacity()
    ensures done.Ok? ==> cursor.Written() == old(cursor.Written()) + Encode(r)
    ensures done.Ok? ==> cursor.Remaining() == old(cursor.Remaining()) - r.Size()
    ensures done.Err? ==> done.error == BufferTooSmall(r.Size(), cursor.Capacity())
    ensures done.Err? ==> cursor.Written() == old(cursor.Written()) && cursor.Tail() == old(cursor.Tail())
  {
    if cursor.Capacity() < r.Size() {
      return Err(BufferTooSmall(r.Size(), cursor.Capacity()));
    }
    ghost var written := cursor.Written();
    var head := Headers.ToWire(Headers.Header(r.offsets, RESPONSE_TAGS), 7, cursor);
    cursor.PutSlice(r.sig);
    cursor.PutSlice(r.nonc);
    cursor.PutSlice(EncodeType(MessageType.Response));
    cursor.PutSlice(EncodePath(r.path));
    BackToWire(r, cursor);
    Onto6(written, EncodeHead(r.offsets), r.sig, r.nonc, EncodeType(MessageType.Response), EncodePath(r.path), LastValues(r));
    return Ok(());
  }

  /** The last three values: SREP, CERT and INDX. */
  function LastValues(r: Response): (b: Bytes)
    ensures |b| == r.srep.Size() + CERT_SIZE + 4
  {
    SR.Encode(r.srep) + (EncodeCert(r.cert) + LE(r.indx, 4))
  }

  method BackToWire(r: Response, cursor: ParseCursor)
    requires cursor.Valid() && r.srep.Size() + CERT_SIZE + 4 <= cursor.Remaining()
    modifies cursor`position, cursor.buf
    ensures cursor.Valid() && cursor.Outside() == old(cursor.Outside())
    ensures cursor.Written() == old(cursor.Written()) + LastValues(r)
    ensures cursor.Remaining() == old(cursor.Remaining()) - (r.srep.Size() + CERT_SIZE + 4)
  {
    ghost var written := cursor.Written();
    var srep := SR.ToWire(r.srep, cursor);
    var cert := CertToWire(r.cert, cursor);
    cursor.PutSlice(LE(r.indx, 4));
    Onto3(written, SR.Encode(r.srep), EncodeCert(r.cert), LE(r.indx, 4));
  }
}
