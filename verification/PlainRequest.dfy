/** Which byte strings are accepted as requests, and as what. */
module PlainRequests {
  import opened Wrappers
  import opened Primitives
  import opened Cursors
  import opened Tags
  import opened Versions
  import opened WordLists
  import opened Requests
  import opened PlainWire
  import Frames
  import Headers

  function Names(kind: Kind): (names: seq<string>)
    ensures |names| == kind.NumTags()
  {
    match kind
    case Draft08 => ["VER\0", "NONC", "ZZZZ"]
    case Draft14 => ["VER\0", "NONC", "TYPE", "ZZZZ"]
    case Draft14Srv => ["VER\0", "SRV\0", "NONC", "TYPE", "ZZZZ"]
  }

  /** The TYPE word of a request is zero. */
  function TypeWord(kind: Kind): Bytes {
    if kind == Draft08 then [] else [0, 0, 0, 0]
  }

  /** Values in their order; whatever is behind them is padding, of any content. */
  function PlainBody(kind: Kind, words: seq<u32>, srv: Bytes, nonc: Bytes32, rest: Bytes): Bytes {
    WordsOf(words) + (srv + (nonc + (TypeWord(kind) + rest)))
  }

  /** This is a request, with these version words and this padding, on 1012 bytes. */
  ghost predicate Describes(b: Bytes, r: Request, words: seq<u32>, rest: Bytes) {
    && |b| == 1012 && r.Sized()
    && b == PlainHeader(r.offsets, Names(r.kind)) + PlainBody(r.kind, words, r.srv, r.nonc, rest)
    && WellPlaced(r.offsets, 1012 - 8 * |Names(r.kind)|)
    && |words| == (if r.offsets[0] / 4 < 32 then r.offsets[0] / 4 else 32)
    && Announces(words, r.ver)
  }

  lemma NamesSpelled(kind: Kind)
    ensures AllSpelled(kind.TagList(), Names(kind))
  {
    TagNames();
    MoreTagNames();
  }

  lemma HeadIsPlain(kind: Kind, offsets: seq<u32>)
    requires |offsets| == kind.NumTags() - 1
    ensures EncodeHead(kind, offsets) == PlainHeader(offsets, Names(kind))
  {
    NamesSpelled(kind);
    HeaderIsPlain(HeaderOf(kind, offsets), Names(kind));
  }

  lemma OffsetsWellPlaced(offsets: seq<u32>, length: nat)
    requires offsets != [] && length <= 1012
    ensures WellPlaced(offsets, length) <==> Headers.OffsetsInOrder(offsets) && Headers.CheckOffsetBounds(offsets, length).Ok?
  {
    Headers.OffsetsRise(offsets);
    if Headers.OffsetsInOrder(offsets) {
      Headers.BoundsMeanLast(offsets, length, 0);
    }
  }

  // ---- What a body parses to ---------------------------------------------------------------------------

  lemma TypeExactly(b: Bytes, kind: Kind, rest: Bytes)
    ensures TakeType(b, kind) == Ok(((), rest)) <==> b == TypeWord(kind) + rest
  {
    ResponseTypeIsPlain();
    if kind == Draft08 {
      assert [] + rest == rest;
    } else {
      TypeRoundTrip(MessageType.Request, rest, b);
      if TakeType(b, kind).Ok? {
        assert DecodeType(b).value.0 == MessageType.Request;
      }
    }
  }

  /** The pieces of an accepted body. */
  lemma BodyDescribed(b: Bytes, kind: Kind, offsets: seq<u32>, count: nat, r: Request, rest: Bytes) returns (words: seq<u32>)
    requires count <= MAX_VERSIONS && DecodeBody(b, kind, offsets, count) == Ok((r, rest))
    ensures r.kind == kind && r.offsets == offsets && |r.srv| == kind.SrvSize()
    ensures |words| == count && Announces(words, r.ver) && b == PlainBody(kind, words, r.srv, r.nonc, rest)
  {
    words := VersionWords(b, count);
    var (ver, b2) := DecodeVersions(b, count).value;
    var (srv, b3) := Take(b2, kind.SrvSize()).value;
    var (nonc, b4) := Take(b3, 32).value;
    WordsPrint(b, count);
    VersionsAreWords(words);
    WordsAnnounce(words, r.ver);
    TypeExactly(b4, kind, rest);
  }

  lemma BodyAccepted(r: Request, count: nat, words: seq<u32>, rest: Bytes)
    requires |words| == count <= MAX_VERSIONS && Announces(words, r.ver) && |r.srv| == r.kind.SrvSize()
    ensures DecodeBody(PlainBody(r.kind, words, r.srv, r.nonc, rest), r.kind, r.offsets, count) == Ok((r, rest))
  {
    var b4 := TypeWord(r.kind) + rest;
    var b3 := r.nonc + b4;
    var b2 := r.srv + b3;
    VersionsExactly(WordsOf(words) + b2, count, words, r.ver, b2);
    TakeFront(r.srv, b3);
    TakeFront(r.nonc, b4);
    TypeExactly(b4, r.kind, rest);
  }

  // ---- Whole messages -------------------------------------------------------------------------------------

  /** Every accepted message is described by its value, the version words that were sent and the padding. */
  lemma AcceptedIsDescribed(b: Bytes, r: Request, rest: Bytes) returns (words: seq<u32>)
    requires Decode(b) == Ok((r, rest))
    ensures Describes(b, r, words, rest)
  {
    var kind := KindOf(TakeU32(b).value.0).value;
    var (h, body) := Headers.Decode(b, kind.NumTags()).value;
    Headers.DecodedFacts(b, kind.NumTags());
    var count := VersionCount(h.offsets[0]);
    PartsParsed(b, kind, h, body, count, r, rest);
    words := BodyDescribed(body, kind, h.offsets, count, r, rest);
    HeadIsPlain(kind, r.offsets);
    assert |body| == 1012 - 8 * |Names(kind)|;
    OffsetsWellPlaced(r.offsets, |body|);
  }

  /** Behind a header that fits, a message is what its body is. */
  lemma BodyDecides(kind: Kind, offsets: seq<u32>, body: Bytes, count: nat)
    requires |offsets| == kind.NumTags() - 1 && |body| == 1012 - 8 * |Names(kind)| && WellPlaced(offsets, |body|)
    requires count == (if offsets[0] / 4 < 32 then offsets[0] / 4 else 32)
    ensures Decode(PlainHeader(offsets, Names(kind)) + body) == DecodeBody(body, kind, offsets, count)
  {
    HeadIsPlain(kind, offsets);
    OffsetsWellPlaced(offsets, |body|);
    HeadParses(kind, offsets, body);
    Headers.CountInFront(HeaderOf(kind, offsets), body);
  }

  /** Everything so described is accepted. */
  lemma DescribedIsAccepted(b: Bytes, r: Request, words: seq<u32>, rest: Bytes)
    requires Describes(b, r, words, rest)
    ensures Decode(b) == Ok((r, rest))
  {
    var body := PlainBody(r.kind, words, r.srv, r.nonc, rest);
    HeadIsPlain(r.kind, r.offsets);
    BodyDecides(r.kind, r.offsets, body, |words|);
    BodyAccepted(r, |words|, words, rest);
  }

  /** Which byte strings are requests, and of what value. */
  lemma DecodesExactly(b: Bytes, r: Request, rest: Bytes)
    ensures Decode(b) == Ok((r, rest)) <==> exists words :: Describes(b, r, words, rest)
  {
    if Decode(b) == Ok((r, rest)) {
      var words := AcceptedIsDescribed(b, r, rest);
    }
    if words :| Describes(b, r, words, rest) {
      DescribedIsAccepted(b, r, words, rest);
    }
  }

  lemma OtherTypeRefusesBody(r: Request, count: nat, words: seq<u32>, word: u32, rest: Bytes)
    requires |words| == count <= MAX_VERSIONS && Announces(words, r.ver) && |r.srv| == r.kind.SrvSize() && r.kind != Draft08 && word != 0
    ensures var result := DecodeBody(WordsOf(words) + (r.srv + (r.nonc + (Word(word) + rest))), r.kind, r.offsets, count);
            result.Err? && (word == 1 ==> result == Err(InvalidMessageType(1)))
  {
    var b4 := Word(word) + rest;
    var b3 := r.nonc + b4;
    var b2 := r.srv + b3;
    VersionsExactly(WordsOf(words) + b2, count, words, r.ver, b2);
    TakeFront(r.srv, b3);
    TakeFront(r.nonc, b4);
    LEIsWord(word);
    TakeFrontU32(word, rest);
  }

  /** A message that is a request but for its TYPE word is refused, with that word where it is the one of responses. */
  lemma OtherTypeIsRefused(b: Bytes, r: Request, words: seq<u32>, word: u32, rest: Bytes)
    requires |b| == 1012 && r.Sized() && r.kind != Draft08 && word != 0
    requires b == PlainHeader(r.offsets, Names(r.kind)) + (WordsOf(words) + (r.srv + (r.nonc + (Word(word) + rest))))
    requires WellPlaced(r.offsets, 1012 - 8 * |Names(r.kind)|)
    requires |words| == (if r.offsets[0] / 4 < 32 then r.offsets[0] / 4 else 32) && Announces(words, r.ver)
    ensures Decode(b).Err? && (word == 1 ==> Decode(b) == Err(InvalidMessageType(1)))
  {
    var body := WordsOf(words) + (r.srv + (r.nonc + (Word(word) + rest)));
    HeadIsPlain(r.kind, r.offsets);
    BodyDecides(r.kind, r.offsets, body, |words|);
    OtherTypeRefusesBody(r, |words|, words, word, rest);
  }

  /** The same on frames, where all of this begins behind twelve bytes. */
  lemma FrameDecodesExactly(b: Bytes, r: Request, rest: Bytes)
    ensures FromFrame(b) == Ok((r, rest)) <==>
            && |b| == 1024 && IsFrame(b)
            && (exists words :: Describes(b[12..], r, words, rest))
  {
    UnframesExactly(b);
    if |b| == 1024 {
      DecodesExactly(b[12..], r, rest);
    }
  }

  // ---- What is sent --------------------------------------------------------------------------------------

  /** The frame of a new request: one version word, values, zeros up to 1024 bytes. */
  function PlainFresh(kind: Kind, offsets: seq<u32>, word: u32, values: Bytes, padding: nat): Bytes {
    Ascii("ROUGHTIM") + (Word(1012) + (PlainHeader(offsets, Names(kind)) + (Word(word) + (values + Zeros(padding)))))
  }

  lemma FreshParts(kind: Kind, srv: Bytes, nonc: Bytes32)
    requires |srv| == kind.SrvSize()
    ensures ToFrame(Fresh(kind, srv, nonc)) ==
            PlainFresh(kind, kind.FreshOffsets(), if kind.Draft08? then 0x80000008 else 0x8000000c, srv + (nonc + TypeWord(kind)), kind.Padding())
  {
    var r := Fresh(kind, srv, nonc);
    var zeros := Zeros(kind.Padding());
    HeadIsPlain(kind, r.offsets);
    VersionsArePlain(r.ver);
    OneVersionWritten(r.ver[0]);
    ResponseTypeIsPlain();
    FrameIsPlain(Encode(r));
    Follow3(srv, nonc, TypeWord(kind), zeros);
  }

  /** What clients send, byte by byte. */
  lemma FreshIsPlain(nonc: Bytes32, srv: Bytes32)
    ensures ToFrame(NewDraft08(nonc)) == PlainFresh(Draft08, [4, 36], 0x80000008, nonc, 952)
    ensures ToFrame(NewDraft14(nonc)) == PlainFresh(Draft14, [4, 36, 40], 0x8000000c, nonc + [0, 0, 0, 0], 940)
    ensures ToFrame(NewDraft14Srv(nonc, srv)) == PlainFresh(Draft14Srv, [4, 36, 68, 72], 0x8000000c, srv + (nonc + [0, 0, 0, 0]), 900)
  {
    hide PlainFresh;
    FreshParts(Draft08, [], nonc);
    FreshParts(Draft14, [], nonc);
    FreshParts(Draft14Srv, srv, nonc);
    assert [] + (nonc + []) == nonc && [] + (nonc + [0, 0, 0, 0]) == nonc + [0, 0, 0, 0];
  }
}
