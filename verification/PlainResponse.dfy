/** Which byte strings are accepted as responses, and as what. */
module PlainResponses {
  import opened Wrappers
  import opened Primitives
  import opened Cursors
  import opened Versions
  import opened WordLists
  import opened MerklePaths
  import opened Certificates
  import opened PlainWire
  import Headers
  import Frames
  import SR = SignedResponses
  import LSR = LegacySignedResponses
  import R = Responses
  import LR = LegacyResponses
  import ResponseFrames
  import LegacyResponseFrames

  /** Lengths are compared as 32-bit words. */
  function Cut(length: nat): u32 { length % 0x1_0000_0000 }

  // ---- Signed responses of draft-14 ----------------------------------------------------------------------

  /** The values behind the header, with the version words as they were sent. */
  function SrepValues(s: SR.SignedResponse, word: u32, words: seq<u32>, rest: Bytes): Bytes {
    Word(word) + (Word(s.radi) + (Long(s.midp) + (WordsOf(words) + (s.root + rest))))
  }

  /** Versions that were sent with these words, as many as the offset of ROOT says, but no more than 32. */
  ghost predicate SentWith(s: SR.SignedResponse, word: u32, words: seq<u32>) {
    && Meaning(word) == Some(s.ver) && Announces(words, s.vers)
    && s.rootOffset > 16 && s.rootOffset % 4 == 0
    && |words| == (if (s.rootOffset - 16) / 4 < 32 then (s.rootOffset - 16) / 4 else 32)
  }

  ghost predicate DescribesSrep(b: Bytes, s: SR.SignedResponse, word: u32, words: seq<u32>, rest: Bytes) {
    && SentWith(s, word, words)
    && b == PlainHeader([4, 8, 16, s.rootOffset], SREP_NAMES) + SrepValues(s, word, words, rest)
    && s.rootOffset <= Cut(|SrepValues(s, word, words, rest)|)
  }

  lemma SrepHeadIsPlain(rootOffset: u32)
    ensures SR.EncodeHead(rootOffset) == PlainHeader([4, 8, 16, rootOffset], SREP_NAMES)
  {
    SrepNamesSpelled();
    HeaderIsPlain(SR.SrepHeader(rootOffset), SREP_NAMES);
  }

  lemma VersionExactly(b: Bytes, word: u32, v: ProtocolVersion, rest: Bytes)
    requires b == Word(word) + rest
    ensures DecodeVersion(b) == Ok((v, rest)) <==> Meaning(word) == Some(v)
    ensures |b| >= 4 && b[4..] == rest && TakeU32(b).value.0 == word
  {
    LEIsWord(word);
    TakeFrontU32(word, rest);
  }

  lemma VersionDescribed(b: Bytes) returns (word: u32)
    requires DecodeVersion(b).Ok?
    ensures b == Word(word) + DecodeVersion(b).value.1 && Meaning(word) == Some(DecodeVersion(b).value.0)
  {
    word := TakeU32(b).value.0;
    WordsReprint(b);
    LEIsWord(word);
  }

  lemma VersionsDescribed(b: Bytes, count: nat) returns (words: seq<u32>)
    requires count <= MAX_VERSIONS && DecodeVersions(b, count).Ok?
    ensures var (ver, rest) := DecodeVersions(b, count).value;
            |words| == count && Announces(words, ver) && b == WordsOf(words) + rest && words == VersionWords(b, count)
  {
    words := VersionWords(b, count);
    WordsPrint(b, count);
    VersionsAreWords(words);
    WordsAnnounce(words, DecodeVersions(b, count).value.0);
  }

  lemma WordDescribed(b: Bytes)
    ensures |b| >= 4 ==> b == Word(TakeU32(b).value.0) + b[4..]
    ensures |b| >= 8 ==> b == Long(TakeU64(b).value.0) + b[8..]
  {
    WordsReprint(b);
    if |b| >= 4 {
      LEIsWord(TakeU32(b).value.0);
    }
    if |b| >= 8 {
      LEIsLong(TakeU64(b).value.0);
    }
  }

  lemma SrepBodyDescribed(b1: Bytes, rootOffset: u32, s: SR.SignedResponse, rest: Bytes) returns (word: u32, words: seq<u32>)
    requires rootOffset > 16 && rootOffset % 4 == 0 && SR.DecodeBody(b1, rootOffset) == Ok((s, rest))
    ensures s.rootOffset == rootOffset && SentWith(s, word, words) && b1 == SrepValues(s, word, words, rest)
    ensures |b1| >= 16 && (SR.BodyLegacyFree(b1, rootOffset) <==> word != 0 && 0 !in words)
  {
    hide Word, Long, WordsOf, Announces, Meaning, DecodeVersion, DecodeVersions, VersionWords;
    word := VersionDescribed(b1);
    var b2 := DecodeVersion(b1).value.1;
    var b3 := TakeU32(b2).value.1;
    var b4 := TakeU64(b3).value.1;
    VersionExactly(b1, word, s.ver, b2);
    WordDescribed(b2);
    WordDescribed(b3);
    words := VersionsDescribed(b4, VersionCount(rootOffset - 16));
  }

  lemma SrepBodyAccepted(s: SR.SignedResponse, word: u32, words: seq<u32>, rest: Bytes)
    requires SentWith(s, word, words)
    ensures SR.DecodeBody(SrepValues(s, word, words, rest), s.rootOffset) == Ok((s, rest))
  {
    var b5 := s.root + rest;
    var b4 := WordsOf(words) + b5;
    var b3 := Long(s.midp) + b4;
    var b2 := Word(s.radi) + b3;
    VersionExactly(Word(word) + b2, word, s.ver, b2);
    LEIsWord(s.radi);
    TakeFrontU32(s.radi, b3);
    LEIsLong(s.midp);
    TakeFrontU64(s.midp, b4);
    VersionsExactly(b4, |words|, words, s.vers, b5);
    TakeFront(s.root, rest);
  }

  lemma SrepIsDescribed(b: Bytes, s: SR.SignedResponse, rest: Bytes) returns (word: u32, words: seq<u32>)
    requires SR.Decode(b) == Ok((s, rest))
    ensures DescribesSrep(b, s, word, words, rest) && (SR.LegacyFree(b) <==> word != 0 && 0 !in words)
  {
    var (rootOffset, body) := SR.DecodeHead(b).value;
    SR.HeadPrintParsed(b);
    SrepHeadIsPlain(rootOffset);
    word, words := SrepBodyDescribed(body, rootOffset, s, rest);
  }

  lemma DescribedSrepIsAccepted(b: Bytes, s: SR.SignedResponse, word: u32, words: seq<u32>, rest: Bytes)
    requires DescribesSrep(b, s, word, words, rest)
    ensures SR.Decode(b) == Ok((s, rest))
  {
    SrepHeadIsPlain(s.rootOffset);
    SR.HeadParsePrinted(s.rootOffset, SrepValues(s, word, words, rest));
    SrepBodyAccepted(s, word, words, rest);
  }

  // ---- Responses of draft-14 --------------------------------------------------------------------------------

  /** What is behind SREP. */
  function Ending(cert: Certificate, indx: u32, rest: Bytes): Bytes {
    PlainCert(cert) + (Word(indx) + rest)
  }

  /** Ordered offsets with room behind the header; those of PATH announce its size. */
  ghost predicate Placed(offsets: seq<u32>, at: nat, nodes: nat, length: nat)
    requires at + 1 < |offsets|
  {
    WellPlaced(offsets, Cut(length)) && offsets[at + 1] - offsets[at] == 32 * nodes
  }

  /** This is a response whose SREP, at `srep`, was sent with these version words. */
  ghost predicate Describes(b: Bytes, r: R.Response, srep: Bytes, word: u32, words: seq<u32>, rest: Bytes) {
    && r.Sized() && DescribesSrep(srep, r.srep, word, words, Ending(r.cert, r.indx, rest))
    && b == PlainHeader(r.offsets, RESPONSE_NAMES) + (r.sig + (r.nonc + ([1, 0, 0, 0] + (PlainPath(r.path) + srep))))
    && |b| >= 56 && Placed(r.offsets, 2, |r.path|, |b| - 56)
  }

  lemma HeadIsPlain(offsets: seq<u32>)
    requires |offsets| == 6
    ensures R.EncodeHead(offsets) == PlainHeader(offsets, RESPONSE_NAMES)
  {
    ResponseNamesSpelled();
    HeaderIsPlain(Headers.Header(offsets, R.RESPONSE_TAGS), RESPONSE_NAMES);
  }

  lemma PlacedExactly(offsets: seq<u32>, nodes: nat, length: nat)
    requires |offsets| == 6
    ensures R.HeadFits(offsets, PathSize(nodes), length) <==> Placed(offsets, 2, nodes, length)
  {
    PathSizeIsProduct(nodes);
  }

  lemma EndingDescribed(b6: Bytes, cert: Certificate, indx: u32, b7: Bytes, rest: Bytes)
    requires DecodeCert(b6) == Ok((cert, b7)) && TakeU32(b7) == Ok((indx, rest))
    ensures b6 == Ending(cert, indx, rest)
  {
    CertPrintParsed(b6);
    CertIsPlain(cert);
    WordsReprint(b7);
    LEIsWord(indx);
  }

  lemma EndingAccepted(cert: Certificate, indx: u32, rest: Bytes)
    ensures DecodeCert(Ending(cert, indx, rest)) == Ok((cert, Word(indx) + rest))
    ensures TakeU32(Word(indx) + rest) == Ok((indx, rest))
  {
    CertIsPlain(cert);
    CertParsePrinted(cert, Word(indx) + rest);
    LEIsWord(indx);
    TakeFrontU32(indx, rest);
  }

  /** Every accepted message is described, and what is sent as zero in it is as `LegacyFree` says. */
  lemma AcceptedIsDescribed(b: Bytes, r: R.Response, rest: Bytes) returns (srep: Bytes, word: u32, words: seq<u32>)
    requires R.Decode(b) == Ok((r, rest))
    ensures Describes(b, r, srep, word, words, rest) && (R.LegacyFree(b) <==> word != 0 && 0 !in words)
  {
    hide DescribesSrep, Ending, PlainPath, R.BodyLegacyFree, R.DecodeBody;
    var (h, body) := Headers.Decode(b, 7).value;
    Headers.DecodedFacts(b, 7);
    var pathLen := R.CheckHead(h, |body|).value;
    R.CheckHeadExact(h, |body|, pathLen);
    Headers.PrintParsed(b, 7);
    HeadIsPlain(h.offsets);
    srep, word, words := BodyDescribed(body, h.offsets, pathLen, r, rest);
    PlacedExactly(r.offsets, |r.path|, |body|);
  }

  lemma BodyDescribed(b1: Bytes, offsets: seq<u32>, pathLen: nat, r: R.Response, rest: Bytes) returns (srep: Bytes, word: u32, words: seq<u32>)
    requires R.DecodeBody(b1, offsets, pathLen) == Ok((r, rest))
    ensures r.offsets == offsets && PathSize(|r.path|) == pathLen
    ensures b1 == r.sig + (r.nonc + ([1, 0, 0, 0] + (PlainPath(r.path) + srep)))
    ensures DescribesSrep(srep, r.srep, word, words, Ending(r.cert, r.indx, rest))
    ensures R.BodyLegacyFree(b1, offsets, pathLen) <==> word != 0 && 0 !in words
  {
    hide DescribesSrep;
    var b2 := Take(b1, 64).value.1;
    var b3 := Take(b2, 32).value.1;
    var b4 := R.DecodeResponseType(b3).value.1;
    srep := TakePath(b4, pathLen).value.1;
    var b6 := SR.Decode(srep).value.1;
    var b7 := DecodeCert(b6).value.1;
    R.FrontPieces(r, b1, b2, b3, b4, srep, pathLen);
    ResponseTypeIsPlain();
    PathIsPlain(r.path);
    EndingDescribed(b6, r.cert, r.indx, b7, rest);
    word, words := SrepIsDescribed(srep, r.srep, b6);
  }

  lemma BodyAccepted(r: R.Response, pathLen: nat, srep: Bytes, rest: Bytes)
    requires pathLen == PathSize(|r.path|) && SR.Decode(srep) == Ok((r.srep, Ending(r.cert, r.indx, rest)))
    ensures R.DecodeBody(r.sig + (r.nonc + ([1, 0, 0, 0] + (PlainPath(r.path) + srep))), r.offsets, pathLen) == Ok((r, rest))
  {
    var b4 := PlainPath(r.path) + srep;
    var b3 := [1, 0, 0, 0] + b4;
    var b2 := r.nonc + b3;
    TakeFront(r.sig, b2);
    TakeFront(r.nonc, b3);
    ResponseTypeIsPlain();
    TypeRoundTrip(MessageType.Response, b4, []);
    PathIsPlain(r.path);
    PathParsePrinted(r.path, pathLen, srep);
    EndingAccepted(r.cert, r.indx, rest);
  }

  lemma DescribedIsAccepted(b: Bytes, r: R.Response, srep: Bytes, word: u32, words: seq<u32>, rest: Bytes)
    requires Describes(b, r, srep, word, words, rest)
    ensures R.Decode(b) == Ok((r, rest))
  {
    hide DescribesSrep, Ending, PlainPath, SR.Decode, R.DecodeBody, Headers.Decode, R.HeadFits;
    var body := r.sig + (r.nonc + ([1, 0, 0, 0] + (PlainPath(r.path) + srep)));
    HeadIsPlain(r.offsets);
    PlacedExactly(r.offsets, |r.path|, |body|);
    R.HeadParsePrinted(r.offsets, PathSize(|r.path|), body);
    DescribedSrepIsAccepted(srep, r.srep, word, words, Ending(r.cert, r.indx, rest));
    BodyAccepted(r, PathSize(|r.path|), srep, rest);
  }

  /** Which byte strings are draft-14 responses, and of what value. */
  lemma DecodesExactly(b: Bytes, r: R.Response, rest: Bytes)
    ensures R.Decode(b) == Ok((r, rest)) <==> exists srep, word: u32, words :: Describes(b, r, srep, word, words, rest)
  {
    hide R.Decode, Describes;
    if R.Decode(b) == Ok((r, rest)) {
      var srep, word, words := AcceptedIsDescribed(b, r, rest);
    }
    if srep, word: u32, words :| Describes(b, r, srep, word, words, rest) {
      DescribedIsAccepted(b, r, srep, word, words, rest);
    }
  }

  /** The same on frames. */
  lemma FrameDecodesExactly(b: Bytes, r: R.Response, rest: Bytes)
    ensures ResponseFrames.FromFrame(b) == Ok((r, rest)) <==>
            IsFrame(b) && exists srep, word: u32, words :: Describes(b[12..], r, srep, word, words, rest)
  {
    hide R.Decode, Describes;
    UnframesExactly(b);
    if IsFrame(b) {
      DecodesExactly(b[12..], r, rest);
    }
  }

  // ---- Responses of draft-08 ----------------------------------------------------------------------------------

  function LegacyValues(r: LR.Response, word: u32, rest: Bytes): Bytes {
    r.sig + (Word(word) + (PlainPath(r.path) + (PlainLegacySrep(r.srep) + Ending(r.cert, r.indx, rest))))
  }

  /** Two offsets in order, with room behind the header of SREP; nothing says that they are those of the layout. */
  ghost predicate LegacySrepPlaced(s: LSR.SignedResponse, length: nat) {
    WellPlaced([s.midpOffset, s.rootOffset], Cut(length))
  }

  ghost predicate LegacyDescribes(b: Bytes, r: LR.Response, word: u32, rest: Bytes) {
    && r.Sized() && Meaning(word) == Some(r.ver)
    && b == PlainHeader(r.offsets, LEGACY_RESPONSE_NAMES) + LegacyValues(r, word, rest)
    && Placed(r.offsets, 1, |r.path|, |LegacyValues(r, word, rest)|)
    && LegacySrepPlaced(r.srep, 44 + |Ending(r.cert, r.indx, rest)|)
  }

  lemma LegacyHeadIsPlain(offsets: seq<u32>)
    requires |offsets| == 5
    ensures LR.EncodeHead(offsets) == PlainHeader(offsets, LEGACY_RESPONSE_NAMES)
  {
    LegacyResponseNamesSpelled();
    HeaderIsPlain(Headers.Header(offsets, LR.RESPONSE_TAGS), LEGACY_RESPONSE_NAMES);
  }

  lemma LegacyPlacedExactly(offsets: seq<u32>, nodes: nat, length: nat)
    requires |offsets| == 5
    ensures LR.HeadFits(offsets, PathSize(nodes), length) <==> Placed(offsets, 1, nodes, length)
  {
    PathSizeIsProduct(nodes);
  }

  lemma LegacySrepPlacedExactly(s: LSR.SignedResponse, extra: nat)
    ensures LSR.Coherent(s, extra) <==> LegacySrepPlaced(s, 44 + extra)
  {
    var offsets := [s.midpOffset, s.rootOffset];
    assert offsets[0] == s.midpOffset && offsets[1] == s.rootOffset;
  }

  lemma LegacyBodyDescribed(b1: Bytes, offsets: seq<u32>, pathLen: nat, r: LR.Response, rest: Bytes) returns (word: u32)
    requires LR.DecodeBody(b1, offsets, pathLen) == Ok((r, rest))
    ensures r.offsets == offsets && PathSize(|r.path|) == pathLen && Meaning(word) == Some(r.ver)
    ensures b1 == LegacyValues(r, word, rest) && LegacySrepPlaced(r.srep, 44 + |Ending(r.cert, r.indx, rest)|)
    ensures LR.BodyLegacyFree(b1) <==> word != 0
  {
    var b2 := Take(b1, 64).value.1;
    var b3 := DecodeVersion(b2).value.1;
    var b4 := TakePath(b3, pathLen).value.1;
    var b5 := LSR.Decode(b4).value.1;
    var b6 := DecodeCert(b5).value.1;
    LR.FrontPieces(r, b1, b2, b3, b4, pathLen);
    word := VersionDescribed(b2);
    VersionExactly(b2, word, r.ver, b3);
    PathIsPlain(r.path);
    LSR.PrintParsed(b4);
    LegacySrepIsPlain(r.srep);
    LegacySrepPlacedExactly(r.srep, |b5|);
    EndingDescribed(b5, r.cert, r.indx, b6, rest);
  }

  lemma LegacyBodyAccepted(r: LR.Response, pathLen: nat, word: u32, rest: Bytes)
    requires pathLen == PathSize(|r.path|) && Meaning(word) == Some(r.ver)
    requires LegacySrepPlaced(r.srep, 44 + |Ending(r.cert, r.indx, rest)|)
    ensures LR.DecodeBody(LegacyValues(r, word, rest), r.offsets, pathLen) == Ok((r, rest))
  {
    var b5 := Ending(r.cert, r.indx, rest);
    var b4 := PlainLegacySrep(r.srep) + b5;
    var b3 := PlainPath(r.path) + b4;
    var b2 := Word(word) + b3;
    TakeFront(r.sig, b2);
    VersionExactly(b2, word, r.ver, b3);
    PathIsPlain(r.path);
    PathParsePrinted(r.path, pathLen, b4);
    LegacySrepIsPlain(r.srep);
    LegacySrepPlacedExactly(r.srep, |b5|);
    LSR.ParsePrinted(r.srep, b5);
    EndingAccepted(r.cert, r.indx, rest);
  }

  lemma LegacyHeadDescribed(b: Bytes) returns (offsets: seq<u32>, pathLen: nat, body: Bytes)
    requires LR.Decode(b).Ok?
    ensures |offsets| == 5 && b == PlainHeader(offsets, LEGACY_RESPONSE_NAMES) + body && LR.HeadFits(offsets, pathLen, |body|)
    ensures LR.Decode(b) == LR.DecodeBody(body, offsets, pathLen) && (LR.LegacyFree(b) <==> LR.BodyLegacyFree(body))
  {
    hide LR.BodyLegacyFree, LR.DecodeBody;
    var h := Headers.Decode(b, 6).value.0;
    body := Headers.Decode(b, 6).value.1;
    Headers.DecodedFacts(b, 6);
    offsets := h.offsets;
    pathLen := LR.CheckHead(h, |body|).value;
    LR.CheckHeadExact(h, |body|, pathLen);
    Headers.PrintParsed(b, 6);
    LegacyHeadIsPlain(offsets);
  }

  lemma LegacyAcceptedIsDescribed(b: Bytes, r: LR.Response, rest: Bytes) returns (word: u32)
    requires LR.Decode(b) == Ok((r, rest))
    ensures LegacyDescribes(b, r, word, rest) && (LR.LegacyFree(b) <==> word != 0)
  {
    hide LegacyValues, LegacySrepPlaced, LR.Decode, LR.DecodeBody, LR.LegacyFree, LR.BodyLegacyFree, LR.HeadFits;
    var offsets, pathLen, body := LegacyHeadDescribed(b);
    word := LegacyBodyDescribed(body, offsets, pathLen, r, rest);
    LegacyPlacedExactly(r.offsets, |r.path|, |body|);
  }

  lemma LegacyDescribedIsAccepted(b: Bytes, r: LR.Response, word: u32, rest: Bytes)
    requires LegacyDescribes(b, r, word, rest)
    ensures LR.Decode(b) == Ok((r, rest))
  {
    hide LegacyValues, LegacySrepPlaced, LR.DecodeBody, Headers.Decode;
    var body := LegacyValues(r, word, rest);
    LegacyHeadIsPlain(r.offsets);
    LegacyPlacedExactly(r.offsets, |r.path|, |body|);
    LR.HeadParsePrinted(r.offsets, PathSize(|r.path|), body);
    LegacyBodyAccepted(r, PathSize(|r.path|), word, rest);
  }

  /** Which byte strings are draft-08 responses, and of what value. */
  lemma LegacyDecodesExactly(b: Bytes, r: LR.Response, rest: Bytes)
    ensures LR.Decode(b) == Ok((r, rest)) <==> exists word: u32 :: LegacyDescribes(b, r, word, rest)
  {
    hide LR.Decode, LegacyDescribes;
    if LR.Decode(b) == Ok((r, rest)) {
      var word := LegacyAcceptedIsDescribed(b, r, rest);
    }
    if word: u32 :| LegacyDescribes(b, r, word, rest) {
      LegacyDescribedIsAccepted(b, r, word, rest);
    }
  }

  lemma LegacyFrameDecodesExactly(b: Bytes, r: LR.Response, rest: Bytes)
    ensures LegacyResponseFrames.FromFrame(b) == Ok((r, rest)) <==>
            IsFrame(b) && exists word: u32 :: LegacyDescribes(b[12..], r, word, rest)
  {
    hide LR.Decode, LegacyDescribes;
    UnframesExactly(b);
    if IsFrame(b) {
      LegacyDecodesExactly(b[12..], r, rest);
    }
  }
}
