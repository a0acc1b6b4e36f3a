/**
  Every message as the byte string that the protocol describes, written without the codec: the
  letters of the tags, words byte by byte, and the values in the order in which the offsets count
  them. The printers of the codec are proved equal to these; with the round trips of each message
  that fixes the parsers too.
*/
module PlainWire {
  import opened Wrappers
  import opened Primitives
  import opened Cursors
  import opened Tags
  import opened Versions
  import opened WordLists
  import opened MerkleSpec
  import opened MerklePaths
  import opened Certificates
  import Headers
  import SR = SignedResponses
  import LSR = LegacySignedResponses
  import R = Responses
  import LR = LegacyResponses
  import Frames

  function WordsOf(words: seq<u32>): Bytes {
    if words == [] then [] else Word(words[0]) + WordsOf(words[1..])
  }

  function Letters(names: seq<string>): Bytes {
    if names == [] then [] else Ascii(names[0]) + Letters(names[1..])
  }

  /** How many tags, where the values lie, what they are. */
  function PlainHeader(offsets: seq<u32>, names: seq<string>): Bytes
    requires |names| < 0x1_0000_0000
  {
    Word(|names|) + (WordsOf(offsets) + Letters(names))
  }

  ghost predicate AllSpelled(tags: seq<Tag>, names: seq<string>) {
    |tags| == |names| && forall i :: 0 <= i < |tags| ==> Spelled(tags[i], names[i])
  }

  lemma {:induction false} TagsAreLetters(tags: seq<Tag>, names: seq<string>)
    requires AllSpelled(tags, names)
    ensures Print(Headers.TAGS, tags) == Letters(names)
  {
    if tags != [] {
      WireIsName(tags[0], names[0]);
      assert AllSpelled(tags[1..], names[1..]);
      TagsAreLetters(tags[1..], names[1..]);
    }
  }

  lemma {:induction false} OffsetsAreWords(offsets: seq<u32>)
    ensures Print(Headers.OFFSETS, offsets) == WordsOf(offsets)
  {
    if offsets != [] {
      LEIsWord(offsets[0]);
      OffsetsAreWords(offsets[1..]);
    }
  }

  lemma {:induction false} VersionsAreWords(words: seq<u32>)
    ensures Print(VERSIONS, words) == WordsOf(words)
  {
    if words != [] {
      LEIsWord(words[0]);
      VersionsAreWords(words[1..]);
    }
  }

  /** A printed header, of any number of tags. */
  lemma HeaderIsPlain(h: Headers.Header, names: seq<string>)
    requires AllSpelled(h.tags, names) && |names| < 0x1_0000_0000
    ensures Headers.Encode(h) == PlainHeader(h.offsets, names)
  {
    LEIsWord(|names|);
    OffsetsAreWords(h.offsets);
    TagsAreLetters(h.tags, names);
  }

  // ---- Delegation and certificate ------------------------------------------------------------------

  const DELE_NAMES: seq<string> := ["PUBK", "MINT", "MAXT"]
  const CERT_NAMES: seq<string> := ["SIG\0", "DELE"]

  function PlainDele(d: Delegation): Bytes {
    PlainHeader([32, 40], DELE_NAMES) + (d.pubk + (Long(d.mint) + Long(d.maxt)))
  }

  function PlainCert(c: Certificate): Bytes {
    PlainHeader([64], CERT_NAMES) + (c.sig + PlainDele(c.dele))
  }

  lemma CertNamesSpelled()
    ensures AllSpelled(DELE_TAGS, DELE_NAMES) && AllSpelled(CERT_TAGS, CERT_NAMES)
  {
    TagNames();
    MoreTagNames();
  }

  lemma DeleIsPlain(d: Delegation)
    ensures EncodeDele(d) == PlainDele(d)
  {
    CertNamesSpelled();
    HeaderIsPlain(DeleHeader(), DELE_NAMES);
    LEIsLong(d.mint);
    LEIsLong(d.maxt);
  }

  lemma CertIsPlain(c: Certificate)
    ensures EncodeCert(c) == PlainCert(c)
  {
    CertNamesSpelled();
    HeaderIsPlain(CertHeader(), CERT_NAMES);
    DeleIsPlain(c.dele);
  }

  // ---- Signed responses ------------------------------------------------------------------------------

  const SREP_NAMES: seq<string> := ["VER\0", "RADI", "MIDP", "VERS", "ROOT"]
  const LEGACY_SREP_NAMES: seq<string> := ["RADI", "MIDP", "ROOT"]

  function PlainNumber(v: ProtocolVersion): u32 {
    if v == RfcDraft08 then 0x80000008 else 0x8000000c
  }

  function PlainVersions(vs: seq<ProtocolVersion>): Bytes {
    if vs == [] then [] else Word(PlainNumber(vs[0])) + PlainVersions(vs[1..])
  }

  function PlainSrep(s: SR.SignedResponse): Bytes {
    PlainHeader([4, 8, 16, s.rootOffset], SREP_NAMES) +
    (Word(PlainNumber(s.ver)) + (Word(s.radi) + (Long(s.midp) + (PlainVersions(s.vers) + s.root))))
  }

  function PlainLegacySrep(s: LSR.SignedResponse): Bytes {
    PlainHeader([s.midpOffset, s.rootOffset], LEGACY_SREP_NAMES) + (Word(s.radi) + (Long(s.midp) + s.root))
  }

  lemma SrepNamesSpelled()
    ensures AllSpelled(SR.SREP_TAGS, SREP_NAMES) && AllSpelled(LSR.SREP_TAGS, LEGACY_SREP_NAMES)
  {
    TagNames();
    MoreTagNames();
  }

  lemma VersionIsPlain(v: ProtocolVersion)
    ensures EncodeVersion(v) == Word(PlainNumber(v))
  {
    LEIsWord(v.Number());
  }

  lemma {:induction false} VersionsArePlain(vs: seq<ProtocolVersion>)
    ensures EncodeVersions(vs) == PlainVersions(vs)
  {
    if vs != [] {
      VersionIsPlain(vs[0]);
      VersionsArePlain(vs[1..]);
      assert Numbers(vs)[1..] == Numbers(vs[1..]);
    }
  }

  lemma OneVersionWritten(v: ProtocolVersion)
    ensures PlainVersions([v]) == Word(PlainNumber(v))
  {
    assert [v][1..] == [] && Word(PlainNumber(v)) + [] == Word(PlainNumber(v));
  }

  lemma SrepIsPlain(s: SR.SignedResponse)
    ensures SR.Encode(s) == PlainSrep(s)
  {
    SrepNamesSpelled();
    HeaderIsPlain(SR.SrepHeader(s.rootOffset), SREP_NAMES);
    VersionIsPlain(s.ver);
    LEIsWord(s.radi);
    LEIsLong(s.midp);
    VersionsArePlain(s.vers);
  }

  lemma LegacySrepIsPlain(s: LSR.SignedResponse)
    ensures LSR.Encode(s) == PlainLegacySrep(s)
  {
    SrepNamesSpelled();
    HeaderIsPlain(LSR.SrepHeader(s.midpOffset, s.rootOffset), LEGACY_SREP_NAMES);
    LEIsWord(s.radi);
    LEIsLong(s.midp);
  }

  // ---- Versions as they may be sent --------------------------------------------------------------------

  /** The version a version word stands for, if any; zero is an old number of draft-08. */
  function Meaning(word: u32): Option<ProtocolVersion> {
    if word == 0 || word == 0x80000008 then Some(RfcDraft08)
    else if word == 0x8000000c then Some(RfcDraft14)
    else None
  }

  /** The words are those of the versions, which ascend. */
  ghost predicate Announces(words: seq<u32>, ver: seq<ProtocolVersion>) {
    && |words| == |ver|
    && (forall i :: 0 <= i < |words| ==> Meaning(words[i]) == Some(ver[i]))
    && (forall i, j :: 0 <= i < j < |ver| ==> PlainNumber(ver[i]) <= PlainNumber(ver[j]))
  }

  /** Multiples of four that never decrease, with room for the values behind a header of n tags. */
  ghost predicate WellPlaced(offsets: seq<u32>, length: nat) {
    && |offsets| > 0
    && (forall i :: 0 <= i < |offsets| ==> offsets[i] % 4 == 0)
    && (forall i :: 0 <= i < |offsets| - 1 ==> offsets[i] <= offsets[i + 1])
    && offsets[|offsets| - 1] <= length
  }

  lemma WordsAnnounce(words: seq<u32>, ver: seq<ProtocolVersion>)
    ensures Announces(words, ver) <==> InOrder(words, WordValid, WordOrder) && ver == CanonAll(words)
  {
    if InOrder(words, WordValid, WordOrder) && ver == CanonAll(words) {
      forall i, j | 0 <= i < j < |ver|
        ensures PlainNumber(ver[i]) <= PlainNumber(ver[j])
      {
        assert WordOrder(words[i], words[j]);
      }
    }
    if Announces(words, ver) {
      forall i, j | 0 <= i < j < |words|
        ensures WordOrder(words[i], words[j])
      {
        assert PlainNumber(ver[i]) <= PlainNumber(ver[j]);
      }
    }
  }

  lemma VersionsExactly(b: Bytes, count: nat, words: seq<u32>, ver: VersionList, rest: Bytes)
    requires |words| == count <= MAX_VERSIONS && b == WordsOf(words) + rest
    ensures DecodeVersions(b, count) == Ok((ver, rest)) <==> Announces(words, ver)
  {
    VersionsAreWords(words);
    WordsParse(words, rest);
    WordsAnnounce(words, ver);
  }

  // ---- Responses -----------------------------------------------------------------------------------------

  const RESPONSE_NAMES: seq<string> := ["SIG\0", "NONC", "TYPE", "PATH", "SREP", "CERT", "INDX"]
  const LEGACY_RESPONSE_NAMES: seq<string> := ["SIG\0", "VER\0", "PATH", "SREP", "CERT", "INDX"]

  function PlainPath(path: seq<Hash>): Bytes {
    if path == [] then [] else path[0].bytes + PlainPath(path[1..])
  }

  function PlainResponse(r: R.Response): Bytes {
    PlainHeader(r.offsets, RESPONSE_NAMES) +
    (r.sig + (r.nonc + ([1, 0, 0, 0] + (PlainPath(r.path) + (PlainSrep(r.srep) + (PlainCert(r.cert) + Word(r.indx)))))))
  }

  function PlainLegacyResponse(r: LR.Response): Bytes {
    PlainHeader(r.offsets, LEGACY_RESPONSE_NAMES) +
    (r.sig + (Word(PlainNumber(r.ver)) + (PlainPath(r.path) + (PlainLegacySrep(r.srep) + (PlainCert(r.cert) + Word(r.indx))))))
  }

  lemma ResponseNamesSpelled()
    ensures AllSpelled(R.RESPONSE_TAGS, RESPONSE_NAMES)
  {
    TagNames();
    MoreTagNames();
  }

  lemma LegacyResponseNamesSpelled()
    ensures AllSpelled(LR.RESPONSE_TAGS, LEGACY_RESPONSE_NAMES)
  {
    TagNames();
    MoreTagNames();
  }

  lemma {:induction false} PathIsPlain(path: seq<Hash>)
    ensures EncodePath(path) == PlainPath(path)
  {
    if path != [] {
      PathIsPlain(path[1..]);
    }
  }

  lemma ResponseTypeIsPlain()
    ensures EncodeType(MessageType.Response) == [1, 0, 0, 0] && EncodeType(MessageType.Request) == [0, 0, 0, 0]
  {
    LEIsWord(0);
    LEIsWord(1);
  }

  lemma ResponseIsPlain(r: R.Response)
    requires r.Sized()
    ensures R.Encode(r) == PlainResponse(r)
  {
    ResponseNamesSpelled();
    HeaderIsPlain(Headers.Header(r.offsets, R.RESPONSE_TAGS), RESPONSE_NAMES);
    ResponseTypeIsPlain();
    PathIsPlain(r.path);
    SrepIsPlain(r.srep);
    CertIsPlain(r.cert);
    LEIsWord(r.indx);
  }

  lemma LegacyResponseIsPlain(r: LR.Response)
    requires r.Sized()
    ensures LR.Encode(r) == PlainLegacyResponse(r)
  {
    LegacyResponseNamesSpelled();
    HeaderIsPlain(Headers.Header(r.offsets, LR.RESPONSE_TAGS), LEGACY_RESPONSE_NAMES);
    VersionIsPlain(r.ver);
    PathIsPlain(r.path);
    LegacySrepIsPlain(r.srep);
    CertIsPlain(r.cert);
    LEIsWord(r.indx);
  }

  // ---- Frames ----------------------------------------------------------------------------------------------

  /** Eight letters, the length, the message. */
  function PlainFrame(message: Bytes): Bytes
    requires |message| < 0x1_0000_0000
  {
    Ascii("ROUGHTIM") + (Word(|message|) + message)
  }

  lemma FrameIsPlain(message: Bytes)
    requires |message| < 0x1_0000_0000
    ensures Frames.Framed(message) == PlainFrame(message)
  {
    LEIsWord(|message|);
    MagicIsLetters();
  }

  lemma MagicIsLetters()
    ensures BE(Frames.FRAME_MAGIC, 8) == Ascii("ROUGHTIM")
  {
    var v: u64 := Frames.FRAME_MAGIC;
    var v1 := v / 256;
    var v2 := v1 / 256;
    var v3 := v2 / 256;
    var v4 := v3 / 256;
    LEStep(v, 7);
    LEStep(v1, 6);
    LEStep(v2, 5);
    LEStep(v3, 4);
    BEIsWord(v4);
    assert v4 == 0x524f5547;
  }

  /** Eight letters, and a length of at least 100 that does not exceed what follows; more may follow. */
  ghost predicate IsFrame(b: Bytes) {
    |b| >= 12 && b[..8] == Ascii("ROUGHTIM") && exists n: u32 :: 100 <= n <= |b| - 12 && b[8..12] == Word(n)
  }

  /** Exactly these are unframed, to everything behind the length. */
  lemma UnframesExactly(b: Bytes)
    ensures Frames.Unframe(b).Ok? <==> IsFrame(b)
    ensures IsFrame(b) ==> Frames.Unframe(b) == Ok(b[12..])
  {
    if |b| >= 12 {
      FrameHeadExactly(b, TakeU64BE(b).value.0, TakeU32(b[8..]).value.0);
      if Frames.Unframe(b).Ok? {
        Frames.FrameUnframed(b);
      }
    }
  }

  lemma FrameHeadExactly(b: Bytes, magic: u64, length: u32)
    requires |b| >= 12 && magic == TakeU64BE(b).value.0 && length == TakeU32(b[8..]).value.0
    ensures Frames.Unframe(b).Ok? <==> magic == Frames.FRAME_MAGIC && 100 <= length <= |b| - 12
    ensures b[..8] == Ascii("ROUGHTIM") <==> magic == Frames.FRAME_MAGIC
    ensures b[8..12] == Word(length) && forall n: u32 :: b[8..12] == Word(n) ==> n == length
  {
    MagicIsLetters();
    WordsReprint(b);
    WordsReprint(b[8..]);
    LEIsWord(length);
    assert b[..8] == BE(magic, 8);
    if magic != Frames.FRAME_MAGIC {
      MagicDiffers(magic);
    }
    forall n: u32 | b[8..12] == Word(n)
      ensures n == length
    {
      LEIsWord(n);
      assert LE(n, 4) == LE(length, 4);
      U32RoundTrip(n);
      U32RoundTrip(length);
    }
  }

  lemma MagicDiffers(magic: u64)
    requires magic != Frames.FRAME_MAGIC
    ensures BE(magic, 8) != BE(Frames.FRAME_MAGIC, 8)
  {
    WordSizes();
    DecodeEncodeBE(magic, 8);
    DecodeEncodeBE(Frames.FRAME_MAGIC, 8);
  }
}
