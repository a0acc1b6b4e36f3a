/** What every requester of a batch is sent, byte by byte, from keys, times and the batch alone. */
module PlainAnswers {
  import opened Wrappers
  import opened Primitives
  import opened Versions
  import opened MerkleSpec
  import opened MerklePaths
  import opened MerkleReference
  import opened Certificates
  import opened Crypto
  import opened OnlineKeys
  import opened Batches
  import opened Service
  import opened WorkerModel
  import opened PlainWire
  import opened PlainValidation
  import E = EndToEnd
  import SR = SignedResponses
  import LSR = LegacySignedResponses
  import R = Responses
  import LR = LegacyResponses
  import ResponseFrames
  import LegacyResponseFrames
  import Frames

  // ---- Keys --------------------------------------------------------------------------------------------

  /** The delegation to an online key, signed by the identity; a window that would end too late ends with time itself. */
  function Delegating(suite: Suite, identity: Bytes32, version: ProtocolVersion, seed: Bytes32, start: u64, length: u64): Certificate {
    var end := start + length;
    var dele := Delegation(suite.publicKey(seed), start, if end < 0x1_0000_0000_0000_0000 then end else 0xffff_ffff_ffff_ffff);
    Certificate(suite.sign(identity, DeleContext(version) + PlainDele(dele)), dele)
  }

  lemma KeyIsPlain(suite: Suite, identity: Bytes32, version: ProtocolVersion, seed: Bytes32, start: u64, length: u64)
    ensures IssueKey(suite, identity, version, seed, start, length) ==
            Key(version, seed, Delegating(suite, identity, version, seed, start, length))
  {
    DeleIsPlain(NewDelegation(suite.publicKey(seed), start, length));
  }

  // ---- Draft-14 -------------------------------------------------------------------------------------------

  function Nodes(proof: seq<Bytes32>): Bytes {
    if proof == [] then [] else proof[0] + Nodes(proof[1..])
  }

  lemma {:induction false} NodesAreWritten(path: seq<Hash>)
    ensures PlainPath(path) == Nodes(Plain(path))
  {
    if path != [] {
      NodesAreWritten(path[1..]);
      assert Plain(path)[1..] == Plain(path[1..]);
    }
  }

  /** Draft-14, five seconds of uncertainty, draft-14 alone supported. */
  function Stamp14(root: Bytes32, now: u64): Bytes {
    PlainHeader([4, 8, 16, 20], SREP_NAMES) + (Word(0x8000000c) + (Word(5) + (Long(now) + (Word(0x8000000c) + root))))
  }

  function Values14(suite: Suite, seed: Bytes32, cert: Certificate, now: u64, root: Bytes32, proof: seq<Bytes32>, nonc: Bytes32, indx: u32): Bytes {
    var srep := Stamp14(root, now);
    suite.sign(seed, SrepContext() + srep) +
    (nonc + ([1, 0, 0, 0] + (Nodes(proof) + (srep + (PlainCert(cert) + Word(indx))))))
  }

  function Answer14(suite: Suite, seed: Bytes32, cert: Certificate, now: u64, root: Bytes32, proof: seq<Bytes32>, nonc: Bytes32, indx: u32): Bytes
    requires |proof| <= 32
  {
    var p := 32 * |proof|;
    Ascii("ROUGHTIM") + (Word(404 + p) +
      (PlainHeader([64, 96, 100, 100 + p, 192 + p, 344 + p], RESPONSE_NAMES) + Values14(suite, seed, cert, now, root, proof, nonc, indx)))
  }

  lemma StampIsPlain(s: SR.SignedResponse, root: Bytes32, now: u64)
    requires s == SR.SignedResponse(RfcDraft14, 5, now, [RfcDraft14], root, 20)
    ensures PlainSrep(s) == SR.Encode(s) == Stamp14(root, now)
  {
    SrepIsPlain(s);
    OneVersionWritten(RfcDraft14);
  }

  lemma ReplyIsAnswer14(suite: Suite, key: Key, root: Bytes32, now: u64, path: Path, nonc: Bytes32, indx: u32)
    requires key.version == RfcDraft14
    ensures ResponseFrames.ToFrame(Reply14(Common14(suite, key, root, now), path, nonc, indx)) ==
            Answer14(suite, key.seed, key.cert, now, root, Plain(path), nonc, indx)
  {
    hide PlainHeader, Word, Nodes, PlainPath, PlainCert, Stamp14, PlainSrep, Reply14, Common14, R.Encode, SR.Encode;
    var r := Reply14(Common14(suite, key, root, now), path, nonc, indx);
    E.Reply14Facts(suite, key, root, now, path, nonc, indx);
    PathSizeIsProduct(|path|);
    StampIsPlain(r.srep, root, now);
    ResponseIsPlain(r);
    FrameIsPlain(R.Encode(r));
    NodesAreWritten(path);
  }

  /** The frame for requester i of any batch. */
  lemma FrameIsAnswer14(suite: Suite, key: Key, leaves: seq<Bytes>, now: u64, nonc: Bytes32, i: nat)
    requires key.version == RfcDraft14 && i < |leaves| < 0x1_0000_0000
    ensures var row := PlainLeaves(suite.digest, leaves);
            var proof := PlainProof(suite.digest, row, i);
            |proof| <= 32 &&
            FrameFor(suite, key, leaves, now, nonc, i) ==
            Answer14(suite, key.seed, key.cert, now, PlainRoot(suite.digest, row), proof, nonc, i)
  {
    hide Answer14;
    BatchRootIsPlain(suite.digest, leaves);
    BatchProofIsPlain(suite.digest, leaves, i);
    ReplyIsAnswer14(suite, key, RootOf(suite, leaves), now, PathTo(suite, leaves, i), nonc, i);
  }

  // ---- Draft-08 -----------------------------------------------------------------------------------------------

  function Stamp08(root: Bytes32, now: u64): Bytes {
    PlainHeader([4, 12], LEGACY_SREP_NAMES) + (Word(5) + (Long(now) + root))
  }

  function Values08(suite: Suite, seed: Bytes32, cert: Certificate, now: u64, root: Bytes32, proof: seq<Bytes32>, indx: u32): Bytes {
    var srep := Stamp08(root, now);
    suite.sign(seed, SrepContext() + srep) +
    (Word(0x80000008) + (Nodes(proof) + (srep + (PlainCert(cert) + Word(indx)))))
  }

  function Answer08(suite: Suite, seed: Bytes32, cert: Certificate, now: u64, root: Bytes32, proof: seq<Bytes32>, indx: u32): Bytes
    requires |proof| <= 32
  {
    var p := 32 * |proof|;
    Ascii("ROUGHTIM") + (Word(340 + p) +
      (PlainHeader([64, 68, 68 + p, 136 + p, 288 + p], LEGACY_RESPONSE_NAMES) + Values08(suite, seed, cert, now, root, proof, indx)))
  }

  lemma ReplyIsAnswer08(suite: Suite, key: Key, root: Bytes32, now: u64, path: Path, indx: u32)
    requires key.version == RfcDraft08
    ensures LegacyResponseFrames.ToFrame(Reply08(Common08(suite, key, root, now), path, indx)) ==
            Answer08(suite, key.seed, key.cert, now, root, Plain(path), indx)
  {
    hide PlainHeader, Word, Long, Nodes, PlainPath, PlainCert, Reply08, Common08, LR.Encode;
    var r := Reply08(Common08(suite, key, root, now), path, indx);
    E.Reply08Facts(suite, key, root, now, path, indx);
    PathSizeIsProduct(|path|);
    LegacySrepIsPlain(r.srep);
    LegacyResponseIsPlain(r);
    FrameIsPlain(LR.Encode(r));
    NodesAreWritten(path);
  }

  lemma FrameIsAnswer08(suite: Suite, key: Key, leaves: seq<Bytes>, now: u64, nonc: Bytes32, i: nat)
    requires key.version == RfcDraft08 && i < |leaves| < 0x1_0000_0000
    ensures var row := PlainLeaves(suite.digest, leaves);
            var proof := PlainProof(suite.digest, row, i);
            |proof| <= 32 &&
            FrameFor(suite, key, leaves, now, nonc, i) ==
            Answer08(suite, key.seed, key.cert, now, PlainRoot(suite.digest, row), proof, i)
  {
    hide Answer08;
    BatchRootIsPlain(suite.digest, leaves);
    BatchProofIsPlain(suite.digest, leaves, i);
    ReplyIsAnswer08(suite, key, RootOf(suite, leaves), now, PathTo(suite, leaves, i), i);
  }

  // ---- Every answer of every run ----------------------------------------------------------------------------------

  /** What goes into the tree: frames as they were received, or the nonces of draft-08 requests. */
  function Hashed(version: ProtocolVersion, e: Event): seq<Bytes>
    requires e.Answered? && |e.pending| == |e.frames|
  {
    match version
    case RfcDraft14 => e.frames
    case RfcDraft08 => seq(|e.pending|, i requires 0 <= i < |e.pending| => e.pending[i].request.nonc)
  }

  ghost predicate AnswersPlainly(c: Config, e: Event, i: nat)
    requires c.Proper() && e.Answered? && |e.pending| == |e.frames| == |e.out| && i < |e.out| < 0x1_0000_0000
  {
    var leaves := Hashed(c.version, e);
    var row := PlainLeaves(c.suite.digest, leaves);
    var root, proof, nonc := PlainRoot(c.suite.digest, row), PlainProof(c.suite.digest, row, i), e.pending[i].request.nonc;
    && |proof| <= 32
    && e.out[i].1 == (match c.version
                      case RfcDraft14 => Answer14(c.suite, e.key.seed, e.key.cert, e.time, root, proof, nonc, i)
                      case RfcDraft08 => Answer08(c.suite, e.key.seed, e.key.cert, e.time, root, proof, i))
  }

  lemma LeavesAreHashed(version: ProtocolVersion, e: Event)
    requires e.Answered? && |e.pending| == |e.frames|
    ensures LeavesOf(version, e.pending, e.frames) == Hashed(version, e)
  {
  }

  lemma AnswerIsPlain(c: Config, e: Event, i: nat)
    requires c.Proper() && e.Answered? && GoodAnswer(c, e) && i < |e.pending|
    ensures |e.pending| == |e.frames| == |e.out| && AnswersPlainly(c, e, i)
    ensures e.key.cert == Delegating(c.suite, c.identity, c.version, e.key.seed, e.key.cert.dele.mint, c.hours * 3600)
  {
    hide Answer14, Answer08, FrameFor, Hashed;
    LeavesAreHashed(c.version, e);
    var seed: Bytes32, t0: u64 :| t0 <= e.time && e.key == c.NewKey(seed, t0);
    KeyIsPlain(c.suite, c.identity, c.version, seed, t0, c.hours * 3600);
    match c.version {
      case RfcDraft14 => FrameIsAnswer14(c.suite, e.key, LeavesOf(c.version, e.pending, e.frames), e.time, e.pending[i].request.nonc, i);
      case RfcDraft08 => FrameIsAnswer08(c.suite, e.key, LeavesOf(c.version, e.pending, e.frames), e.time, e.pending[i].request.nonc, i);
    }
  }

  /** In every timely run of a new worker, every frame that is sent is this one, under a delegation for the hours configured. */
  lemma RunAnswersPlainly(c: Config, seed: Bytes32, t0: u64, now: u64, its: seq<Iteration>, k: nat, i: nat)
    requires c.Proper() && t0 <= now && Fits(c, its) && Timely(its, now, 1)
    requires var log := Run(c, Start(c, c.NewKey(seed, t0), now), its).log;
             k < |log| && log[k].Answered? && i < |log[k].pending|
    ensures var e := Run(c, Start(c, c.NewKey(seed, t0), now), its).log[k];
            && |e.pending| == |e.frames| == |e.out| <= MAX_BATCH && AnswersPlainly(c, e, i)
            && e.key.cert == Delegating(c.suite, c.identity, c.version, e.key.seed, e.key.cert.dele.mint, c.hours * 3600)
  {
    hide AnswersPlainly, Delegating;
    var st := Start(c, c.NewKey(seed, t0), now);
    StartSchedules(c, seed, t0, now);
    RunSchedules(c, st, its, now);
    var e := Run(c, st, its).log[k];
    assert GoodEvent(c, e);
    AnswerIsPlain(c, e, i);
  }
}
