/** What the server answers to a batch of requests, as a function of the batch, the key and the time. */
module Batches {
  import opened Primitives
  import opened Versions
  import opened MerkleSpec
  import opened MerklePaths
  import opened MerkleTrees
  import opened Crypto
  import opened OnlineKeys
  import opened Requests
  import R = Responses
  import LR = LegacyResponses
  import ResponseFrames
  import LegacyResponseFrames

  /** A network address; nothing but its identity matters. */
  type Addr = nat

  datatype Pending = Pending(request: Request, addr: Addr)

  const MAX_BATCH: nat := 64

  lemma DepthOfBatch(n: nat)
    requires n <= MAX_BATCH
    ensures Depth(n) <= 6
  {
    assert Pow2(6) == 64;
    DepthBound(n, 6);
  }

  /** What of a request is put into the tree: the nonce for draft-08, the whole frame for draft-14. */
  function LeafOf(version: ProtocolVersion, bytes: Bytes, request: Request): Bytes {
    match version
    case RfcDraft08 => request.nonc
    case RfcDraft14 => bytes
  }

  function RootOf(suite: Suite, leaves: seq<Bytes>): Bytes32
    requires leaves != []
  {
    Root(suite.Hasher(), LeafRow(suite.Hasher(), leaves)).bytes
  }

  function PathTo(suite: Suite, leaves: seq<Bytes>, i: nat): (path: Path)
    requires i < |leaves| <= 0x1_0000_0000
    ensures |path| == Depth(|leaves|)
  {
    TwoToThe32();
    DepthBound(|leaves|, 32);
    PathOf(suite.Hasher(), LeafRow(suite.Hasher(), leaves), i)
  }

  /** The part of the response that a batch shares. */
  function Common14(suite: Suite, key: Key, root: Bytes32, now: u64): R.Response
    requires key.version == RfcDraft14
  {
    var srep := MakeSrep(key, root, now);
    R.Apply(R.Apply(R.Apply(R.DEFAULT_RESPONSE, R.SetCert(key.cert)), R.SetSrep(srep.srep)), R.SetSig(SignSrep(suite, key, srep)))
  }

  function Reply14(common: R.Response, path: Path, nonc: Bytes32, indx: u32): R.Response {
    R.Apply(R.Apply(R.Apply(common, R.SetPath(path)), R.SetNonc(nonc)), R.SetIndx(indx))
  }

  function Common08(suite: Suite, key: Key, root: Bytes32, now: u64): LR.Response
    requires key.version == RfcDraft08
  {
    var srep := MakeSrep(key, root, now);
    LR.Apply(LR.Apply(LR.Apply(LR.DEFAULT_RESPONSE, LR.SetCert(key.cert)), LR.SetSrep(srep.legacy)), LR.SetSig(SignSrep(suite, key, srep)))
  }

  function Reply08(common: LR.Response, path: Path, indx: u32): LR.Response {
    LR.Apply(LR.Apply(common, LR.SetPath(path)), LR.SetIndx(indx))
  }

  /** The frame sent to requester i of a batch. */
  function FrameFor(suite: Suite, key: Key, leaves: seq<Bytes>, now: u64, nonc: Bytes32, i: nat): Bytes
    requires i < |leaves| < 0x1_0000_0000
  {
    var root := RootOf(suite, leaves);
    var path := PathTo(suite, leaves, i);
    match key.version
    case RfcDraft14 => ResponseFrames.ToFrame(Reply14(Common14(suite, key, root, now), path, nonc, i))
    case RfcDraft08 => LegacyResponseFrames.ToFrame(Reply08(Common08(suite, key, root, now), path, i))
  }

  /** One frame for every pending request, in order, each to its own requester. */
  function Answers(suite: Suite, key: Key, pending: seq<Pending>, leaves: seq<Bytes>, now: u64): (out: seq<(Addr, Bytes)>)
    requires |pending| == |leaves| < 0x1_0000_0000
    ensures |out| == |pending|
    ensures forall i :: 0 <= i < |out| ==> out[i] == (pending[i].addr, FrameFor(suite, key, leaves, now, pending[i].request.nonc, i))
  {
    seq(|pending|, i requires 0 <= i < |pending| =>
      (pending[i].addr, FrameFor(suite, key, leaves, now, pending[i].request.nonc, i)))
  }

  /** Seen from the shared part of the responses: what each requester of a draft-14 batch is sent. */
  ghost predicate Answering14(suite: Suite, common: R.Response, pending: seq<Pending>, leaves: seq<Bytes>, out: seq<(Addr, Bytes)>)
    requires common.Sized()
  {
    && |out| == |pending| == |leaves| < 0x1_0000_0000
    && forall i :: 0 <= i < |out| ==>
         out[i] == (pending[i].addr, ResponseFrames.ToFrame(Reply14(common, PathTo(suite, leaves, i), pending[i].request.nonc, i)))
  }

  ghost predicate Answering08(suite: Suite, common: LR.Response, pending: seq<Pending>, leaves: seq<Bytes>, out: seq<(Addr, Bytes)>)
    requires common.Sized()
  {
    && |out| == |pending| == |leaves| < 0x1_0000_0000
    && forall i :: 0 <= i < |out| ==>
         out[i] == (pending[i].addr, LegacyResponseFrames.ToFrame(Reply08(common, PathTo(suite, leaves, i), i)))
  }

  lemma AnswersFromCommon(suite: Suite, key: Key, pending: seq<Pending>, leaves: seq<Bytes>, now: u64, root: Bytes32)
    requires |pending| == |leaves| < 0x1_0000_0000 && leaves != [] && root == RootOf(suite, leaves)
    ensures var out := Answers(suite, key, pending, leaves, now);
            match key.version
            case RfcDraft14 => Answering14(suite, Common14(suite, key, root, now), pending, leaves, out)
            case RfcDraft08 => Answering08(suite, Common08(suite, key, root, now), pending, leaves, out)
  {
  }
}
