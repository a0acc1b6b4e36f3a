/** The server's handlers: batches of requests in, framed responses out. */
module Handlers {
  import opened Wrappers
  import opened Primitives
  import opened Cursors
  import opened Versions
  import opened WordLists
  import opened MerkleSpec
  import opened MerklePaths
  import opened MerkleTrees
  import opened Crypto
  import opened OnlineKeys
  import opened Requests
  import opened Batches
  import opened Service
  import opened Certificates
  import R = Responses
  import SR = SignedResponses
  import LR = LegacyResponses
  import ResponseFrames
  import LegacyResponseFrames

  method ReservedTree(digest: Bytes -> Bytes32, batchSize: nat) returns (tree: MerkleTree)
    ensures fresh(tree) && tree.digest == digest && tree.levels[0] == []
  {
    tree := new MerkleTree(digest);
    tree.Reserve(batchSize);
  }

  class ResponseHandler {
    const batchSize: nat
    const version: ProtocolVersion
    const identity: LongTermIdentity
    const validity: u64
    const tree: MerkleTree
    const path: MerklePath
    const responseBuf: array<byte>
    var key: OnlineKey
    var requests: seq<Pending>
    var metrics: ResponseMetrics
    /** The frames that the pending requests were parsed from. */
    ghost var frames: seq<Bytes>

    /** What answering a batch does not touch. */
    ghost predicate Fixed()
      reads `key, `requests, `frames, key, key.signingBuf
    {
      && 0 < batchSize <= MAX_BATCH && identity.version == version
      && tree.digest == identity.suite.digest && responseBuf.Length == REQUEST_SIZE
      && key.Valid() && key.suite == identity.suite && key.version == version
      && path.data != responseBuf && path.data != key.signingBuf && responseBuf != key.signingBuf
      && |requests| == |frames| <= batchSize
    }

    /** Everything but the leaf row, which is padded between computing the root and clearing. */
    ghost predicate Sound()
      reads `key, `requests, `frames, key, key.signingBuf, path
    {
      Fixed() && path.Valid()
    }

    ghost predicate Valid()
      reads `key, `requests, `frames, key, key.signingBuf, path, tree
    {
      Sound() && tree.levels[0] == LeafRow(identity.suite.Hasher(), Leaves())
    }

    ghost function Leaves(): (leaves: seq<Bytes>)
      requires |requests| == |frames|
      reads `requests, `frames
      ensures |leaves| == |requests|
    {
      LeavesOf(version, requests, frames)
    }

    constructor (batchSize: nat, identity: LongTermIdentity, validity: u64, keySeed: Bytes32, now: u64)
      requires 0 < batchSize <= MAX_BATCH
      ensures Valid() && requests == [] && metrics == NO_RESPONSES && fresh(tree) && fresh(path) && fresh(path.data)
      ensures fresh(responseBuf) && fresh(key) && fresh(key.signingBuf)
      ensures this.batchSize == batchSize && this.identity == identity && this.validity == validity
      ensures key.Value() == IssueKey(identity.suite, identity.seed, identity.version, keySeed, now, validity)
    {
      this.batchSize, this.identity, this.validity, version := batchSize, identity, validity, identity.version;
      var first := identity.MakeOnlineKey(keySeed, now, validity);
      var grown := ReservedTree(identity.suite.digest, batchSize);
      tree, key := grown, first;
      path := new MerklePath();
      responseBuf := new byte[REQUEST_SIZE](_ => 0);
      requests, frames, metrics := [], [], NO_RESPONSES;
      new;
      assert LeafRow(identity.suite.Hasher(), []) == [];
    }

    /** The leaf is the nonce for draft-08 and the whole frame for draft-14. */
    method AddRequest(bytes: Bytes, request: Request, from: Addr)
      requires Valid() && |requests| < batchSize
      modifies this`requests, this`frames, tree
      ensures Valid() && requests == old(requests) + [Pending(request, from)] && frames == old(frames) + [bytes]
    {
      match version {
        case RfcDraft08 => tree.PushLeaf(request.nonc);
        case RfcDraft14 => tree.PushLeaf(bytes);
      }
      LeavesAppend(version, requests, frames, Pending(request, from), bytes);
      ghost var leaves, leaf := Leaves(), LeafOf(version, bytes, request);
      requests := requests + [Pending(request, from)];
      frames := frames + [bytes];
      LeafRowAppend(identity.suite.Hasher(), leaves, leaf);
    }

    method ReplaceOnlineKey(keySeed: Bytes32, now: u64)
      requires Valid()
      modifies this`key
      ensures Valid() && fresh(key) && fresh(key.signingBuf)
      ensures key.Value() == IssueKey(identity.suite, identity.seed, version, keySeed, now, validity)
    {
      key := identity.MakeOnlineKey(keySeed, now, validity);
    }

    method Clear()
      requires Sound()
      modifies tree, this`requests, this`frames
      ensures Valid() && requests == []
    {
      tree.Clear();
      requests, frames := [], [];
    }

    /** Computes the root once, signs once and answers every pending request in order. */
    method ProcessResponses(now: u64) returns (out: seq<(Addr, Bytes)>)
      requires Valid()
      modifies tree, path`numPaths, path.data, key.signingBuf, responseBuf, this`metrics
      ensures Sound()
      ensures out == old(Answers(identity.suite, key.Value(), requests, Leaves(), now))
      ensures metrics == old(metrics).Add(out)
    {
      ghost var goal := Answers(identity.suite, key.Value(), requests, Leaves(), now);
      if requests == [] {
        assert goal == [] && metrics.AddBatch(0) == metrics;
        return [];
      }
      out := ProcessBatch(now, Leaves(), goal);
    }

    method ProcessBatch(now: u64, ghost leaves: seq<Bytes>, ghost goal: seq<(Addr, Bytes)>) returns (out: seq<(Addr, Bytes)>)
      requires Valid() && requests != [] && leaves == Leaves()
      requires goal == Answers(identity.suite, key.Value(), requests, leaves, now)
      modifies tree, path`numPaths, path.data, key.signingBuf, responseBuf, this`metrics
      ensures Sound() && out == goal
      ensures metrics == old(metrics).Add(goal)
    {
      ghost var k := key.Value();
      metrics := metrics.AddBatch(|requests|);
      var root := ComputeBatchRoot(leaves);
      AnswersFromCommon(identity.suite, k, requests, leaves, now, root);
      match version {
        case RfcDraft14 => out := Process14(root, now, k, leaves, goal);
        case RfcDraft08 => out := Process08(root, now, k, leaves, goal);
      }
    }

    method Process14(root: Bytes32, now: u64, ghost k: Key, ghost leaves: seq<Bytes>, ghost goal: seq<(Addr, Bytes)>) returns (out: seq<(Addr, Bytes)>)
      requires Sound() && Computed(leaves) && version == RfcDraft14 && k == key.Value()
      requires Answering14(identity.suite, Common14(identity.suite, k, root, now), requests, leaves, goal)
      modifies path`numPaths, path.data, key.signingBuf, responseBuf, this`metrics
      ensures Sound() && out == goal
      ensures metrics == old(metrics).AddAllBytes(goal)
    {
      var common := MakeCommon14(root, now);
      out := Emit14(common, leaves, goal);
    }

    method Process08(root: Bytes32, now: u64, ghost k: Key, ghost leaves: seq<Bytes>, ghost goal: seq<(Addr, Bytes)>) returns (out: seq<(Addr, Bytes)>)
      requires Sound() && Computed(leaves) && version == RfcDraft08 && k == key.Value()
      requires Answering08(identity.suite, Common08(identity.suite, k, root, now), requests, leaves, goal)
      modifies path`numPaths, path.data, key.signingBuf, responseBuf, this`metrics
      ensures Sound() && out == goal
      ensures metrics == old(metrics).AddAllBytes(goal)
    {
      var common := MakeCommon08(root, now);
      out := Emit08(common, leaves, goal);
    }

    method ComputeBatchRoot(ghost leaves: seq<Bytes>) returns (root: Bytes32)
      requires Valid() && requests != [] && leaves == Leaves()
      modifies tree
      ensures Sound() && Computed(leaves) && root == RootOf(identity.suite, leaves)
    {
      var hash := tree.ComputeRoot();
      root := hash.bytes;
    }

    /** The tree is built over the leaves of the batch. */
    ghost predicate Computed(leaves: seq<Bytes>)
      requires |requests| == |frames|
      reads `requests, `frames, tree
    {
      leaves == Leaves() && Built(identity.suite.Hasher(), LeafRow(identity.suite.Hasher(), leaves), tree.levels)
    }

    /** The loop over the pending requests; the goal is what each of them is to be sent. */
    method Emit14(common: R.Response, ghost leaves: seq<Bytes>, ghost goal: seq<(Addr, Bytes)>) returns (out: seq<(Addr, Bytes)>)
      requires Sound() && Computed(leaves) && Shared14(common)
      requires Answering14(identity.suite, common, requests, leaves, goal)
      modifies path`numPaths, path.data, responseBuf, this`metrics
      ensures Sound() && out == goal
      ensures metrics == old(metrics).AddAllBytes(goal)
    {
      ghost var before := metrics;
      out := [];
      for index := 0 to |requests|
        invariant path.Valid() && out == goal[..index]
        invariant metrics == before.AddAllBytes(goal[..index])
      {
        var answer := EmitOne14(common, index, leaves, goal);
        Advance(before, goal, index);
        out := out + [answer];
      }
    }

    method EmitOne14(common: R.Response, index: nat, ghost leaves: seq<Bytes>, ghost goal: seq<(Addr, Bytes)>) returns (answer: (Addr, Bytes))
      requires Sound() && Computed(leaves) && Shared14(common) && index < |requests|
      requires Answering14(identity.suite, common, requests, leaves, goal)
      modifies path`numPaths, path.data, responseBuf, this`metrics
      ensures path.Valid() && answer == goal[index]
      ensures metrics == old(metrics).AddBytes(answer.1)
    {
      var bytes := Answer14(common, index, leaves);
      metrics := metrics.AddBytes(bytes);
      answer := (requests[index].addr, bytes);
    }

    /** What the responses of a batch have in common: one version, and no path yet. */
    predicate Shared14(common: R.Response) {
      common.Sized() && |common.srep.vers| == 1 && common.path == []
    }

    /** The tags that all responses of the batch share. */
    method MakeCommon14(root: Bytes32, now: u64) returns (common: R.Response)
      requires Sound() && version == RfcDraft14
      modifies key.signingBuf
      ensures Sound() && common == Common14(identity.suite, key.Value(), root, now) && Shared14(common)
    {
      var srep, sig := key.Sign(root, now);
      common := Combine14(key.cert, srep.srep, sig);
    }

    method Combine14(cert: Certificate, srep: SR.SignedResponse, sig: Bytes64) returns (common: R.Response)
      ensures common == R.Apply(R.Apply(R.Apply(R.DEFAULT_RESPONSE, R.SetCert(cert)), R.SetSrep(srep)), R.SetSig(sig))
    {
      var response := new R.MutableResponse();
      response.SetCertificate(cert);
      response.SetSignedResponse(srep);
      response.SetSignature(sig);
      common := response.Value();
    }

    method Answer14(common: R.Response, index: nat, ghost leaves: seq<Bytes>) returns (bytes: Bytes)
      requires Sound() && Computed(leaves) && index < |requests| && Shared14(common)
      modifies path`numPaths, path.data, responseBuf
      ensures path.Valid()
      ensures bytes == ResponseFrames.ToFrame(
                Reply14(common, PathTo(identity.suite, leaves, index), requests[index].request.nonc, index))
    {
      var r := Compose14(common, index, leaves);
      bytes := Print14(r);
    }

    /** The path of the request, copied into a clone of the common response. */
    method Compose14(common: R.Response, index: nat, ghost leaves: seq<Bytes>) returns (r: R.Response)
      requires Sound() && Computed(leaves) && index < |requests| && Shared14(common)
      modifies path`numPaths, path.data
      ensures path.Valid() && |r.path| <= 6
      ensures r == Reply14(common, PathTo(identity.suite, leaves, index), requests[index].request.nonc, index)
    {
      FindPath(index, leaves);
      var response := new R.MutableResponse.Clone(common);
      response.CopyPath(path);
      response.SetNonce(requests[index].request.nonc);
      response.SetIndex(index);
      r := response.Value();
    }

    method FindPath(index: nat, ghost leaves: seq<Bytes>)
      requires Sound() && Computed(leaves) && index < |requests|
      modifies path`numPaths, path.data
      ensures path.Valid() && path.Elements() == PathTo(identity.suite, leaves, index) && path.numPaths <= 6
    {
      DepthOfBatch(|leaves|);
      path.Clear();
      tree.GetPathsTo(index, path, LeafRow(identity.suite.Hasher(), leaves));
    }

    method Print14(r: R.Response) returns (bytes: Bytes)
      requires r.Sized() && |r.path| <= 6 && |r.srep.vers| == 1 && responseBuf.Length == REQUEST_SIZE
      modifies responseBuf
      ensures bytes == ResponseFrames.ToFrame(r)
    {
      ResponseFrames.SizeBound(r);
      var cursor := new ParseCursor(responseBuf, 0, responseBuf.Length);
      var done := ResponseFrames.WriteFrame(r, cursor);
      assert cursor.Written() == [] + ResponseFrames.ToFrame(r) == ResponseFrames.ToFrame(r);
      bytes := responseBuf[..cursor.position];
      assert bytes == cursor.Written();
    }

    method Emit08(common: LR.Response, ghost leaves: seq<Bytes>, ghost goal: seq<(Addr, Bytes)>) returns (out: seq<(Addr, Bytes)>)
      requires Sound() && Computed(leaves) && common.Sized()
      requires Answering08(identity.suite, common, requests, leaves, goal)
      modifies path`numPaths, path.data, responseBuf, this`metrics
      ensures Sound() && out == goal
      ensures metrics == old(metrics).AddAllBytes(goal)
    {
      ghost var before := metrics;
      out := [];
      for index := 0 to |requests|
        invariant path.Valid() && out == goal[..index]
        invariant metrics == before.AddAllBytes(goal[..index])
      {
        var answer := EmitOne08(common, index, leaves, goal);
        Advance(before, goal, index);
        out := out + [answer];
      }
    }

    method EmitOne08(common: LR.Response, index: nat, ghost leaves: seq<Bytes>, ghost goal: seq<(Addr, Bytes)>) returns (answer: (Addr, Bytes))
      requires Sound() && Computed(leaves) && common.Sized() && index < |requests|
      requires Answering08(identity.suite, common, requests, leaves, goal)
      modifies path`numPaths, path.data, responseBuf, this`metrics
      ensures path.Valid() && answer == goal[index]
      ensures metrics == old(metrics).AddBytes(answer.1)
    {
      var bytes := Answer08(common, index, leaves);
      metrics := metrics.AddBytes(bytes);
      answer := (requests[index].addr, bytes);
    }

    method MakeCommon08(root: Bytes32, now: u64) returns (common: LR.Response)
      requires Sound() && version == RfcDraft08
      modifies key.signingBuf
      ensures Sound() && common == Common08(identity.suite, key.Value(), root, now)
    {
      var srep, sig := key.Sign(root, now);
      common := LR.DEFAULT_RESPONSE;
      common := LR.Apply(common, LR.SetCert(key.cert));
      common := LR.Apply(common, LR.SetSrep(srep.legacy));
      common := LR.Apply(common, LR.SetSig(sig));
    }

    method Answer08(common: LR.Response, index: nat, ghost leaves: seq<Bytes>) returns (bytes: Bytes)
      requires Sound() && Computed(leaves) && index < |requests| && common.Sized()
      modifies path`numPaths, path.data, responseBuf
      ensures path.Valid()
      ensures bytes == LegacyResponseFrames.ToFrame(Reply08(common, PathTo(identity.suite, leaves, index), index))
    {
      FindPath(index, leaves);
      var response := common;
      response := LR.Apply(response, LR.SetPath(path.Elements()));
      response := LR.Apply(response, LR.SetIndx(index));
      bytes := Print08(response);
    }

    method Print08(r: LR.Response) returns (bytes: Bytes)
      requires r.Sized() && |r.path| <= 6 && responseBuf.Length == REQUEST_SIZE
      modifies responseBuf
      ensures bytes == LegacyResponseFrames.ToFrame(r)
    {
      LegacyResponseFrames.SizeBound(r);
      var cursor := new ParseCursor(responseBuf, 0, responseBuf.Length);
      var done := LegacyResponseFrames.WriteFrame(r, cursor);
      assert cursor.Written() == [] + LegacyResponseFrames.ToFrame(r) == LegacyResponseFrames.ToFrame(r);
      bytes := responseBuf[..cursor.position];
      assert bytes == cursor.Written();
    }
  }

  class RequestHandler {
    const responder: ResponseHandler
    var metrics: RequestMetrics

    ghost predicate Valid()
      reads this, responder, responder.path, responder.key, responder.key.signingBuf, responder.tree
    {
      responder.Valid()
    }

    ghost function Current(): Intake
      reads this, responder
    {
      Intake(responder.requests, responder.frames, metrics)
    }

    constructor (responder: ResponseHandler)
      ensures this.responder == responder && metrics == NO_REQUESTS
    {
      this.responder, metrics := responder, NO_REQUESTS;
    }

    /** Only frames of exactly 1024 bytes are parsed, and only parsed requests join the batch. */
    method CollectRequest(bytes: Bytes, from: Addr)
      requires Valid() && |responder.requests| < responder.batchSize
      modifies this`metrics, responder`requests, responder`frames, responder.tree
      ensures Valid() && Current() == TakeIn(old(Current()), bytes, from)
      ensures |responder.requests| <= old(|responder.requests|) + 1
    {
      if |bytes| < REQUEST_SIZE {
        metrics := metrics.AddRunt();
        return;
      } else if |bytes| > REQUEST_SIZE {
        metrics := metrics.AddJumbo();
        return;
      }
      var parsed := ParseRequest(bytes);
      match parsed {
        case Some(request) =>
          responder.AddRequest(bytes, request, from);
          metrics := metrics.AddOk();
        case None =>
          metrics := metrics.AddBad();
      }
    }

    method ParseRequest(bytes: Bytes) returns (request: Option<Request>)
      ensures match FromFrame(bytes)
              case Ok(parsed) => request == Some(parsed.0)
              case Err(_) => request == None
    {
      var cursor := CursorOver(bytes);
      var parsed := Requests.ReadFrame(cursor);
      match parsed {
        case Ok(r) => return Some(r);
        case Err(_) => return None;
      }
    }

    /** Answers the batch and leaves nothing pending. */
    method GenerateResponses(now: u64) returns (out: seq<(Addr, Bytes)>)
      requires Valid()
      modifies responder.tree, responder.path`numPaths, responder.path.data, responder.key.signingBuf, responder.responseBuf
      modifies responder`metrics, responder`requests, responder`frames
      ensures Valid() && responder.requests == []
      ensures out == old(Answers(responder.identity.suite, responder.key.Value(), responder.requests, responder.Leaves(), now))
      ensures responder.metrics == old(responder.metrics).Add(out)
    {
      out := responder.ProcessResponses(now);
      responder.Clear();
    }

    method ReplaceOnlineKey(keySeed: Bytes32, now: u64)
      requires Valid()
      modifies responder`key
      ensures Valid() && fresh(responder.key) && fresh(responder.key.signingBuf)
      ensures responder.key.Value() ==
              IssueKey(responder.identity.suite, responder.identity.seed, responder.version, keySeed, now, responder.validity)
    {
      responder.ReplaceOnlineKey(keySeed, now);
    }

    method ResetMetrics()
      modifies this`metrics, responder`metrics
      ensures metrics == NO_REQUESTS && responder.metrics == NO_RESPONSES
    {
      metrics := NO_REQUESTS;
      responder.metrics := NO_RESPONSES;
    }
  }

  class NetworkHandler {
    const batchSize: nat
    var metrics: NetworkMetrics

    constructor (batchSize: nat)
      ensures this.batchSize == batchSize && metrics == NO_TRAFFIC
    {
      this.batchSize, metrics := batchSize, NO_TRAFFIC;
    }

    /** At most batchSize receive calls; the results they would have are given in advance. */
    method CollectRequests(recvs: seq<Recv>, handler: RequestHandler) returns (result: CollectResult)
      requires |recvs| == batchSize == handler.responder.batchSize
      requires handler.Valid() && handler.responder.requests == []
      modifies this`metrics, handler`metrics, handler.responder`requests, handler.responder`frames, handler.responder.tree
      ensures handler.Valid()
      ensures (handler.Current(), metrics, result) == Collect(old(handler.Current()), old(metrics), recvs)
    {
      ghost var goal := Collect(handler.Current(), metrics, recvs);
      for i := 0 to batchSize
        invariant handler.Valid() && |handler.responder.requests| <= i
        invariant Collect(handler.Current(), metrics, recvs[i..]) == goal
      {
        assert recvs[i..][0] == recvs[i] && recvs[i..][1..] == recvs[i + 1..];
        match recvs[i] {
          case Datagram(bytes, from) =>
            handler.CollectRequest(Landed(bytes), from);
          case WouldBlock =>
            metrics := metrics.AddWouldBlock();
            return Empty;
          case Failed =>
            metrics := metrics.AddFailedRecv();
            return MoreData;
        }
      }
      return MoreData;
    }

    method SendResponse(succeeded: bool)
      modifies this`metrics
      ensures metrics == old(metrics).AddSend(succeeded)
    {
      if succeeded {
        metrics := metrics.(sent := metrics.sent + 1);
      } else {
        metrics := metrics.(failedSends := metrics.failedSends + 1);
      }
    }

    method RecordFailedPoll()
      modifies this`metrics
      ensures metrics == old(metrics).AddFailedPoll()
    {
      metrics := metrics.AddFailedPoll();
    }

    method ResetMetrics()
      modifies this`metrics
      ensures metrics == NO_TRAFFIC
    {
      metrics := NO_TRAFFIC;
    }
  }

  lemma Advance(before: ResponseMetrics, goal: seq<(Addr, Bytes)>, i: nat)
    requires i < |goal|
    ensures goal[..i + 1] == goal[..i] + [goal[i]] && goal[..|goal|] == goal
    ensures before.AddAllBytes(goal[..i + 1]) == before.AddAllBytes(goal[..i]).AddBytes(goal[i].1)
  {
    assert goal[..i + 1][..i] == goal[..i];
  }

  lemma LeafRowAppend(hash: Hasher, leaves: seq<Bytes>, leaf: Bytes)
    ensures LeafRow(hash, leaves + [leaf]) == LeafRow(hash, leaves) + [Leaf(hash, leaf)]
  {
  }
}
