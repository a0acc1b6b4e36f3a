/** What the server sends is what the client accepts. */
module EndToEnd {
  import opened Wrappers
  import opened Primitives
  import opened Versions
  import opened WordLists
  import opened MerkleSpec
  import opened MerkleBinding
  import opened MerklePaths
  import opened Certificates
  import opened Crypto
  import opened OnlineKeys
  import opened Requests
  import opened Batches
  import opened Validation
  import R = Responses
  import SR = SignedResponses
  import LR = LegacyResponses
  import LSR = LegacySignedResponses
  import Frames
  import Headers
  import ResponseFrames
  import LegacyResponseFrames

  /** The client knows the server's long-term key, or none. */
  predicate Knows(suite: Suite, known: Option<Bytes32>, identity: Bytes32) {
    known == None || known == Some(suite.publicKey(identity))
  }

  predicate InWindow(dele: Delegation, now: u64) {
    dele.mint <= now <= dele.maxt
  }

  /** The response to requester i of a draft-14 batch. */
  function Response14(suite: Suite, key: Key, leaves: seq<Bytes>, now: u64, nonc: Bytes32, i: nat): R.Response
    requires key.version == RfcDraft14 && i < |leaves| < 0x1_0000_0000
  {
    Reply14(Common14(suite, key, RootOf(suite, leaves), now), PathTo(suite, leaves, i), nonc, i)
  }

  lemma Reply14Facts(suite: Suite, key: Key, root: Bytes32, now: u64, path: Path, nonc: Bytes32, indx: u32)
    requires key.version == RfcDraft14
    ensures var r, srep := Reply14(Common14(suite, key, root, now), path, nonc, indx), MakeSrep(key, root, now);
            && r.offsets == r.RunningSums() && R.Coherent(r, 0)
            && r.cert == key.cert && r.path == path && r.indx == indx && r.nonc == nonc
            && Srep14(r.srep) == srep && r.sig == SignSrep(suite, key, srep)
            && r.srep.root == root && r.srep.midp == now && r.srep.ver == RfcDraft14 && r.srep.vers == [RfcDraft14]
            && r.srep.radi == SR.DEFAULT_RADI_SECONDS
  {
    var r := Reply14(Common14(suite, key, root, now), path, nonc, indx);
    R.RefreshedCoherent(r, 0);
    assert r.srep.vers == [RfcDraft14] && r.srep.rootOffset == 20;
    OneVersionCoherent(r.srep);
  }

  lemma OneVersionCoherent(s: SR.SignedResponse)
    requires |s.vers| == 1 && s.rootOffset == 20
    ensures SR.Coherent(s, CERT_SIZE + 4)
  {
  }

  lemma IssuedKeyChecks(suite: Suite, known: Option<Bytes32>, identity: Bytes32, key: Key, seed: Bytes32, t0: u64, validity: u64)
    requires suite.Ideal() && Knows(suite, known, identity)
    requires key == IssueKey(suite, identity, key.version, seed, t0, validity)
    ensures CheckDele(suite, known, key.cert, key.version) == Ok(())
    ensures forall srep: Srep :: suite.verify(key.cert.dele.pubk, key.version.SrepPrefix() + srep.Encode(), SignSrep(suite, key, srep))
  {
    var dele := NewDelegation(suite.publicKey(seed), t0, validity);
    assert suite.verify(suite.publicKey(identity), SignedDele(key.version, dele), suite.sign(identity, SignedDele(key.version, dele)));
  }

  lemma MerkleChecks(suite: Suite, leaves: seq<Bytes>, i: nat)
    requires i < |leaves| < 0x1_0000_0000
    ensures CheckMerkle(suite, leaves[i], PathTo(suite, leaves, i), i, RootOf(suite, leaves)) == Ok(())
  {
    BatchPathVerifies(suite.Hasher(), leaves, i);
  }

  /** All checks in a row, given each of them. */
  lemma AllChecks14(suite: Suite, known: Option<Bytes32>, request: Bytes, r: R.Response, frame: Bytes, start: nat, end: nat)
    requires Parsed(r) && start == VALUES_START + r.offsets[3] && end == VALUES_START + r.offsets[4]
    requires r.srep.ver in r.srep.vers && r.srep.radi != 0
    requires CheckDele(suite, known, r.cert, r.srep.ver) == Ok(())
    requires CheckMerkle(suite, request, r.path, r.indx, r.srep.root) == Ok(())
    requires CheckSrep(suite, r.srep.ver, frame, start, end, r.sig, r.cert.dele.pubk) == Ok(())
    ensures Validate14(suite, known, request, r, frame) ==
            if InWindow(r.cert.dele, r.srep.midp) then Ok(r.srep.midp) else Err(InvalidMidpoint)
  {
  }

  /** A response with refreshed offsets whose parts check out is accepted when its time is in the window. */
  lemma PartsAccepted14(suite: Suite, known: Option<Bytes32>, request: Bytes, r: R.Response)
    requires r.offsets == r.RunningSums() && r.srep.ver in r.srep.vers && r.srep.radi != 0
    requires CheckDele(suite, known, r.cert, r.srep.ver) == Ok(())
    requires CheckMerkle(suite, request, r.path, r.indx, r.srep.root) == Ok(())
    requires suite.verify(r.cert.dele.pubk, r.srep.ver.SrepPrefix() + SR.Encode(r.srep), r.sig)
    ensures Parsed(r)
    ensures Validate14(suite, known, request, r, ResponseFrames.ToFrame(r)) ==
            if InWindow(r.cert.dele, r.srep.midp) then Ok(r.srep.midp) else Err(InvalidMidpoint)
  {
    var frame, start, end := ResponseFrames.ToFrame(r), VALUES_START + r.offsets[3], VALUES_START + r.offsets[4];
    SliceIsSrep(r);
    AllChecks14(suite, known, request, r, frame, start, end);
  }

  lemma AllChecks08(suite: Suite, known: Option<Bytes32>, request: Bytes, r: LR.Response, frame: Bytes, start: nat, end: nat)
    requires LegacyParsed(r) && start == LEGACY_VALUES_START + r.offsets[2] && end == LEGACY_VALUES_START + r.offsets[3]
    requires r.srep.radi != 0
    requires CheckDele(suite, known, r.cert, RfcDraft08) == Ok(())
    requires CheckLegacyMerkle(suite, request, r) == Ok(())
    requires CheckSrep(suite, RfcDraft08, frame, start, end, r.sig, r.cert.dele.pubk) == Ok(())
    ensures Validate08(suite, known, request, r, frame) ==
            if InWindow(r.cert.dele, r.srep.midp) then Ok(r.srep.midp) else Err(InvalidMidpoint)
  {
  }

  lemma PartsAccepted08(suite: Suite, known: Option<Bytes32>, request: Bytes, nonc: Bytes32, r: LR.Response)
    requires r.offsets == r.RunningSums() && r.srep.radi != 0
    requires |request| == REQUEST_SIZE && NonceAt(request, FRAMED_NONCE_OFFSET) == nonc
    requires CheckDele(suite, known, r.cert, RfcDraft08) == Ok(())
    requires CheckMerkle(suite, nonc, r.path, r.indx, r.srep.root) == Ok(())
    requires suite.verify(r.cert.dele.pubk, RfcDraft08.SrepPrefix() + LSR.Encode(r.srep), r.sig)
    ensures LegacyParsed(r)
    ensures Validate08(suite, known, request, r, LegacyResponseFrames.ToFrame(r)) ==
            if InWindow(r.cert.dele, r.srep.midp) then Ok(r.srep.midp) else Err(InvalidMidpoint)
  {
    var frame, start, end := LegacyResponseFrames.ToFrame(r), LEGACY_VALUES_START + r.offsets[2], LEGACY_VALUES_START + r.offsets[3];
    LegacySliceIsSrep(r);
    AllChecks08(suite, known, request, r, frame, start, end);
  }

  /**
    Draft-14 end to end. Whatever the batch, every frame parses to the intended response with
    nothing left over, and the client that sent the i-th request of the batch accepts it, exactly
    when the signing time lies in the window of the delegation.
  */
  lemma Draft14Accepted(suite: Suite, known: Option<Bytes32>, identity: Bytes32, seed: Bytes32, t0: u64, validity: u64,
                        batch: seq<Bytes>, now: u64, nonc: Bytes32, i: nat)
    requires suite.Ideal() && Knows(suite, known, identity) && i < |batch| < 0x1_0000_0000
    ensures var key := IssueKey(suite, identity, RfcDraft14, seed, t0, validity);
            var frame := FrameFor(suite, key, batch, now, nonc, i);
            var r := Response14(suite, key, batch, now, nonc, i);
            && ResponseFrames.FromFrame(frame) == Ok((r, [])) && Parsed(r) && r.nonc == nonc && r.indx == i
            && r.srep.midp == now && r.srep.radi == SR.DEFAULT_RADI_SECONDS
            && Validate14(suite, known, batch[i], r, frame) == if InWindow(key.cert.dele, now) then Ok(now) else Err(InvalidMidpoint)
  {
    var key := IssueKey(suite, identity, RfcDraft14, seed, t0, validity);
    var root, path := RootOf(suite, batch), PathTo(suite, batch, i);
    var srep := MakeSrep(key, root, now);
    var r := Response14(suite, key, batch, now, nonc, i);
    Reply14Facts(suite, key, root, now, path, nonc, i);
    ResponseFrames.FrameRoundTrip(r);
    IssuedKeyChecks(suite, known, identity, key, seed, t0, validity);
    MerkleChecks(suite, batch, i);
    assert suite.verify(key.cert.dele.pubk, RfcDraft14.SrepPrefix() + srep.Encode(), r.sig);
    assert srep.Encode() == SR.Encode(r.srep);
    PartsAccepted14(suite, known, batch[i], r);
  }

  /** The response to requester i of a draft-08 batch. */
  function Response08(suite: Suite, key: Key, leaves: seq<Bytes>, now: u64, i: nat): LR.Response
    requires key.version == RfcDraft08 && i < |leaves| < 0x1_0000_0000
  {
    Reply08(Common08(suite, key, RootOf(suite, leaves), now), PathTo(suite, leaves, i), i)
  }

  lemma Reply08Facts(suite: Suite, key: Key, root: Bytes32, now: u64, path: Path, indx: u32)
    requires key.version == RfcDraft08
    ensures var r, srep := Reply08(Common08(suite, key, root, now), path, indx), MakeSrep(key, root, now);
            && r.offsets == r.RunningSums() && LR.Coherent(r, 0)
            && r.cert == key.cert && r.path == path && r.indx == indx && r.ver == RfcDraft08
            && Srep08(r.srep) == srep && r.sig == SignSrep(suite, key, srep)
            && r.srep.root == root && r.srep.midp == now && r.srep.radi == SR.DEFAULT_RADI_SECONDS
  {
    var r := Reply08(Common08(suite, key, root, now), path, indx);
    LR.RefreshedCoherent(r, 0);
  }

  /** Where the client looks for the nonce of a draft-08 request: right when one version is announced. */
  lemma LegacyNonceSlice(b: Bytes, request: Request, rest: Bytes)
    requires FromFrame(b) == Ok((request, rest)) && request.kind == Kind.Draft08 && |request.ver| == 1
    ensures |b| == REQUEST_SIZE && NonceAt(b, FRAMED_NONCE_OFFSET) == request.nonc
  {
    NonceInFrame(b, request, rest);
    assert Frames.FRAME_OVERHEAD + (Headers.HeaderSize(3) + Quad(1) + 0) == FRAMED_NONCE_OFFSET;
  }

  /**
    Draft-08 end to end: the same, with nonces as leaves, for every request whose nonce lies where
    the client looks for it (see `LegacyNonceSlice`). The other requests of the batch are arbitrary.
  */
  lemma Draft08Accepted(suite: Suite, known: Option<Bytes32>, identity: Bytes32, seed: Bytes32, t0: u64, validity: u64,
                        leaves: seq<Bytes>, now: u64, bytes: Bytes, nonc: Bytes32, i: nat)
    requires suite.Ideal() && Knows(suite, known, identity) && i < |leaves| < 0x1_0000_0000
    requires |bytes| == REQUEST_SIZE && leaves[i] == nonc && NonceAt(bytes, FRAMED_NONCE_OFFSET) == nonc
    ensures var key := IssueKey(suite, identity, RfcDraft08, seed, t0, validity);
            var frame := FrameFor(suite, key, leaves, now, nonc, i);
            var r := Response08(suite, key, leaves, now, i);
            && LegacyResponseFrames.FromFrame(frame) == Ok((r, [])) && LegacyParsed(r) && r.indx == i
            && r.srep.midp == now && r.srep.radi == SR.DEFAULT_RADI_SECONDS
            && Validate08(suite, known, bytes, r, frame) == if InWindow(key.cert.dele, now) then Ok(now) else Err(InvalidMidpoint)
  {
    var key := IssueKey(suite, identity, RfcDraft08, seed, t0, validity);
    var root, path := RootOf(suite, leaves), PathTo(suite, leaves, i);
    var srep := MakeSrep(key, root, now);
    var r := Response08(suite, key, leaves, now, i);
    Reply08Facts(suite, key, root, now, path, i);
    LegacyResponseFrames.FrameRoundTrip(r);
    IssuedKeyChecks(suite, known, identity, key, seed, t0, validity);
    MerkleChecks(suite, leaves, i);
    assert suite.verify(key.cert.dele.pubk, RfcDraft08.SrepPrefix() + srep.Encode(), r.sig);
    assert srep.Encode() == LSR.Encode(r.srep);
    PartsAccepted08(suite, known, bytes, nonc, r);
  }

  lemma Size14(suite: Suite, key: Key, root: Bytes32, now: u64, path: Path, nonc: Bytes32, indx: u32)
    requires key.version == RfcDraft14
    ensures |ResponseFrames.ToFrame(Reply14(Common14(suite, key, root, now), path, nonc, indx))| == 416 + 32 * |path|
  {
    Reply14Facts(suite, key, root, now, path, nonc, indx);
    ResponseFrames.SizeBound(Reply14(Common14(suite, key, root, now), path, nonc, indx));
  }

  lemma Size08(suite: Suite, key: Key, root: Bytes32, now: u64, path: Path, indx: u32)
    requires key.version == RfcDraft08
    ensures |LegacyResponseFrames.ToFrame(Reply08(Common08(suite, key, root, now), path, indx))| == 352 + 32 * |path|
  {
    Reply08Facts(suite, key, root, now, path, indx);
    LegacyResponseFrames.SizeBound(Reply08(Common08(suite, key, root, now), path, indx));
  }

  /** Frame sizes depend on the depth of the tree only; up to 64 requests no frame is longer than the request it answers. */
  lemma FrameSizes(suite: Suite, key: Key, leaves: seq<Bytes>, now: u64, nonc: Bytes32, i: nat)
    requires i < |leaves| < 0x1_0000_0000
    ensures |FrameFor(suite, key, leaves, now, nonc, i)| ==
            (if key.version == RfcDraft14 then 416 else 352) + 32 * Depth(|leaves|)
    ensures |leaves| <= MAX_BATCH ==> |FrameFor(suite, key, leaves, now, nonc, i)| <= REQUEST_SIZE
  {
    var root, path := RootOf(suite, leaves), PathTo(suite, leaves, i);
    match key.version {
      case RfcDraft14 => Size14(suite, key, root, now, path, nonc, i);
      case RfcDraft08 => Size08(suite, key, root, now, path, i);
    }
    if |leaves| <= MAX_BATCH {
      DepthOfBatch(|leaves|);
    }
  }

  // ---- What an accepted response proves -----------------------------------------------------------

  /** The digest maps two different strings that server and client hashed to one value, or one of them to zero. */
  ghost predicate BrokenOn(suite: Suite, batch: seq<Bytes>, leaf: Bytes, path: Path, indx: u32) {
    DigestBroken(suite.digest, TreeInputs(suite.Hasher(), batch) + CheckInputs(suite.Hasher(), indx, leaf, path))
  }

  /** The leaf is in the batch, at the place that the low bits of the index name. */
  predicate Included(batch: seq<Bytes>, leaf: Bytes, path: Path, indx: u32) {
    var place := indx % Pow2(|path|);
    |path| == Depth(|batch|) && place < |batch| && batch[place] == leaf
  }

  lemma ProofIncludes(suite: Suite, batch: seq<Bytes>, leaf: Bytes, path: Path, indx: u32)
    requires batch != [] && CheckMerkle(suite, leaf, path, indx, RootOf(suite, batch)) == Ok(())
    ensures Included(batch, leaf, path, indx) || BrokenOn(suite, batch, leaf, path, indx)
  {
    var hash := suite.Hasher();
    ProofBindsLeaf(hash, batch, indx, leaf, path);
    var inputs := TreeInputs(hash, batch) + CheckInputs(hash, indx, leaf, path);
    if Broken(hash, inputs) {
      BrokenTreeBreaksDigest(suite.digest, inputs);
    }
  }

  /**
    Soundness. If a client accepts a draft-14 response whose ROOT is that of some batch, then its
    request is in the batch at the place INDX names, or the digest is broken on what was hashed;
    and the time lies in the delegation's window, with a signature by the delegated key.
  */
  lemma AcceptedWasBatched14(suite: Suite, known: Option<Bytes32>, request: Bytes, r: R.Response, bytes: Bytes, batch: seq<Bytes>)
    requires Parsed(r) && Validate14(suite, known, request, r, bytes).Ok?
    requires batch != [] && r.srep.root == RootOf(suite, batch)
    ensures Included(batch, request, r.path, r.indx) || BrokenOn(suite, batch, request, r.path, r.indx)
    ensures InWindow(r.cert.dele, r.srep.midp) && r.srep.radi != 0 && r.srep.ver in r.srep.vers
    ensures var start, end := VALUES_START + r.offsets[3], VALUES_START + r.offsets[4];
            end <= |bytes| && suite.verify(r.cert.dele.pubk, r.srep.ver.SrepPrefix() + bytes[start..end], r.sig)
    ensures known.Some? ==> suite.verify(known.value, SignedDele(r.srep.ver, r.cert.dele), r.cert.sig)
  {
    ProofIncludes(suite, batch, request, r.path, r.indx);
  }

  /** The same for draft-08, where the nonce is what is included. */
  lemma AcceptedWasBatched08(suite: Suite, known: Option<Bytes32>, request: Bytes, r: LR.Response, bytes: Bytes, batch: seq<Bytes>)
    requires LegacyParsed(r) && Validate08(suite, known, request, r, bytes).Ok?
    requires batch != [] && r.srep.root == RootOf(suite, batch)
    ensures |request| >= FRAMED_NONCE_OFFSET + 32
    ensures var nonc := request[FRAMED_NONCE_OFFSET..FRAMED_NONCE_OFFSET + 32];
            Included(batch, nonc, r.path, r.indx) || BrokenOn(suite, batch, nonc, r.path, r.indx)
    ensures InWindow(r.cert.dele, r.srep.midp) && r.srep.radi != 0
    ensures var start, end := LEGACY_VALUES_START + r.offsets[2], LEGACY_VALUES_START + r.offsets[3];
            end <= |bytes| && suite.verify(r.cert.dele.pubk, RfcDraft08.SrepPrefix() + bytes[start..end], r.sig)
    ensures known.Some? ==> suite.verify(known.value, SignedDele(RfcDraft08, r.cert.dele), r.cert.sig)
  {
    ProofIncludes(suite, batch, request[FRAMED_NONCE_OFFSET..FRAMED_NONCE_OFFSET + 32], r.path, r.indx);
  }

  lemma PlaceInBatch(n: nat, i: nat)
    requires i < n
    ensures i % Pow2(Depth(n)) == i
  {
    DepthIsCeilLog2(n);
    Quotient(i, Pow2(Depth(n)), 0, i);
  }

  /** A string that is not leaf i does not pass with the path of leaf i, or the digest is broken. */
  lemma OtherLeafFails(suite: Suite, leaves: seq<Bytes>, leaf: Bytes, i: nat)
    requires i < |leaves| < 0x1_0000_0000 && leaf != leaves[i]
    ensures var path := PathTo(suite, leaves, i);
            || CheckMerkle(suite, leaf, path, i, RootOf(suite, leaves)) == Err(FailedProof)
            || BrokenOn(suite, leaves, leaf, path, i)
  {
    var path := PathTo(suite, leaves, i);
    if CheckMerkle(suite, leaf, path, i, RootOf(suite, leaves)) == Ok(()) {
      ProofIncludes(suite, leaves, leaf, path, i);
      PlaceInBatch(|leaves|, i);
    }
  }

  /**
    The condition of `Draft08Accepted` is needed: where the nonce of an accepted request lies
    anywhere else than at bytes 40 to 72, with different bytes there, its sender rejects the
    response meant for it, or the digest is broken.
  */
  lemma Draft08Rejected(suite: Suite, known: Option<Bytes32>, identity: Bytes32, seed: Bytes32, t0: u64, validity: u64,
                        leaves: seq<Bytes>, now: u64, bytes: Bytes, nonc: Bytes32, i: nat)
    requires suite.Ideal() && Knows(suite, known, identity) && i < |leaves| < 0x1_0000_0000
    requires |bytes| == REQUEST_SIZE && leaves[i] == nonc && NonceAt(bytes, FRAMED_NONCE_OFFSET) != nonc
    ensures var key := IssueKey(suite, identity, RfcDraft08, seed, t0, validity);
            var frame := FrameFor(suite, key, leaves, now, nonc, i);
            var r := Response08(suite, key, leaves, now, i);
            && LegacyResponseFrames.FromFrame(frame) == Ok((r, [])) && LegacyParsed(r)
            && (|| Validate08(suite, known, bytes, r, frame).Err?
                || BrokenOn(suite, leaves, NonceAt(bytes, FRAMED_NONCE_OFFSET), r.path, r.indx))
  {
    var key := IssueKey(suite, identity, RfcDraft08, seed, t0, validity);
    var root, path := RootOf(suite, leaves), PathTo(suite, leaves, i);
    var r := Response08(suite, key, leaves, now, i);
    Reply08Facts(suite, key, root, now, path, i);
    LegacyResponseFrames.FrameRoundTrip(r);
    ParsedCanBeValidated08(FrameFor(suite, key, leaves, now, nonc, i));
    OtherLeafFails(suite, leaves, NonceAt(bytes, FRAMED_NONCE_OFFSET), i);
    FailedProofRejects(suite, known, bytes, r, LegacyResponseFrames.ToFrame(r));
  }

  lemma FailedProofRejects(suite: Suite, known: Option<Bytes32>, request: Bytes, r: LR.Response, frame: Bytes)
    requires LegacyParsed(r) && |request| == REQUEST_SIZE
    ensures CheckMerkle(suite, NonceAt(request, FRAMED_NONCE_OFFSET), r.path, r.indx, r.srep.root).Err? ==>
              Validate08(suite, known, request, r, frame).Err?
  {
  }

  /** Such requests exist: one that announces both versions is accepted by the server, and its response rejected by its sender. */
  lemma TwoVersionsRejected(suite: Suite, known: Option<Bytes32>, identity: Bytes32, seed: Bytes32, t0: u64, validity: u64,
                            leaves: seq<Bytes>, now: u64, nonc: Bytes32, i: nat)
    requires suite.Ideal() && Knows(suite, known, identity) && i < |leaves| < 0x1_0000_0000
    requires leaves[i] == nonc && nonc[0] != 0x0c
    ensures var bytes := Frames.Framed(TwoVersionsMessage(nonc));
            var key := IssueKey(suite, identity, RfcDraft08, seed, t0, validity);
            var frame := FrameFor(suite, key, leaves, now, nonc, i);
            var r := Response08(suite, key, leaves, now, i);
            && FromFrame(bytes).Ok? && FromFrame(bytes).value.0.nonc == nonc && NonceAt(bytes, FRAMED_NONCE_OFFSET) != nonc
            && LegacyResponseFrames.FromFrame(frame) == Ok((r, [])) && LegacyParsed(r)
            && (|| Validate08(suite, known, bytes, r, frame).Err?
                || BrokenOn(suite, leaves, NonceAt(bytes, FRAMED_NONCE_OFFSET), r.path, r.indx))
  {
    TwoVersionsParsed(nonc);
    TwoVersionsMisplace(nonc);
    Draft08Rejected(suite, known, identity, seed, t0, validity, leaves, now, Frames.Framed(TwoVersionsMessage(nonc)), nonc, i);
  }
}
