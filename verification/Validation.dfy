/** The client's checks of a response. */
module Validation {
  import opened Wrappers
  import opened Primitives
  import opened Cursors
  import opened Versions
  import opened WordLists
  import opened MerkleSpec
  import opened MerklePaths
  import opened MerkleTrees
  import opened Certificates
  import opened Crypto
  import R = Responses
  import LR = LegacyResponses
  import SR = SignedResponses
  import LSR = LegacySignedResponses
  import ResponseFrames
  import LegacyResponseFrames
  import Frames
  import Requests

  datatype ValidationError =
    | InvalidMidpoint
    | BadSignature
    | FailedProof
    | InvalidMessage(cause: Error)
    | VersionMismatch(ver: ProtocolVersion)
    | InvalidRadius

  type Check = Result<(), ValidationError>

  const VALUES_START: nat := 68
  const LEGACY_VALUES_START: nat := 60

  // ---- The single checks -----------------------------------------------------------------------

  function SignedDele(ver: ProtocolVersion, dele: Delegation): Bytes {
    ver.DelePrefix() + EncodeDele(dele)
  }

  /** Without a known long-term key the delegation is taken as it is. */
  function CheckDele(suite: Suite, key: Option<Bytes32>, cert: Certificate, ver: ProtocolVersion): Check {
    if key.Some? && !suite.verify(key.value, SignedDele(ver, cert.dele), cert.sig) then Err(BadSignature) else Ok(())
  }

  function CheckVersions(srep: SR.SignedResponse): Check {
    if srep.ver in srep.vers then Ok(()) else Err(VersionMismatch(srep.ver))
  }

  function CheckMidpoint(midp: u64, dele: Delegation): Check {
    if dele.mint <= midp <= dele.maxt then Ok(()) else Err(InvalidMidpoint)
  }

  function CheckRadius(radi: u32): Check {
    if radi == 0 then Err(InvalidRadius) else Ok(())
  }

  function CheckMerkle(suite: Suite, leaf: Bytes, path: Path, indx: u32, root: Bytes32): Check {
    if Climb(suite.Hasher(), indx, Leaf(suite.Hasher(), leaf), path).bytes == root then Ok(()) else Err(FailedProof)
  }

  /** The signature is checked over the bytes as received, cut out by the header's offsets. */
  function CheckSrep(suite: Suite, ver: ProtocolVersion, bytes: Bytes, start: nat, end: nat, sig: Bytes64, pubk: Bytes32): Check
    requires start <= end
  {
    if end > |bytes| then Err(BadSignature)
    else if suite.verify(pubk, ver.SrepPrefix() + bytes[start..end], sig) then Ok(())
    else Err(BadSignature)
  }

  /** A response as the client holds it: parsed, so its offsets are ordered. */
  predicate Parsed(r: R.Response) {
    r.Sized() && r.offsets[3] <= r.offsets[4]
  }

  predicate LegacyParsed(r: LR.Response) {
    r.Sized() && r.offsets[2] <= r.offsets[3]
  }

  // ---- All checks in their order -----------------------------------------------------------------

  function Validate14(suite: Suite, key: Option<Bytes32>, request: Bytes, r: R.Response, bytes: Bytes): Result<u64, ValidationError>
    requires Parsed(r)
  {
    var _ :- CheckDele(suite, key, r.cert, r.srep.ver);
    var _ :- CheckVersions(r.srep);
    var _ :- CheckMidpoint(r.srep.midp, r.cert.dele);
    var _ :- CheckRadius(r.srep.radi);
    var _ :- CheckMerkle(suite, request, r.path, r.indx, r.srep.root);
    var _ :- CheckSrep(suite, r.srep.ver, bytes, VALUES_START + r.offsets[3], VALUES_START + r.offsets[4], r.sig, r.cert.dele.pubk);
    Ok(r.srep.midp)
  }

  /** The nonce is cut out of the framed request at the one place where it is for requests with one version. */
  function CheckLegacyMerkle(suite: Suite, request: Bytes, r: LR.Response): Check {
    var end := Requests.FRAMED_NONCE_OFFSET + 32;
    if |request| < end then Err(InvalidMessage(BufferTooSmall(end, |request|)))
    else CheckMerkle(suite, request[Requests.FRAMED_NONCE_OFFSET..end], r.path, r.indx, r.srep.root)
  }

  function Validate08(suite: Suite, key: Option<Bytes32>, request: Bytes, r: LR.Response, bytes: Bytes): Result<u64, ValidationError>
    requires LegacyParsed(r)
  {
    var _ :- CheckDele(suite, key, r.cert, RfcDraft08);
    var _ :- CheckMidpoint(r.srep.midp, r.cert.dele);
    var _ :- CheckRadius(r.srep.radi);
    var _ :- CheckLegacyMerkle(suite, request, r);
    var _ :- CheckSrep(suite, RfcDraft08, bytes, LEGACY_VALUES_START + r.offsets[2], LEGACY_VALUES_START + r.offsets[3], r.sig,
                       r.cert.dele.pubk);
    Ok(r.srep.midp)
  }

  /** Any parsed response can be validated: no offset difference underflows. */
  lemma ParsedCanBeValidated14(b: Bytes)
    ensures ResponseFrames.FromFrame(b).Ok? ==> Parsed(ResponseFrames.FromFrame(b).value.0)
  {
    if ResponseFrames.FromFrame(b).Ok? {
      R.PrintParsed(Frames.Unframe(b).value);
    }
  }

  lemma ParsedCanBeValidated08(b: Bytes)
    ensures LegacyResponseFrames.FromFrame(b).Ok? ==> LegacyParsed(LegacyResponseFrames.FromFrame(b).value.0)
  {
    if LegacyResponseFrames.FromFrame(b).Ok? {
      LR.PrintParsed(Frames.Unframe(b).value);
    }
  }

  // ---- The verified slice is the signed SREP -------------------------------------------------------

  lemma Middle(p: Bytes, s: Bytes, t: Bytes)
    ensures (p + (s + t))[|p|..|p| + |s|] == s
  {
  }

  /** Everything in front of SREP in a message. */
  function FrontOf(r: R.Response): (b: Bytes)
    requires r.Sized()
    ensures |b| == 156 + PathSize(|r.path|)
  {
    R.EncodeHead(r.offsets) + (r.sig + (r.nonc + (EncodeType(MessageType.Response) + EncodePath(r.path))))
  }

  /** Everything behind SREP. */
  function BackOf(cert: Certificate, indx: u32): Bytes {
    EncodeCert(cert) + LE(indx, 4)
  }

  lemma MessageSplit(r: R.Response, rest: Bytes)
    requires r.Sized()
    ensures R.Encode(r) + rest == FrontOf(r) + (SR.Encode(r.srep) + (BackOf(r.cert, r.indx) + rest))
  {
    var s, back := SR.Encode(r.srep), BackOf(r.cert, r.indx);
    Follow5(R.EncodeHead(r.offsets), r.sig, r.nonc, EncodeType(MessageType.Response), EncodePath(r.path), s + back);
    Follow3(FrontOf(r), s, back, rest);
  }

  lemma FramedMiddle(b: Bytes, message: Bytes, p: Bytes, s: Bytes, t: Bytes)
    requires |b| >= Frames.FRAME_OVERHEAD && message == b[Frames.FRAME_OVERHEAD..] && message == p + (s + t)
    ensures var start := Frames.FRAME_OVERHEAD + |p|;
            start + |s| <= |b| && b[start..start + |s|] == s
  {
    Middle(p, s, t);
    assert b == b[..Frames.FRAME_OVERHEAD] + message;
  }

  lemma SliceOfMessage(b: Bytes, message: Bytes, r: R.Response, rest: Bytes)
    requires |b| >= Frames.FRAME_OVERHEAD && message == b[Frames.FRAME_OVERHEAD..]
    requires r.offsets == r.RunningSums() && message == R.Encode(r) + rest
    ensures Parsed(r)
    ensures var start, end := VALUES_START + r.offsets[3], VALUES_START + r.offsets[4];
            end <= |b| && b[start..end] == SR.Encode(r.srep)
  {
    MessageSplit(r, rest);
    FramedMiddle(b, message, FrontOf(r), SR.Encode(r.srep), BackOf(r.cert, r.indx) + rest);
  }

  /**
    The slice of a received frame that the client verifies is the printed form of the SREP it
    parsed, if the offsets are the running sums and no version was sent as the legacy zero.
  */
  lemma ReceivedSliceIsSrep(b: Bytes, message: Bytes, r: R.Response, rest: Bytes)
    requires Frames.Unframe(b) == Ok(message) && R.Decode(message) == Ok((r, rest))
    requires R.LegacyFree(message) && r.offsets == r.RunningSums()
    ensures Parsed(r)
    ensures var start, end := VALUES_START + r.offsets[3], VALUES_START + r.offsets[4];
            end <= |b| && b[start..end] == SR.Encode(r.srep)
  {
    Frames.FrameUnframed(b);
    assert message == R.Encode(r) + rest by { R.PrintParsed(message); }
    SliceOfMessage(b, message, r, rest);
  }

  /** With refreshed offsets, the slice of the frame that the client verifies is exactly the printed SREP. */
  lemma SliceIsSrep(r: R.Response)
    requires r.offsets == r.RunningSums()
    ensures Parsed(r)
    ensures var frame, start, end := ResponseFrames.ToFrame(r), VALUES_START + r.offsets[3], VALUES_START + r.offsets[4];
            end <= |frame| && frame[start..end] == SR.Encode(r.srep)
  {
    var frame, message := ResponseFrames.ToFrame(r), R.Encode(r);
    ResponseFrames.SizeBound(r);
    Frames.FrameExact(frame, |message|, message);
    assert message + [] == message;
    SliceOfMessage(frame, message, r, []);
  }

  function LegacyFrontOf(r: LR.Response): (b: Bytes)
    requires r.Sized()
    ensures |b| == 116 + PathSize(|r.path|)
  {
    LR.EncodeHead(r.offsets) + (r.sig + (EncodeVersion(r.ver) + EncodePath(r.path)))
  }

  lemma LegacyMessageSplit(r: LR.Response)
    requires r.Sized()
    ensures LR.Encode(r) == LegacyFrontOf(r) + (LSR.Encode(r.srep) + BackOf(r.cert, r.indx))
  {
    Follow4(LR.EncodeHead(r.offsets), r.sig, EncodeVersion(r.ver), EncodePath(r.path), LSR.Encode(r.srep) + BackOf(r.cert, r.indx));
  }

  /** The same for draft-08. */
  lemma LegacySliceIsSrep(r: LR.Response)
    requires r.offsets == r.RunningSums()
    ensures LegacyParsed(r)
    ensures var frame, start, end := LegacyResponseFrames.ToFrame(r), LEGACY_VALUES_START + r.offsets[2], LEGACY_VALUES_START + r.offsets[3];
            end <= |frame| && frame[start..end] == LSR.Encode(r.srep)
  {
    var frame, message := LegacyResponseFrames.ToFrame(r), LR.Encode(r);
    LegacyResponseFrames.SizeBound(r);
    Frames.FrameExact(frame, |message|, message);
    LegacyMessageSplit(r);
    FramedMiddle(frame, message, LegacyFrontOf(r), LSR.Encode(r.srep), BackOf(r.cert, r.indx));
  }

  // ---- The validator ---------------------------------------------------------------------------

  class ResponseValidator {
    const suite: Suite
    const pubKey: Option<Bytes32>

    constructor (suite: Suite, pubKey: Option<Bytes32>)
      ensures this.suite == suite && this.pubKey == pubKey
    {
      this.suite, this.pubKey := suite, pubKey;
    }

    method ValidateDraft14(request: Bytes, r: R.Response, bytes: Bytes) returns (result: Result<u64, ValidationError>)
      requires Parsed(r)
      ensures result == Validate14(suite, pubKey, request, r, bytes)
    {
      if pubKey.Some? {
        var _ :- CheckDeleSignature(pubKey.value, r.cert, r.srep.ver);
      }
      var _ :- CheckVersions(r.srep);
      var _ :- CheckMidpoint(r.srep.midp, r.cert.dele);
      var _ :- CheckRadius(r.srep.radi);
      var _ :- CheckMerkleProof(request, r.path, r.indx, r.srep.root);
      var _ :- CheckSrepSignature(r.srep.ver, bytes, VALUES_START + r.offsets[3], VALUES_START + r.offsets[4], r.sig, r.cert.dele.pubk);
      return Ok(r.srep.midp);
    }

    method ValidateDraft08(request: Bytes, r: LR.Response, bytes: Bytes) returns (result: Result<u64, ValidationError>)
      requires LegacyParsed(r)
      ensures result == Validate08(suite, pubKey, request, r, bytes)
    {
      if pubKey.Some? {
        var _ :- CheckDeleSignature(pubKey.value, r.cert, RfcDraft08);
      }
      var _ :- CheckMidpoint(r.srep.midp, r.cert.dele);
      var _ :- CheckRadius(r.srep.radi);
      var end := Requests.FRAMED_NONCE_OFFSET + 32;
      if |request| < end {
        return Err(InvalidMessage(BufferTooSmall(end, |request|)));
      }
      var _ :- CheckMerkleProof(request[Requests.FRAMED_NONCE_OFFSET..end], r.path, r.indx, r.srep.root);
      var _ :- CheckSrepSignature(RfcDraft08, bytes, LEGACY_VALUES_START + r.offsets[2], LEGACY_VALUES_START + r.offsets[3], r.sig,
                                  r.cert.dele.pubk);
      return Ok(r.srep.midp);
    }

    /** Prints the delegation behind its context prefix into a buffer and verifies the whole buffer. */
    method CheckDeleSignature(key: Bytes32, cert: Certificate, ver: ProtocolVersion) returns (result: Check)
      ensures result == CheckDele(suite, Some(key), cert, ver)
    {
      var prefix := ver.DelePrefix();
      var buf := new byte[|prefix| + DELE_SIZE](_ => 0);
      Fill(buf, prefix, 0);
      assert buf[..|prefix|] == prefix;
      PutDele(buf, |prefix|, cert.dele);
      assert buf[..] == buf[..|prefix|] + buf[|prefix|..];
      if suite.verify(key, buf[..], cert.sig) {
        return Ok(());
      }
      return Err(BadSignature);
    }

    method PutDele(buf: array<byte>, start: nat, dele: Delegation)
      requires start + DELE_SIZE == buf.Length
      modifies buf
      ensures buf[..start] == old(buf[..start]) && buf[start..] == EncodeDele(dele)
    {
      var cursor := new ParseCursor(buf, start, buf.Length);
      assert cursor.Written() == [] && cursor.Outside().0 == buf[..start];
      var done := DeleToWire(dele, cursor);
      assert cursor.Written() == EncodeDele(dele);
      assert cursor.Written() == buf[start..];
    }

    method CheckSrepSignature(ver: ProtocolVersion, bytes: Bytes, start: nat, end: nat, sig: Bytes64, pubk: Bytes32) returns (result: Check)
      requires start <= end
      ensures result == CheckSrep(suite, ver, bytes, start, end, sig, pubk)
    {
      if end > |bytes| {
        return Err(BadSignature);
      }
      var prefix, srep := ver.SrepPrefix(), bytes[start..end];
      var buf := new byte[|prefix| + |srep|](_ => 0);
      Fill(buf, prefix, 0);
      Fill(buf, srep, |prefix|);
      assert buf[..] == prefix + srep;
      if suite.verify(pubk, buf[..], sig) {
        return Ok(());
      }
      return Err(BadSignature);
    }

    method CheckMerkleProof(leaf: Bytes, path: Path, indx: u32, root: Bytes32) returns (result: Check)
      ensures result == CheckMerkle(suite, leaf, path, indx, root)
    {
      var tree := new MerkleTree(suite.digest);
      var computed := tree.RootFromPaths(indx, leaf, path);
      if computed.bytes != root {
        return Err(FailedProof);
      }
      return Ok(());
    }
  }

  /** Copies bytes into a part of a buffer. */
  method Fill(buf: array<byte>, src: Bytes, start: nat)
    requires start + |src| <= buf.Length
    modifies buf
    ensures buf[..] == old(buf[..start]) + src + old(buf[start + |src|..])
  {
    forall k | 0 <= k < |src| {
      buf[start + k] := src[k];
    }
  }
}
