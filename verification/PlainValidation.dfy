/** What a validated response proves, on byte strings, the digest and the signature check alone. */
module PlainValidation {
  import opened Wrappers
  import opened Primitives
  import opened Versions
  import opened MerkleSpec
  import opened MerklePaths
  import opened MerkleReference
  import opened MerkleBinding
  import opened Certificates
  import opened Crypto
  import opened Cursors
  import opened PlainWire
  import opened Validation
  import R = Responses
  import LR = LegacyResponses

  // ---- Context strings ---------------------------------------------------------------------------

  function DeleContext(ver: ProtocolVersion): Bytes {
    if ver == RfcDraft08 then Ascii("RoughTime v1 delegation signature--") + [0] else Ascii("RoughTime v1 delegation signature") + [0]
  }

  function SrepContext(): Bytes {
    Ascii("RoughTime v1 response signature") + [0]
  }

  /** No string signed as a delegation is one signed as a response, nor one signed as a delegation of the other draft. */
  lemma ContextsSeparate(ver: ProtocolVersion, x: Bytes, y: Bytes)
    ensures DeleContext(ver) + x != SrepContext() + y
    ensures DeleContext(RfcDraft08) + x != DeleContext(RfcDraft14) + y
  {
    var d, r := "RoughTime v1 delegation signature", "RoughTime v1 response signature";
    var e := "RoughTime v1 delegation signature--";
    assert d[13] == e[13] == 'd' && r[13] == 'r' && e[33] == '-';
    assert (DeleContext(ver) + x)[13] == 'd' as int && (SrepContext() + y)[13] == 'r' as int;
    assert (DeleContext(RfcDraft08) + x)[33] == '-' as int && (DeleContext(RfcDraft14) + y)[33] == 0;
  }

  // ---- The single checks ----------------------------------------------------------------------------

  /** The long-term key signed the delegation. */
  predicate Delegated(suite: Suite, key: Bytes32, ver: ProtocolVersion, cert: Certificate) {
    suite.verify(key, DeleContext(ver) + PlainDele(cert.dele), cert.sig)
  }

  /** The delegated key signed this part of what was received. */
  predicate Signed(suite: Suite, cert: Certificate, bytes: Bytes, start: nat, end: nat, sig: Bytes64) {
    start <= end <= |bytes| && suite.verify(cert.dele.pubk, SrepContext() + bytes[start..end], sig)
  }

  /** The leaf, climbed along the path, gives the root. */
  predicate Proved(suite: Suite, leaf: Bytes, path: Path, indx: u32, root: Bytes32) {
    PlainClimb(suite.digest, indx, suite.digest([0x00] + leaf), Plain(path)) == root
  }

  lemma DeleCheckIsPlain(suite: Suite, key: Option<Bytes32>, cert: Certificate, ver: ProtocolVersion)
    ensures CheckDele(suite, key, cert, ver) ==
            if key.Some? && !Delegated(suite, key.value, ver, cert) then Err(BadSignature) else Ok(())
  {
    DeleIsPlain(cert.dele);
  }

  lemma MerkleCheckIsPlain(suite: Suite, leaf: Bytes, path: Path, indx: u32, root: Bytes32)
    ensures CheckMerkle(suite, leaf, path, indx, root) == if Proved(suite, leaf, path, indx, root) then Ok(()) else Err(FailedProof)
  {
    LeafIsPlain(suite.digest, leaf);
    ClimbIsPlain(suite.digest, indx, Leaf(suite.Hasher(), leaf), path);
  }

  lemma SrepCheckIsPlain(suite: Suite, ver: ProtocolVersion, bytes: Bytes, start: nat, end: nat, sig: Bytes64, cert: Certificate)
    requires start <= end
    ensures CheckSrep(suite, ver, bytes, start, end, sig, cert.dele.pubk) ==
            if Signed(suite, cert, bytes, start, end, sig) then Ok(()) else Err(BadSignature)
  {
  }

  // ---- All of them -------------------------------------------------------------------------------------

  /** Where the values begin in a frame: 12 bytes of framing and a header of seven or of six tags. */
  const BEHIND_HEADER: nat := 12 + 8 * 7
  const BEHIND_LEGACY_HEADER: nat := 12 + 8 * 6

  /** What an accepted draft-14 response amounts to. */
  predicate Accepted14(suite: Suite, known: Option<Bytes32>, request: Bytes, r: R.Response, bytes: Bytes)
    requires r.Sized()
  {
    && (known.Some? ==> Delegated(suite, known.value, r.srep.ver, r.cert))
    && r.srep.ver in r.srep.vers
    && r.cert.dele.mint <= r.srep.midp <= r.cert.dele.maxt
    && r.srep.radi > 0
    && Proved(suite, request, r.path, r.indx, r.srep.root)
    && Signed(suite, r.cert, bytes, BEHIND_HEADER + r.offsets[3], BEHIND_HEADER + r.offsets[4], r.sig)
  }

  /** Validation succeeds exactly for these, with the midpoint; otherwise the first check that fails decides on the error. */
  lemma Validate14Exactly(suite: Suite, known: Option<Bytes32>, request: Bytes, r: R.Response, bytes: Bytes)
    requires Parsed(r)
    ensures var result := Validate14(suite, known, request, r, bytes);
            && (result.Ok? <==> Accepted14(suite, known, request, r, bytes))
            && (result.Ok? ==> result.value == r.srep.midp)
    ensures var result := Validate14(suite, known, request, r, bytes);
            var delegated := known.Some? ==> Delegated(suite, known.value, r.srep.ver, r.cert);
            var listed := delegated && r.srep.ver in r.srep.vers;
            var timely := listed && r.cert.dele.mint <= r.srep.midp <= r.cert.dele.maxt;
            var bounded := timely && r.srep.radi > 0;
            var proved := bounded && Proved(suite, request, r.path, r.indx, r.srep.root);
            && (!delegated ==> result == Err(BadSignature))
            && (delegated && !listed ==> result == Err(VersionMismatch(r.srep.ver)))
            && (listed && !timely ==> result == Err(InvalidMidpoint))
            && (timely && !bounded ==> result == Err(InvalidRadius))
            && (bounded && !proved ==> result == Err(FailedProof))
            && (proved && result.Err? ==> result == Err(BadSignature))
  {
    DeleCheckIsPlain(suite, known, r.cert, r.srep.ver);
    MerkleCheckIsPlain(suite, request, r.path, r.indx, r.srep.root);
    SrepCheckIsPlain(suite, r.srep.ver, bytes, BEHIND_HEADER + r.offsets[3], BEHIND_HEADER + r.offsets[4], r.sig, r.cert);
  }

  predicate Accepted08(suite: Suite, known: Option<Bytes32>, request: Bytes, r: LR.Response, bytes: Bytes)
    requires r.Sized()
  {
    && (known.Some? ==> Delegated(suite, known.value, RfcDraft08, r.cert))
    && r.cert.dele.mint <= r.srep.midp <= r.cert.dele.maxt
    && r.srep.radi > 0
    && |request| >= 72 && Proved(suite, request[40..72], r.path, r.indx, r.srep.root)
    && Signed(suite, r.cert, bytes, BEHIND_LEGACY_HEADER + r.offsets[2], BEHIND_LEGACY_HEADER + r.offsets[3], r.sig)
  }

  lemma Validate08Exactly(suite: Suite, known: Option<Bytes32>, request: Bytes, r: LR.Response, bytes: Bytes)
    requires LegacyParsed(r)
    ensures var result := Validate08(suite, known, request, r, bytes);
            && (result.Ok? <==> Accepted08(suite, known, request, r, bytes))
            && (result.Ok? ==> result.value == r.srep.midp)
    ensures var result := Validate08(suite, known, request, r, bytes);
            var delegated := known.Some? ==> Delegated(suite, known.value, RfcDraft08, r.cert);
            var timely := delegated && r.cert.dele.mint <= r.srep.midp <= r.cert.dele.maxt;
            var bounded := timely && r.srep.radi > 0;
            var long := bounded && |request| >= 72;
            var proved := long && Proved(suite, request[40..72], r.path, r.indx, r.srep.root);
            && (!delegated ==> result == Err(BadSignature))
            && (delegated && !timely ==> result == Err(InvalidMidpoint))
            && (timely && !bounded ==> result == Err(InvalidRadius))
            && (bounded && !long ==> result == Err(InvalidMessage(BufferTooSmall(72, |request|))))
            && (long && !proved ==> result == Err(FailedProof))
            && (proved && result.Err? ==> result == Err(BadSignature))
  {
    DeleCheckIsPlain(suite, known, r.cert, RfcDraft08);
    if |request| >= 72 {
      MerkleCheckIsPlain(suite, request[40..72], r.path, r.indx, r.srep.root);
    }
    SrepCheckIsPlain(suite, RfcDraft08, bytes, BEHIND_LEGACY_HEADER + r.offsets[2], BEHIND_LEGACY_HEADER + r.offsets[3], r.sig, r.cert);
  }
}
