/**
  A response that a client accepts and whose report the reporting server refuses.

  The parser lets bytes trail a message and checks SREP's offset of ROOT against them too. When the
  recorded response is printed for a report the trailing bytes are gone, and the offset points beyond
  what is left.
*/
module TrailedReplies {
  import opened Wrappers
  import opened Primitives
  import opened Versions
  import opened WordLists
  import opened MerkleSpec
  import opened MerklePaths
  import opened Certificates
  import opened Crypto
  import opened OnlineKeys
  import opened Requests
  import opened Batches
  import opened Validation
  import opened Sequences
  import opened Reporting
  import EndToEnd
  import R = Responses
  import SR = SignedResponses
  import Frames
  import ResponseFrames

  const TRAILING: nat := 100

  /** As many versions as fit, and an offset of ROOT that announces more than were sent. */
  function WideSrep(root: Bytes32, now: u64): SR.SignedResponse {
    SR.SignedResponse(RfcDraft14, SR.DEFAULT_RADI_SECONDS, now, seq(32, _ => RfcDraft14), root, 416)
  }

  lemma WideSrepCoherent(root: Bytes32, now: u64, extra: nat)
    requires extra == CERT_SIZE + 4 + TRAILING
    ensures var s := WideSrep(root, now);
            SR.Coherent(s, extra) && s.rootOffset > 48 + Quad(|s.vers|) + CERT_SIZE + 4 && s.ver in s.vers && s.radi != 0
  {
    var s := WideSrep(root, now);
    assert |s.vers| == 32 && s.vers[0] == RfcDraft14;
    assert VersionCount(400) == 32;
  }

  /** What a server that owns its keys can answer a request with: a batch of one, signed as it should be. */
  function Wide(suite: Suite, identity: Bytes32, seed: Bytes32, now: u64, request: Bytes, nonc: Bytes32): R.Response {
    var key := IssueKey(suite, identity, RfcDraft14, seed, now, 1);
    var srep := WideSrep(RootOf(suite, [request]), now);
    R.Refreshed(R.Response.Response(R.DEFAULT_RESPONSE.offsets, SignSrep(suite, key, Srep14(srep)), nonc, [], srep, key.cert, 0))
  }

  function Trailed(r: R.Response): (b: Bytes)
    requires r.Sized()
  {
    ResponseFrames.SizeBound(r);
    Frames.Framed(R.Encode(r) + Zeros(TRAILING))
  }

  lemma TrailedParses(r: R.Response, extra: nat)
    requires r.offsets == r.RunningSums() && extra == CERT_SIZE + 4 + TRAILING && SR.Coherent(r.srep, extra)
    ensures Frames.Unframe(Trailed(r)) == Ok(R.Encode(r) + Zeros(TRAILING))
    ensures ResponseFrames.FromFrame(Trailed(r)) == Ok((r, Zeros(TRAILING)))
    ensures |Trailed(r)| == Frames.FRAME_OVERHEAD + r.Size() + TRAILING
  {
    ResponseFrames.SizeBound(r);
    Frames.UnframeFramed(R.Encode(r) + Zeros(TRAILING));
    R.RefreshedCoherent(r, TRAILING);
    R.ParsePrinted(r, Zeros(TRAILING));
  }

  /** The frame passes every check of a client that knows the server's key, or none. */
  lemma TrailedValidates(suite: Suite, known: Option<Bytes32>, identity: Bytes32, seed: Bytes32, now: u64, request: Bytes, nonc: Bytes32)
    requires suite.Ideal() && EndToEnd.Knows(suite, known, identity)
    ensures var r := Wide(suite, identity, seed, now, request, nonc);
            && ResponseFrames.FromFrame(Trailed(r)) == Ok((r, Zeros(TRAILING))) && Parsed(r)
            && Validate14(suite, known, request, r, Trailed(r)) == Ok(now)
            && |Trailed(r)| <= RECEIVE_BUFFER
  {
    var root := RootOf(suite, [request]);
    var r := Wide(suite, identity, seed, now, request, nonc);
    var key := IssueKey(suite, identity, RfcDraft14, seed, now, 1);
    var frame, message := Trailed(r), R.Encode(r) + Zeros(TRAILING);
    WideSrepCoherent(root, now, CERT_SIZE + 4 + TRAILING);
    TrailedParses(r, CERT_SIZE + 4 + TRAILING);
    ResponseFrames.SizeBound(r);
    Frames.FrameUnframed(frame);
    SliceOfMessage(frame, message, r, Zeros(TRAILING));
    EndToEnd.IssuedKeyChecks(suite, known, identity, key, seed, now, 1);
    EndToEnd.MerkleChecks(suite, [request], 0);
    assert PathTo(suite, [request], 0) == [];
    assert suite.verify(key.cert.dele.pubk, RfcDraft14.SrepPrefix() + Srep14(r.srep).Encode(), r.sig);
    EndToEnd.AllChecks14(suite, known, request, r, frame, VALUES_START + r.offsets[3], VALUES_START + r.offsets[4]);
  }

  lemma TrailedAccepted(suite: Suite, client: KeyedClient, identity: Bytes32, seed: Bytes32, now: u64, request: Bytes, nonc: Bytes32)
    requires suite.Ideal() && client.version == RfcDraft14 && client.publicKey == Some(suite.publicKey(identity))
    ensures var r := Wide(suite, identity, seed, now, request, nonc);
            && |Trailed(r)| <= RECEIVE_BUFFER && Accept(suite, client, request, Trailed(r)) == Ok(r)
            && !R.Contained(r)
  {
    TrailedValidates(suite, client.publicKey, identity, seed, now, request, nonc);
    WideSrepCoherent(RootOf(suite, [request]), now, CERT_SIZE + 4 + TRAILING);
  }

  /** What such a server contributes to one query. */
  function TrailedTurn(suite: Suite, client: KeyedClient, identity: Bytes32, seed: Bytes32, now: u64, prior: Option<Reply>, random: Bytes32): Turn {
    var request := RequestFor(suite, client, NonceFor(suite, prior, random));
    Turn(random, Some(Trailed(Wide(suite, identity, seed, now, ToFrame(request), request.nonc))))
  }

  /** A client takes it as a measurement that does not survive in a report. */
  lemma TrailedRecorded(suite: Suite, client: KeyedClient, identity: Bytes32, seed: Bytes32, now: u64, prior: Option<Reply>, random: Bytes32)
    requires suite.Ideal() && client.version == RfcDraft14 && client.publicKey == Some(suite.publicKey(identity))
    ensures var m := Query(suite, client, prior, TrailedTurn(suite, client, identity, seed, now, prior, random));
            m.Ok? && !Survives(m.value)
  {
    var request := RequestFor(suite, client, NonceFor(suite, prior, random));
    var r := Wide(suite, identity, seed, now, ToFrame(request), request.nonc);
    TrailedAccepted(suite, client, identity, seed, now, ToFrame(request), request.nonc);
    AcceptedIsRecorded(suite, client, prior, random, request, Trailed(r), r);
  }

  /**
    So the chaining check of reports is not met by all successful runs: if the first server answers
    like this, the report is refused for its first entry, whatever the other servers do.
  */
  lemma {:induction false} TrailedRunIsRefused(suite: Suite, clients: seq<KeyedClient>, rounds: nat, identity: Bytes32, seed: Bytes32, now: u64,
                            turns: seq<Turn>, ms: seq<Measurement>)
    requires suite.Ideal() && clients != [] && |turns| == |Rounds(clients, rounds)|
    requires clients[0].version == RfcDraft14 && clients[0].publicKey == Some(suite.publicKey(identity))
    requires turns != [] && turns[0] == TrailedTurn(suite, clients[0], identity, seed, now, None, turns[0].random)
    requires RunAll(AskWith(suite), Rounds(clients, rounds), None, turns) == Ok(ms) && |ms| >= 2
    ensures forall k :: 0 <= k < |ms| ==> ms[k].request.Sized()
    ensures CheckReport(suite, EntriesOf(ms)) == Err(InvalidResponse(0))
  {
    RunIsChained(suite, clients, rounds, turns, ms);
    RunPassesExactly(suite, clients, ms);
    TrailedRecorded(suite, clients[0], identity, seed, now, None, turns[0].random);
    FirstMeasurement(suite, clients, rounds, turns, ms);
  }

  lemma {:induction false} FirstMeasurement(suite: Suite, clients: seq<KeyedClient>, rounds: nat, turns: seq<Turn>, ms: seq<Measurement>)
    requires clients != [] && |turns| == |Rounds(clients, rounds)| && turns != []
    requires RunAll(AskWith(suite), Rounds(clients, rounds), None, turns) == Ok(ms)
    ensures ms != [] && Query(suite, clients[0], None, turns[0]) == Ok(ms[0])
  {
    assert Rounds(clients, rounds)[0] == clients[0];
  }
}
