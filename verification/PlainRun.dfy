/** What a successful run of measurements amounts to, on byte strings, the digest and the signature check alone. */
module PlainRuns {
  import opened Wrappers
  import opened Primitives
  import opened Versions
  import opened Crypto
  import opened Requests
  import opened Validation
  import opened Sequences
  import opened MerkleBinding
  import opened Chains
  import PlainValidation
  import R = Responses
  import LR = LegacyResponses
  import ResponseFrames
  import LegacyResponseFrames

  // ---- One query -----------------------------------------------------------------------------------

  /** The nonce is random at first, afterwards the digest of the frame of the response before and the random bytes. */
  predicate PlainNonce(suite: Suite, prior: Option<Reply>, random: Bytes32, nonc: Bytes32) {
    match prior
    case None => nonc == random
    case Some(response) => nonc == suite.digest(PlainReply(response) + random)
  }

  /** The request is of the client's draft, and commits to its server's key where the draft provides for it. */
  predicate PlainRequest(suite: Suite, client: KeyedClient, request: Request) {
    match client.version
    case RfcDraft08 => request.kind == Kind.Draft08 && request.ver == [RfcDraft08]
    case RfcDraft14 =>
      request.kind == Kind.Draft14Srv && request.ver == [RfcDraft14] && request.srv == suite.digest([0xff] + client.publicKey.value)
  }

  /** The first 1024 bytes of what came back were parsed to the recorded response and passed all checks. */
  predicate PlainAccepted(suite: Suite, client: KeyedClient, request: Bytes, datagram: Bytes, response: Reply) {
    var bytes := if |datagram| > 1024 then datagram[..1024] else datagram;
    match client.version
    case RfcDraft08 =>
      var parsed := LegacyResponseFrames.FromFrame(bytes);
      && parsed.Ok? && parsed.value.0.Sized() && response == parsed.value.0.Converted()
      && PlainValidation.Accepted08(suite, client.publicKey, request, parsed.value.0, bytes)
    case RfcDraft14 =>
      var parsed := ResponseFrames.FromFrame(bytes);
      && parsed.Ok? && response == parsed.value.0
      && PlainValidation.Accepted14(suite, client.publicKey, request, response, bytes)
  }

  predicate PlainMeasured(suite: Suite, client: KeyedClient, prior: Option<Reply>, turn: Turn, m: Measurement) {
    && m.client == client && m.prior == prior && m.rand == (if prior == None then None else Some(turn.random))
    && PlainNonce(suite, prior, turn.random, m.request.nonc)
    && m.request.Sized() && PlainRequest(suite, client, m.request)
    && turn.reply.Some? && PlainAccepted(suite, client, ToFrame(m.request), turn.reply.value, m.response)
  }

  lemma Accept08IsPlain(suite: Suite, client: KeyedClient, request: Bytes, datagram: Bytes, response: Reply)
    requires client.version == RfcDraft08 && Accept(suite, client, request, Received(datagram)) == Ok(response)
    ensures PlainAccepted(suite, client, request, datagram, response)
  {
    var bytes := Received(datagram);
    ParsedCanBeValidated08(bytes);
    PlainValidation.Validate08Exactly(suite, client.publicKey, request, LegacyResponseFrames.FromFrame(bytes).value.0, bytes);
  }

  lemma Accept14IsPlain(suite: Suite, client: KeyedClient, request: Bytes, datagram: Bytes, response: Reply)
    requires client.version == RfcDraft14 && Accept(suite, client, request, Received(datagram)) == Ok(response)
    ensures PlainAccepted(suite, client, request, datagram, response)
  {
    var bytes := Received(datagram);
    ParsedCanBeValidated14(bytes);
    PlainValidation.Validate14Exactly(suite, client.publicKey, request, response, bytes);
  }

  lemma NonceIsPlain(suite: Suite, prior: Option<Reply>, random: Bytes32)
    ensures PlainNonce(suite, prior, random, NonceFor(suite, prior, random))
  {
    hide PlainReply, ChainedNonce;
    if prior.Some? {
      ChainedNonceIsPlain(suite, prior.value, random);
    }
  }

  lemma RequestIsPlain(suite: Suite, client: KeyedClient, nonce: Bytes32, request: Request)
    requires request == RequestFor(suite, client, nonce)
    ensures PlainRequest(suite, client, request) && request.Sized() && request.nonc == nonce
  {
  }

  /** What a query leaves behind, seen from its pieces. */
  lemma QueryParts(suite: Suite, client: KeyedClient, prior: Option<Reply>, turn: Turn, m: Measurement, nonce: Bytes32)
    requires nonce == NonceFor(suite, prior, turn.random) && Query(suite, client, prior, turn) == Ok(m)
    ensures m.request == RequestFor(suite, client, nonce) && turn.reply.Some?
    ensures Accept(suite, client, ToFrame(m.request), Received(turn.reply.value)) == Ok(m.response)
    ensures m.client == client && m.prior == prior && m.rand == (if prior == None then None else Some(turn.random))
  {
  }

  lemma {:induction false} QueryIsPlain(suite: Suite, client: KeyedClient, prior: Option<Reply>, turn: Turn, m: Measurement)
    requires Query(suite, client, prior, turn) == Ok(m)
    ensures PlainMeasured(suite, client, prior, turn, m)
  {
    hide Query, Accept, PlainAccepted, PlainRequest, PlainNonce, NonceFor, RequestFor, ToFrame;
    var nonce := NonceFor(suite, prior, turn.random);
    QueryParts(suite, client, prior, turn, m, nonce);
    NonceIsPlain(suite, prior, turn.random);
    RequestIsPlain(suite, client, nonce, m.request);
    if client.version == RfcDraft08 {
      Accept08IsPlain(suite, client, ToFrame(m.request), turn.reply.value, m.response);
    } else {
      Accept14IsPlain(suite, client, ToFrame(m.request), turn.reply.value, m.response);
    }
  }

  // ---- Whole runs --------------------------------------------------------------------------------------

  /** Measurement k of a run is the answer to query k. */
  lemma {:induction false} RunQueries(ask: Asking, schedule: seq<KeyedClient>, prior: Option<Reply>, turns: seq<Turn>, ms: seq<Measurement>, k: nat)
    requires |turns| == |schedule| && RunAll(ask, schedule, prior, turns) == Ok(ms) && k < |schedule|
    ensures |ms| == |schedule| && ask(schedule[k], PriorOf(prior, ms, k), turns[k]) == Ok(ms[k])
    decreases |schedule|
  {
    var m := ask(schedule[0], prior, turns[0]).value;
    var later := RunAll(ask, schedule[1..], Some(m.response), turns[1..]).value;
    assert ms == [m] + later;
    if k > 0 {
      RunQueries(ask, schedule[1..], Some(m.response), turns[1..], later, k - 1);
      assert PriorOf(Some(m.response), later, k - 1) == PriorOf(prior, ms, k);
    } else if |schedule| > 1 {
      RunQueries(ask, schedule[1..], Some(m.response), turns[1..], later, 0);
    } else {
      assert schedule[1..] == [];
    }
  }

  /** Every measurement of every successful run, in full. */
  lemma {:induction false} RunIsPlain(suite: Suite, clients: seq<KeyedClient>, rounds: nat, turns: seq<Turn>, ms: seq<Measurement>, k: nat)
    requires clients != [] && |turns| == |Rounds(clients, rounds)| && k < |ms|
    requires RunAll(AskWith(suite), Rounds(clients, rounds), None, turns) == Ok(ms)
    ensures |ms| == |turns| == rounds * |clients|
    ensures PlainMeasured(suite, clients[k % |clients|], PriorOf(None, ms, k), turns[k], ms[k])
  {
    RunIsChained(suite, clients, rounds, turns, ms);
    RoundsAt(clients, rounds, k);
    RunQueries(AskWith(suite), Rounds(clients, rounds), None, turns, ms, k);
    QueryIsPlain(suite, clients[k % |clients|], PriorOf(None, ms, k), turns[k], ms[k]);
  }

  /** The nonce of every later measurement, in bytes. */
  lemma {:induction false} RunNonceIsPlain(suite: Suite, clients: seq<KeyedClient>, rounds: nat, turns: seq<Turn>, ms: seq<Measurement>, k: nat)
    requires clients != [] && |turns| == |Rounds(clients, rounds)| && 0 < k < |ms|
    requires RunAll(AskWith(suite), Rounds(clients, rounds), None, turns) == Ok(ms)
    ensures |turns| == |ms| && ms[k].rand == Some(turns[k].random)
    ensures ms[k].request.nonc == suite.digest(PlainReply(ms[k - 1].response) + turns[k].random)
  {
    RunIsPlain(suite, clients, rounds, turns, ms, k);
  }

  lemma DigestFixes(suite: Suite, r1: Reply, rand1: Bytes32, r2: Reply, rand2: Bytes32)
    requires suite.digest(PlainReply(r1) + rand1) == suite.digest(PlainReply(r2) + rand2)
    ensures || (PlainReply(r1) == PlainReply(r2) && rand1 == rand2)
            || DigestCollision(suite.digest, PlainReply(r1) + rand1, PlainReply(r2) + rand2)
  {
    SameSplit(PlainReply(r1), rand1, PlainReply(r2), rand2);
  }

  /**
    The nonce of measurement k fixes the frame of response k - 1 and the random bytes: in any two
    successful runs, of whatever clients, equal nonces come from equal frames and equal random
    bytes, or the digest collides on the two strings that were hashed.
  */
  lemma {:induction false} NonceFixesPrior(suite: Suite, clients1: seq<KeyedClient>, rounds1: nat, turns1: seq<Turn>, ms1: seq<Measurement>, k: nat,
                                           clients2: seq<KeyedClient>, rounds2: nat, turns2: seq<Turn>, ms2: seq<Measurement>, l: nat)
    requires clients1 != [] && |turns1| == |Rounds(clients1, rounds1)| && 0 < k < |ms1|
    requires clients2 != [] && |turns2| == |Rounds(clients2, rounds2)| && 0 < l < |ms2|
    requires RunAll(AskWith(suite), Rounds(clients1, rounds1), None, turns1) == Ok(ms1)
    requires RunAll(AskWith(suite), Rounds(clients2, rounds2), None, turns2) == Ok(ms2)
    requires ms1[k].request.nonc == ms2[l].request.nonc
    ensures |turns1| == |ms1| && |turns2| == |ms2|
    ensures var r1, r2 := ms1[k - 1].response, ms2[l - 1].response;
            || (PlainReply(r1) == PlainReply(r2) && turns1[k].random == turns2[l].random)
            || DigestCollision(suite.digest, PlainReply(r1) + turns1[k].random, PlainReply(r2) + turns2[l].random)
  {
    RunNonceIsPlain(suite, clients1, rounds1, turns1, ms1, k);
    RunNonceIsPlain(suite, clients2, rounds2, turns2, ms2, l);
    DigestFixes(suite, ms1[k - 1].response, turns1[k].random, ms2[l - 1].response, turns2[l].random);
  }
}
