/** Chained measurements over several servers. */
module Sequences {
  import opened Wrappers
  import opened Primitives
  import opened Cursors
  import opened Versions
  import opened Crypto
  import opened Validation
  import opened Requests
  import MerkleSpec
  import R = Responses
  import LR = LegacyResponses
  import ResponseFrames
  import LegacyResponseFrames

  /** A response with the six offsets of its header type. */
  type Reply = r: R.Response | r.Sized() witness R.DEFAULT_RESPONSE

  datatype Client = Client(server: nat, hostname: string, version: ProtocolVersion, publicKey: Option<Bytes32>)

  /** A client whose server's long-term key is known, as measurement sequences ask for. */
  type KeyedClient = c: Client | c.publicKey.Some? witness Client(0, "", RfcDraft14, Some(Zeros(32)))

  datatype ClientError =
    | InvalidConfiguration
    | Transport
    | Protocol(cause: Error)
    | Rejected(reason: ValidationError)

  datatype Measurement = Measurement(
    client: KeyedClient, request: Request, response: Reply, rand: Option<Bytes32>, prior: Option<Reply>)
  {
    function Midpoint(): u64 { response.srep.midp }

    function Radius(): u32 { response.srep.radi }
  }

  /** What the world contributes to one query: 32 random bytes and the datagram that comes back, if any. */
  datatype Turn = Turn(random: Bytes32, reply: Option<Bytes>)

  const RECEIVE_BUFFER: nat := 1024

  const MIN_SERVERS: nat := 3

  /** A datagram as it lands in the receive buffer. */
  function Received(datagram: Bytes): (b: Bytes)
    ensures |b| <= RECEIVE_BUFFER
  {
    if |datagram| > RECEIVE_BUFFER then datagram[..RECEIVE_BUFFER] else datagram
  }

  function ProtocolResult<T>(r: Parse<T>): Result<T, ClientError> {
    match r
    case Ok(parsed) => Ok(parsed.0)
    case Err(error) => Err(Protocol(error))
  }

  function ValidationResult(r: Result<u64, ValidationError>): Result<u64, ClientError> {
    match r
    case Ok(time) => Ok(time)
    case Err(error) => Err(Rejected(error))
  }

  /** A random nonce for the first query, the hash chain afterwards. */
  function NonceFor(suite: Suite, prior: Option<Reply>, random: Bytes32): Bytes32
  {
    match prior
    case None => random
    case Some(response) => ChainedNonce(suite, response, random)
  }

  function RequestFor(suite: Suite, client: KeyedClient, nonce: Bytes32): (request: Request)
    ensures request.Sized() && request.nonc == nonce
  {
    match client.version
    case RfcDraft08 => NewDraft08(nonce)
    case RfcDraft14 => NewDraft14Srv(nonce, SrvCommitment(suite, client.publicKey.value))
  }

  function Accept14(suite: Suite, key: Option<Bytes32>, request: Bytes, bytes: Bytes): Result<Reply, ClientError> {
    ParsedCanBeValidated14(bytes);
    var response :- ProtocolResult(ResponseFrames.FromFrame(bytes));
    var _ :- ValidationResult(Validate14(suite, key, request, response, bytes));
    Ok(response)
  }

  function Accept08(suite: Suite, key: Option<Bytes32>, request: Bytes, bytes: Bytes): Result<LR.Response, ClientError> {
    ParsedCanBeValidated08(bytes);
    var response :- ProtocolResult(LegacyResponseFrames.FromFrame(bytes));
    var _ :- ValidationResult(Validate08(suite, key, request, response, bytes));
    Ok(response)
  }

  /** Parse and validate a reply; draft-08 responses are converted. */
  function Accept(suite: Suite, client: Client, request: Bytes, bytes: Bytes): Result<Reply, ClientError> {
    match client.version
    case RfcDraft08 =>
      var response :- Accept08(suite, client.publicKey, request, bytes);
      Ok(response.Converted())
    case RfcDraft14 =>
      Accept14(suite, client.publicKey, request, bytes)
  }

  function Query(suite: Suite, client: KeyedClient, prior: Option<Reply>, turn: Turn): Result<Measurement, ClientError> {
    var request := RequestFor(suite, client, NonceFor(suite, prior, turn.random));
    if turn.reply == None then Err(Transport)
    else
      var response :- Accept(suite, client, ToFrame(request), Received(turn.reply.value));
      Ok(Measurement.Measurement(client, request, response, if prior == None then None else Some(turn.random), prior))
  }

  /** A reply that fits the buffer and is accepted becomes the response of the measurement. */
  lemma AcceptedIsRecorded(suite: Suite, client: KeyedClient, prior: Option<Reply>, random: Bytes32, request: Request, reply: Bytes, r: Reply)
    requires request == RequestFor(suite, client, NonceFor(suite, prior, random))
    requires |reply| <= RECEIVE_BUFFER && Accept(suite, client, ToFrame(request), reply) == Ok(r)
    ensures Query(suite, client, prior, Turn(random, Some(reply))) ==
            Ok(Measurement.Measurement(client, request, r, if prior == None then None else Some(random), prior))
  {
    hide Accept, RequestFor, NonceFor;
    assert Received(reply) == reply;
  }

  type Asking = (KeyedClient, Option<Reply>, Turn) -> Result<Measurement, ClientError>

  function AskWith(suite: Suite): Asking {
    (client: KeyedClient, prior: Option<Reply>, turn: Turn) => Query(suite, client, prior, turn)
  }

  /** Queries one after the other, each given the response before; the first failure ends the run. */
  function RunAll(ask: Asking, schedule: seq<KeyedClient>, prior: Option<Reply>, turns: seq<Turn>): Result<seq<Measurement>, ClientError>
    requires |turns| == |schedule|
  {
    if schedule == [] then Ok([])
    else
      var m :- ask(schedule[0], prior, turns[0]);
      var later :- RunAll(ask, schedule[1..], Some(m.response), turns[1..]);
      Ok([m] + later)
  }

  /** All clients in order, round after round. */
  function Rounds(clients: seq<KeyedClient>, rounds: nat): seq<KeyedClient> {
    if rounds == 0 then [] else clients + Rounds(clients, rounds - 1)
  }

  lemma RoundsStep(clients: seq<KeyedClient>, rounds: nat)
    requires rounds > 0
    ensures Rounds(clients, rounds) == clients + Rounds(clients, rounds - 1)
  {
  }

  lemma {:induction false} RoundsAt(clients: seq<KeyedClient>, rounds: nat, k: nat)
    requires clients != []
    ensures |Rounds(clients, rounds)| == rounds * |clients|
    ensures k < |Rounds(clients, rounds)| ==> Rounds(clients, rounds)[k] == clients[k % |clients|]
  {
    if rounds > 0 {
      var n := |clients|;
      RoundsAt(clients, rounds - 1, if k < n then 0 else k - n);
      if k >= n {
        ModuloStep(k, n);
      }
    }
  }

  lemma ModuloStep(k: nat, n: nat)
    requires k >= n > 0
    ensures k % n == (k - n) % n
  {
    MerkleSpec.Quotient(k, n, (k - n) / n + 1, (k - n) % n);
  }

  // ---- The chain invariant ------------------------------------------------------------------------

  type Linking = (KeyedClient, Option<Reply>, Measurement) -> bool

  /** What one measurement of a run owes to the response before it. */
  ghost predicate Links(suite: Suite, client: KeyedClient, prior: Option<Reply>, m: Measurement) {
    && m.client == client && m.prior == prior
    && (match prior
        case None => m.rand == None
        case Some(response) => m.rand.Some? && m.request.nonc == ChainedNonce(suite, response, m.rand.value))
    && m.request == RequestFor(suite, client, m.request.nonc)
    && Answered(suite, client, m)
  }

  /** The response was accepted from some datagram, as the answer to exactly the request that was sent. */
  ghost predicate Answered(suite: Suite, client: Client, m: Measurement) {
    m.request.Sized() &&
    exists bytes :: |bytes| <= RECEIVE_BUFFER && Accept(suite, client, ToFrame(m.request), bytes) == Ok(m.response)
  }

  ghost function LinkedWith(suite: Suite): Linking {
    (client: KeyedClient, prior: Option<Reply>, m: Measurement) => Links(suite, client, prior, m)
  }

  /** The response that measurement k is chained to. */
  function PriorOf(first: Option<Reply>, ms: seq<Measurement>, k: nat): Option<Reply>
    requires k < |ms|
  {
    if k == 0 then first else Some(ms[k - 1].response)
  }

  /** Measurement k is linked to client k and to the response of measurement k - 1. */
  ghost predicate Chained(linked: Linking, schedule: seq<KeyedClient>, prior: Option<Reply>, ms: seq<Measurement>) {
    && |ms| == |schedule|
    && forall k :: 0 <= k < |ms| ==> linked(schedule[k], PriorOf(prior, ms, k), ms[k])
  }

  ghost predicate LinksEachAnswer(ask: Asking, linked: Linking) {
    forall client, prior, turn {:trigger ask(client, prior, turn)} ::
      ask(client, prior, turn).Ok? ==> linked(client, prior, ask(client, prior, turn).value)
  }

  lemma {:induction false} RunChains(ask: Asking, linked: Linking, schedule: seq<KeyedClient>, prior: Option<Reply>, turns: seq<Turn>)
    requires LinksEachAnswer(ask, linked) && |turns| == |schedule|
    requires RunAll(ask, schedule, prior, turns).Ok?
    ensures Chained(linked, schedule, prior, RunAll(ask, schedule, prior, turns).value)
  {
    if schedule != [] {
      var m := ask(schedule[0], prior, turns[0]).value;
      RunChains(ask, linked, schedule[1..], Some(m.response), turns[1..]);
      var ms := RunAll(ask, schedule, prior, turns).value;
      var later := RunAll(ask, schedule[1..], Some(m.response), turns[1..]).value;
      forall k | 0 <= k < |ms|
        ensures linked(schedule[k], PriorOf(prior, ms, k), ms[k])
      {
        if k > 0 {
          assert ms[k] == later[k - 1] && schedule[k] == schedule[1..][k - 1];
          assert PriorOf(Some(m.response), later, k - 1) == PriorOf(prior, ms, k);
          assert linked(schedule[1..][k - 1], PriorOf(Some(m.response), later, k - 1), later[k - 1]);
        }
      }
    }
  }

  lemma QueryLinks(suite: Suite, client: KeyedClient, prior: Option<Reply>, turn: Turn)
    requires Query(suite, client, prior, turn).Ok?
    ensures Links(suite, client, prior, Query(suite, client, prior, turn).value)
  {
    var m := Query(suite, client, prior, turn).value;
    var bytes := Received(turn.reply.value);
    assert Accept(suite, client, ToFrame(m.request), bytes) == Ok(m.response);
  }

  lemma QueriesLink(suite: Suite)
    ensures LinksEachAnswer(AskWith(suite), LinkedWith(suite))
  {
    forall client: KeyedClient, prior: Option<Reply>, turn: Turn | Query(suite, client, prior, turn).Ok?
      ensures Links(suite, client, prior, Query(suite, client, prior, turn).value)
    {
      QueryLinks(suite, client, prior, turn);
    }
  }

  ghost predicate ChainedInRounds(linked: Linking, clients: seq<KeyedClient>, ms: seq<Measurement>)
    requires clients != []
  {
    forall k :: 0 <= k < |ms| ==> linked(clients[k % |clients|], PriorOf(None, ms, k), ms[k])
  }

  lemma InRounds(linked: Linking, clients: seq<KeyedClient>, rounds: nat, ms: seq<Measurement>)
    requires clients != [] && Chained(linked, Rounds(clients, rounds), None, ms)
    ensures |ms| == rounds * |clients| && ChainedInRounds(linked, clients, ms)
  {
    RoundsAt(clients, rounds, 0);
    forall k | 0 <= k < |ms|
      ensures linked(clients[k % |clients|], PriorOf(None, ms, k), ms[k])
    {
      RoundsAt(clients, rounds, k);
    }
  }

  /**
    The chain invariant. A successful run has rounds * clients measurements, number k by client
    k mod n; number 0 has no random value and no prior response, and every later one carries the
    nonce that chains it to the response before, and was answered by a response that validated.
  */
  lemma RunIsChained(suite: Suite, clients: seq<KeyedClient>, rounds: nat, turns: seq<Turn>, ms: seq<Measurement>)
    requires clients != [] && |turns| == |Rounds(clients, rounds)|
    requires RunAll(AskWith(suite), Rounds(clients, rounds), None, turns) == Ok(ms)
    ensures |ms| == rounds * |clients| && ChainedInRounds(LinkedWith(suite), clients, ms)
  {
    QueriesLink(suite);
    RunChains(AskWith(suite), LinkedWith(suite), Rounds(clients, rounds), None, turns);
    InRounds(LinkedWith(suite), clients, rounds, ms);
  }

  /** What the chain says of measurement k. */
  lemma LinkAt(suite: Suite, clients: seq<KeyedClient>, ms: seq<Measurement>, k: nat)
    requires clients != [] && ChainedInRounds(LinkedWith(suite), clients, ms) && k < |ms|
    ensures Links(suite, clients[k % |clients|], PriorOf(None, ms, k), ms[k])
    ensures ms[k].client == clients[k % |clients|]
    ensures k == 0 ==> ms[k].rand == None && ms[k].prior == None
    ensures k > 0 ==> var prior := ms[k - 1].response;
              && ms[k].prior == Some(prior) && ms[k].rand.Some?
              && ms[k].request.nonc == ChainedNonce(suite, prior, ms[k].rand.value)
    ensures Answered(suite, ms[k].client, ms[k])
  {
    var linked := LinkedWith(suite);
    assert linked(clients[k % |clients|], PriorOf(None, ms, k), ms[k]);
  }

  predicate AllKeyed(clients: seq<Client>) {
    forall i :: 0 <= i < |clients| ==> clients[i].publicKey.Some?
  }

  function Keyed(clients: seq<Client>): (keyed: seq<KeyedClient>)
    requires AllKeyed(clients)
    ensures keyed == clients
  {
    clients
  }

  // ---- The run itself ------------------------------------------------------------------------------

  /** A sequence over too few servers is refused (section 10 of draft-ietf-ntp-roughtime-14). */
  method NewSequence(suite: Suite, clients: seq<Client>) returns (r: Result<MeasurementSequence, ClientError>)
    ensures if |clients| < MIN_SERVERS then r == Err(InvalidConfiguration)
            else r.Ok? && r.value.suite == suite && r.value.clients == clients
  {
    if |clients| < MIN_SERVERS {
      return Err(InvalidConfiguration);
    }
    var sequence := new MeasurementSequence(suite, clients);
    return Ok(sequence);
  }

  class MeasurementSequence {
    const suite: Suite
    const clients: seq<Client>

    constructor (suite: Suite, clients: seq<Client>)
      requires |clients| >= MIN_SERVERS
      ensures this.suite == suite && this.clients == clients
    {
      this.suite, this.clients := suite, clients;
    }

    /** The turns are what the random generator and the network contribute, one for every query. */
    method Run(rounds: nat, turns: seq<Turn>) returns (r: Result<seq<Measurement>, ClientError>)
      requires AllKeyed(clients) ==> |turns| == |Rounds(Keyed(clients), rounds)|
      ensures if AllKeyed(clients) then r == RunAll(AskWith(suite), Rounds(Keyed(clients), rounds), None, turns)
              else r == Err(InvalidConfiguration)
    {
      var i := 0;
      while i < |clients|
        invariant 0 <= i <= |clients| && forall k :: 0 <= k < i ==> clients[k].publicKey.Some?
      {
        if clients[i].publicKey == None {
          return Err(InvalidConfiguration);
        }
        i := i + 1;
      }
      r := RunKeyed(Keyed(clients), rounds, turns);
    }

    method RunKeyed(keyed: seq<KeyedClient>, rounds: nat, turns: seq<Turn>) returns (r: Result<seq<Measurement>, ClientError>)
      requires |turns| == |Rounds(keyed, rounds)|
      ensures r == RunAll(AskWith(suite), Rounds(keyed, rounds), None, turns)
    {
      ghost var ask := AskWith(suite);
      ghost var whole := RunAll(ask, Rounds(keyed, rounds), None, turns);
      var measurements: seq<Measurement>, prior: Option<Reply>, left := [], None, turns;
      NothingBehind(whole);
      for togo := rounds downto 0
        invariant |left| == |Rounds(keyed, togo)|
        invariant Behind(measurements, RunAll(ask, Rounds(keyed, togo), prior, left)) == whole
      {
        ghost var later := Rounds(keyed, togo);
        RoundsStep(keyed, togo + 1);
        var failure;
        measurements, prior, left, failure := RunRound(keyed, later, ask, measurements, prior, left);
        if failure.Some? {
          return Err(failure.value);
        }
      }
      assert measurements + [] == measurements;
      return Ok(measurements);
    }

    /** The inner loop: every client once. */
    method RunRound(keyed: seq<KeyedClient>, ghost later: seq<KeyedClient>, ghost ask: Asking,
                    before: seq<Measurement>, first: Option<Reply>, turns: seq<Turn>)
      returns (measurements: seq<Measurement>, prior: Option<Reply>, left: seq<Turn>, failure: Option<ClientError>)
      requires |turns| == |keyed + later| && ask == AskWith(suite)
      ensures failure == None ==> |left| == |later|
      ensures failure == None ==>
                Behind(measurements, RunAll(ask, later, prior, left)) == Behind(before, RunAll(ask, keyed + later, first, turns))
      ensures failure.Some? ==> Behind(before, RunAll(ask, keyed + later, first, turns)) == Err(failure.value)
    {
      hide RunAll, Query;
      ghost var whole := Behind(before, RunAll(ask, keyed + later, first, turns));
      measurements, prior, left := before, first, turns;
      assert keyed[0..] == keyed;
      for c := 0 to |keyed|
        invariant |left| == |keyed[c..] + later|
        invariant Behind(measurements, RunAll(ask, keyed[c..] + later, prior, left)) == whole
      {
        ghost var schedule := keyed[c..] + later;
        assert schedule[0] == keyed[c] && schedule[1..] == keyed[c + 1..] + later;
        Unfold(ask, schedule, prior, left, measurements);
        var answer := QueryServer(keyed[c], prior, left[0]);
        match answer {
          case Err(error) =>
            failure := Some(error);
            return;
          case Ok(measurement) =>
            prior := Some(measurement.response);
            measurements := measurements + [measurement];
            left := left[1..];
        }
      }
      assert keyed[|keyed|..] + later == later;
      failure := None;
    }

    method QueryServer(client: KeyedClient, prior: Option<Reply>, turn: Turn) returns (r: Result<Measurement, ClientError>)
      ensures r == Query(suite, client, prior, turn)
    {
      var nonce := NonceFor(suite, prior, turn.random);
      var request := RequestFor(suite, client, nonce);
      var requestBytes := Requests.AsFrameBytes(request);
      if turn.reply == None {
        return Err(Transport);
      }
      var bytes := Received(turn.reply.value);
      var response :- ParseAndValidate(client, requestBytes, bytes);
      return Ok(Measurement.Measurement(client, request, response, if prior == None then None else Some(turn.random), prior));
    }

    method ParseAndValidate(client: KeyedClient, request: Bytes, bytes: Bytes) returns (r: Result<Reply, ClientError>)
      ensures r == Accept(suite, client, request, bytes)
    {
      var cursor := CursorOver(bytes);
      var validator := new ResponseValidator(suite, client.publicKey);
      match client.version {
        case RfcDraft08 =>
          ParsedCanBeValidated08(bytes);
          var parsed := LegacyResponseFrames.ReadFrame(cursor);
          if parsed.Err? {
            return Err(Protocol(parsed.error));
          }
          var checked := validator.ValidateDraft08(request, parsed.value, bytes);
          if checked.Err? {
            return Err(Rejected(checked.error));
          }
          return Ok(parsed.value.Converted());
        case RfcDraft14 =>
          ParsedCanBeValidated14(bytes);
          var parsed := ResponseFrames.ReadFrame(cursor);
          if parsed.Err? {
            return Err(Protocol(parsed.error));
          }
          var checked := validator.ValidateDraft14(request, parsed.value, bytes);
          if checked.Err? {
            return Err(Rejected(checked.error));
          }
          return Ok(parsed.value);
      }
    }
  }

  /** A result of the queries still to come, behind the measurements that are in. */
  function Behind(done: seq<Measurement>, later: Result<seq<Measurement>, ClientError>): Result<seq<Measurement>, ClientError> {
    match later
    case Ok(ms) => Ok(done + ms)
    case Err(error) => Err(error)
  }

  lemma NothingBehind(r: Result<seq<Measurement>, ClientError>)
    ensures Behind([], r) == r
  {
    if r.Ok? {
      assert [] + r.value == r.value;
    }
  }

  /** One query moves its measurement from the results to come to those that are in. */
  lemma Unfold(ask: Asking, schedule: seq<KeyedClient>, prior: Option<Reply>, turns: seq<Turn>, done: seq<Measurement>)
    requires schedule != [] && |turns| == |schedule|
    ensures var answer := ask(schedule[0], prior, turns[0]);
            Behind(done, RunAll(ask, schedule, prior, turns)) ==
            match answer
            case Err(error) => Err(error)
            case Ok(m) => Behind(done + [m], RunAll(ask, schedule[1..], Some(m.response), turns[1..]))
  {
    var answer := ask(schedule[0], prior, turns[0]);
    if answer.Ok? {
      var later := RunAll(ask, schedule[1..], Some(answer.value.response), turns[1..]);
      if later.Ok? {
        assert done + ([answer.value] + later.value) == done + [answer.value] + later.value;
      }
    }
  }
}
