/** Reports of whole runs and the check of their chaining by the reporting server. */
module Reporting {
  import opened Wrappers
  import opened Primitives
  import opened Cursors
  import opened Versions
  import opened WordLists
  import opened Certificates
  import opened Crypto
  import opened Requests
  import opened Sequences
  import R = Responses
  import LR = LegacyResponses
  import ResponseFrames

  /** An entry with its fields decoded. */
  datatype Entry = Entry(request: Bytes, response: Bytes, rand: Option<Bytes32>)

  datatype ReportError =
    | TooFewEntries
    | InvalidRequest(index: nat)
    | InvalidResponse(index: nat)
    | UnexpectedRand(index: nat)
    | MissingRand(index: nat)
    | WrongNonce(index: nat)

  function EntryOf(m: Measurement): Entry
    requires m.request.Sized()
  {
    Entry(ToFrame(m.request), ResponseFrames.ToFrame(m.response), m.rand)
  }

  /** The first entry carries no random value; each later nonce is chained to the response before. */
  function CheckChaining(suite: Suite, request: Request, rand: Option<Bytes32>, previous: Option<Reply>, index: nat): Result<(), ReportError> {
    match previous
    case None => if rand.Some? then Err(UnexpectedRand(index)) else Ok(())
    case Some(response) =>
      if rand == None then Err(MissingRand(index))
      else if request.nonc != ChainedNonce(suite, response, rand.value) then Err(WrongNonce(index))
      else Ok(())
  }

  function ParseReply(b: Bytes): Result<Reply, Error> {
    SizedReply(b);
    var (r, _) :- ResponseFrames.FromFrame(b);
    Ok(r)
  }

  lemma SizedReply(b: Bytes)
    ensures ResponseFrames.FromFrame(b).Ok? ==> ResponseFrames.FromFrame(b).value.0.Sized()
  {
    if ResponseFrames.FromFrame(b).Ok? {
      ResponseFrames.FrameReprints(b);
    }
  }

  /** One turn of the loop over the entries: the response that the next entry must be chained to. */
  function CheckEntry(suite: Suite, entry: Entry, previous: Option<Reply>, index: nat): Result<Reply, ReportError> {
    match FromFrame(entry.request)
    case Err(_) => Err(InvalidRequest(index))
    case Ok(request) =>
      match ParseReply(entry.response)
      case Err(_) => Err(InvalidResponse(index))
      case Ok(response) =>
        var _ :- CheckChaining(suite, request.0, entry.rand, previous, index);
        Ok(response)
  }

  type Checking = (Entry, Option<Reply>, nat) -> Result<Reply, ReportError>

  function CheckWith(suite: Suite): Checking {
    (entry: Entry, previous: Option<Reply>, index: nat) => CheckEntry(suite, entry, previous, index)
  }

  function CheckAll(check: Checking, entries: seq<Entry>, previous: Option<Reply>, index: nat): Result<(), ReportError>
    decreases |entries|
  {
    if entries == [] then Ok(())
    else
      var response :- check(entries[0], previous, index);
      CheckAll(check, entries[1..], Some(response), index + 1)
  }

  function CheckReport(suite: Suite, entries: seq<Entry>): Result<(), ReportError> {
    if |entries| < 2 then Err(TooFewEntries) else CheckAll(CheckWith(suite), entries, None, 0)
  }

  // ---- Which runs pass ----------------------------------------------------------------------------

  /** Both last offsets of the recorded response, its own and SREP's, stay within the message itself. */
  predicate Survives(m: Measurement) {
    R.Contained(m.response)
  }

  lemma RequestReparses(suite: Suite, client: KeyedClient, nonce: Bytes32)
    ensures var request := RequestFor(suite, client, nonce);
            FromFrame(ToFrame(request)).Ok? && FromFrame(ToFrame(request)).value.0 == request
  {
    match client.version
    case RfcDraft08 => FreshRoundTrip(Kind.Draft08, [], nonce);
    case RfcDraft14 => FreshRoundTrip(Kind.Draft14Srv, SrvCommitment(suite, client.publicKey.value), nonce);
  }

  /** A response that was parsed, with `extra` bytes behind it, is read back unchanged exactly when it is contained. */
  lemma ReplyReparses(r: Reply, extra: nat)
    requires R.Coherent(r, extra)
    ensures ParseReply(ResponseFrames.ToFrame(r)) == Ok(r) <==> R.Contained(r)
    ensures ParseReply(ResponseFrames.ToFrame(r)).Ok? <==> R.Contained(r)
  {
    var message := R.Encode(r);
    ResponseFrames.SizeBound(r);
    ResponseFrames.Frames.UnframeFramed(message);
    assert message + [] == message;
    R.ContainedIsCoherent(r, extra);
    R.ParsePrinted(r, []);
    if R.Decode(message).Ok? {
      R.ReparsedIsCoherent(r, extra, []);
    }
  }

  /** Responses of draft-08 servers are rebuilt by conversion. */
  lemma ConvertedWasParsed(suite: Suite, client: KeyedClient, request: Bytes, bytes: Bytes, r: Reply)
    requires client.version == RfcDraft08 && Accept(suite, client, request, bytes) == Ok(r)
    ensures R.Coherent(r, 0)
  {
    LR.ConvertedCoherent(Accept08(suite, client.publicKey, request, bytes).value, 0);
  }

  lemma Accepted14WasParsed(suite: Suite, client: KeyedClient, request: Bytes, bytes: Bytes, r: Reply) returns (extra: nat)
    requires client.version == RfcDraft14 && Accept(suite, client, request, bytes) == Ok(r)
    ensures R.Coherent(r, extra)
  {
    var message := ResponseFrames.Frames.Unframe(bytes).value;
    R.PrintParsed(message);
    extra := |R.Decode(message).value.1|;
  }

  /** Every recorded response was parsed, with something behind it or nothing. */
  lemma RecordedWasParsed(suite: Suite, client: KeyedClient, m: Measurement) returns (extra: nat)
    requires Answered(suite, client, m)
    ensures R.Coherent(m.response, extra)
    ensures client.version == RfcDraft08 ==> extra == 0
  {
    hide Accept, R.Coherent;
    var request := ToFrame(m.request);
    var bytes :| |bytes| <= RECEIVE_BUFFER && Accept(suite, client, request, bytes) == Ok(m.response);
    if client.version == RfcDraft08 {
      extra := 0;
      ConvertedWasParsed(suite, client, request, bytes, m.response);
    } else {
      extra := Accepted14WasParsed(suite, client, request, bytes, m.response);
    }
  }

  /** What becomes of an entry that is linked to the one before it. */
  function Outcome(m: Measurement, index: nat): Result<Reply, ReportError> {
    if Survives(m) then Ok(m.response) else Err(InvalidResponse(index))
  }

  lemma EntryOutcome(suite: Suite, client: KeyedClient, previous: Option<Reply>, m: Measurement, index: nat)
    requires Links(suite, client, previous, m)
    ensures CheckEntry(suite, EntryOf(m), previous, index) == Outcome(m, index)
  {
    hide R.Coherent, R.Contained, Answered, FromFrame, ToFrame, ParseReply, RequestFor, ChainedNonce;
    var extra := RecordedWasParsed(suite, client, m);
    RequestReparses(suite, client, m.request.nonc);
    ReplyReparses(m.response, extra);
  }

  function EntriesOf(ms: seq<Measurement>): (entries: seq<Entry>)
    requires forall k :: 0 <= k < |ms| ==> ms[k].request.Sized()
    ensures |entries| == |ms|
    ensures forall k :: 0 <= k < |ms| ==> entries[k] == EntryOf(ms[k])
  {
    seq(|ms|, k requires 0 <= k < |ms| => EntryOf(ms[k]))
  }

  /** Entry k, behind the response of measurement k - 1, comes out as measurement k says. */
  ghost predicate ComesOut(check: Checking, ms: seq<Measurement>, entries: seq<Entry>, k: nat)
    requires k < |ms| == |entries|
  {
    check(entries[k], PriorOf(None, ms, k), k) == Outcome(ms[k], k)
  }

  /** The verdict on measurements that are numbered from `index`: the first response that does not survive. */
  function Verdict(ms: seq<Measurement>, index: nat): (r: Result<(), ReportError>)
    ensures r.Ok? <==> forall i :: 0 <= i < |ms| ==> Survives(ms[i])
    ensures r.Err? ==>
              && r.error.InvalidResponse? && index <= r.error.index < index + |ms|
              && !Survives(ms[r.error.index - index])
              && forall j :: 0 <= j < r.error.index - index ==> Survives(ms[j])
    decreases |ms|
  {
    if ms == [] then Ok(())
    else if Survives(ms[0]) then Verdict(ms[1..], index + 1)
    else Err(InvalidResponse(index))
  }

  lemma {:induction false} CheckReachesVerdict(check: Checking, ms: seq<Measurement>, entries: seq<Entry>, k: nat)
    requires k <= |ms| == |entries| && forall i :: 0 <= i < |ms| ==> ComesOut(check, ms, entries, i)
    ensures CheckAll(check, entries[k..], if k == 0 then None else Some(ms[k - 1].response), k) == Verdict(ms[k..], k)
    decreases |ms| - k
  {
    if k < |ms| {
      assert ComesOut(check, ms, entries, k) && entries[k..][0] == entries[k] && ms[k..][0] == ms[k];
      CheckReachesVerdict(check, ms, entries, k + 1);
      assert entries[k..][1..] == entries[k + 1..] && ms[k..][1..] == ms[k + 1..];
    }
  }

  lemma {:induction false} ReportVerdict(check: Checking, ms: seq<Measurement>, entries: seq<Entry>)
    requires |ms| == |entries| && forall i :: 0 <= i < |ms| ==> ComesOut(check, ms, entries, i)
    ensures CheckAll(check, entries, None, 0) == Verdict(ms, 0)
  {
    CheckReachesVerdict(check, ms, entries, 0);
    assert entries[0..] == entries && ms[0..] == ms;
  }

  lemma {:induction false} MeasurementOutcome(suite: Suite, clients: seq<KeyedClient>, ms: seq<Measurement>, k: nat)
    requires clients != [] && ChainedInRounds(LinkedWith(suite), clients, ms) && k < |ms|
    ensures ms[k].request.Sized()
    ensures CheckEntry(suite, EntryOf(ms[k]), PriorOf(None, ms, k), k) == Outcome(ms[k], k)
  {
    LinkAt(suite, clients, ms, k);
    EntryOutcome(suite, clients[k % |clients|], PriorOf(None, ms, k), ms[k], k);
  }

  lemma {:induction false} AllSized(suite: Suite, clients: seq<KeyedClient>, ms: seq<Measurement>)
    requires clients != [] && ChainedInRounds(LinkedWith(suite), clients, ms)
    ensures forall k :: 0 <= k < |ms| ==> ms[k].request.Sized()
  {
    forall k | 0 <= k < |ms|
      ensures ms[k].request.Sized()
    {
      MeasurementOutcome(suite, clients, ms, k);
    }
  }

  lemma {:induction false} AllComeOut(suite: Suite, clients: seq<KeyedClient>, ms: seq<Measurement>, entries: seq<Entry>, check: Checking)
    requires clients != [] && ChainedInRounds(LinkedWith(suite), clients, ms) && check == CheckWith(suite)
    requires |entries| == |ms|
    requires forall k :: 0 <= k < |ms| ==> ms[k].request.Sized() && entries[k] == EntryOf(ms[k])
    ensures forall k :: 0 <= k < |ms| ==> ComesOut(check, ms, entries, k)
  {
    forall k | 0 <= k < |ms|
      ensures ComesOut(check, ms, entries, k)
    {
      MeasurementOutcome(suite, clients, ms, k);
    }
  }

  /**
    The report of a whole run passes the chaining check of the reporting server exactly when every
    recorded response survives; otherwise the first that does not is what the report is refused for.
  */
  lemma {:induction false} RunPassesExactly(suite: Suite, clients: seq<KeyedClient>, ms: seq<Measurement>)
    requires clients != [] && ChainedInRounds(LinkedWith(suite), clients, ms) && |ms| >= 2
    ensures forall k :: 0 <= k < |ms| ==> ms[k].request.Sized()
    ensures CheckReport(suite, EntriesOf(ms)) == Verdict(ms, 0)
    ensures CheckReport(suite, EntriesOf(ms)).Ok? <==> forall k :: 0 <= k < |ms| ==> Survives(ms[k])
  {
    AllSized(suite, clients, ms);
    AllComeOut(suite, clients, ms, EntriesOf(ms), CheckWith(suite));
    ReportVerdict(CheckWith(suite), ms, EntriesOf(ms));
  }

  // ---- Which responses survive ----------------------------------------------------------------------

  /** Recorded from a draft-08 server, or from a draft-14 frame with nothing behind the message. */
  ghost predicate Whole(m: Measurement) {
    || m.client.version == RfcDraft08
    || exists b :: ResponseFrames.FromFrame(b) == Ok((m.response, []))
  }

  /** A parsed draft-14 response does if nothing trailed it. */
  lemma UntrailedSurvives(b: Bytes, r: Reply)
    requires ResponseFrames.FromFrame(b) == Ok((r, []))
    ensures R.Contained(r)
  {
    R.PrintParsed(ResponseFrames.Frames.Unframe(b).value);
    R.ContainedIsCoherent(r, 0);
  }

  /** Responses of draft-08 servers survive because conversion leaves nothing behind them. */
  lemma WholeSurvives(suite: Suite, client: KeyedClient, m: Measurement)
    requires Answered(suite, client, m) && m.client == client && Whole(m)
    ensures Survives(m)
  {
    if client.version == RfcDraft08 {
      var extra := RecordedWasParsed(suite, client, m);
      R.ContainedIsCoherent(m.response, 0);
    } else {
      var b :| ResponseFrames.FromFrame(b) == Ok((m.response, []));
      UntrailedSurvives(b, m.response);
    }
  }

  /** So the report of every run without trailing bytes passes. */
  lemma {:induction false} WholeRunPasses(suite: Suite, clients: seq<KeyedClient>, ms: seq<Measurement>)
    requires clients != [] && ChainedInRounds(LinkedWith(suite), clients, ms) && |ms| >= 2
    requires forall k :: 0 <= k < |ms| ==> Whole(ms[k])
    ensures forall k :: 0 <= k < |ms| ==> ms[k].request.Sized()
    ensures CheckReport(suite, EntriesOf(ms)).Ok?
  {
    forall k | 0 <= k < |ms|
      ensures Survives(ms[k])
    {
      LinkAt(suite, clients, ms, k);
      WholeSurvives(suite, ms[k].client, ms[k]);
    }
    RunPassesExactly(suite, clients, ms);
  }

  /**
    If bytes trailed it, a response with running-sum offsets survives exactly when SREP's offset
    of ROOT, which was checked against all the bytes that followed, stays within the message itself.
  */
  lemma TrailedSurvives(r: Reply)
    requires r.offsets == r.RunningSums()
    ensures R.Contained(r) <==> r.srep.rootOffset <= 48 + Quad(|r.srep.vers|) + CERT_SIZE + 4
  {
  }

  // ---- The loop over the entries ----------------------------------------------------------------------

  method ValidateReport(suite: Suite, entries: seq<Entry>) returns (r: Result<(), ReportError>)
    ensures r == CheckReport(suite, entries)
  {
    if |entries| < 2 {
      return Err(TooFewEntries);
    }
    ghost var check := CheckWith(suite);
    var previous: Option<Reply> := None;
    assert entries[0..] == entries;
    for i := 0 to |entries|
      invariant CheckAll(check, entries, None, 0) == CheckAll(check, entries[i..], previous, i)
    {
      assert entries[i..][0] == entries[i] && entries[i..][1..] == entries[i + 1..];
      var response := ValidateOne(suite, entries[i], previous, i);
      if response.Err? {
        return Err(response.error);
      }
      previous := Some(response.value);
    }
    return Ok(());
  }

  method ValidateOne(suite: Suite, entry: Entry, previous: Option<Reply>, index: nat) returns (r: Result<Reply, ReportError>)
    ensures r == CheckEntry(suite, entry, previous, index)
  {
    var requestCursor := CursorOver(entry.request);
    var request := Requests.ReadFrame(requestCursor);
    if request.Err? {
      return Err(InvalidRequest(index));
    }
    SizedReply(entry.response);
    var responseCursor := CursorOver(entry.response);
    var response := ResponseFrames.ReadFrame(responseCursor);
    if response.Err? {
      return Err(InvalidResponse(index));
    }
    var _ :- CheckChaining(suite, request.value, entry.rand, previous, index);
    return Ok(response.value);
  }
}
