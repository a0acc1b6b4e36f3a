/** Client and server together: what a query of an honest worker yields. */
module MeasuredRuns {
  import opened Wrappers
  import opened Primitives
  import opened Versions
  import opened Crypto
  import opened Batches
  import opened Service
  import opened WorkerModel
  import opened WorkerSafety
  import opened Sequences
  import Requests
  import Reporting
  import V = Validation
  import E = EndToEnd
  import LR = LegacyResponses
  import SR = SignedResponses
  import ResponseFrames
  import LegacyResponseFrames

  /** The query succeeds, with this time and the default radius, and what it records survives in a report. */
  ghost predicate Measures(suite: Suite, client: KeyedClient, prior: Option<Reply>, random: Bytes32, reply: Bytes, time: u64) {
    var m := Query(suite, client, prior, Turn(random, Some(reply)));
    && m.Ok? && m.value.client == client
    && m.value.Midpoint() == time && m.value.Radius() == SR.DEFAULT_RADI_SECONDS
    && Reporting.Whole(m.value)
  }

  lemma Accepted14Measures(suite: Suite, client: KeyedClient, prior: Option<Reply>, random: Bytes32, reply: Bytes, time: u64)
    requires client.version == RfcDraft14 && |reply| <= RECEIVE_BUFFER
    requires var request := RequestFor(suite, client, NonceFor(suite, prior, random));
             Accepts14(suite, client.publicKey, Requests.ToFrame(request), reply, time)
    ensures Measures(suite, client, prior, random, reply, time)
  {
    var request := RequestFor(suite, client, NonceFor(suite, prior, random));
    var r := ResponseFrames.FromFrame(reply).value.0;
    AcceptedIsRecorded(suite, client, prior, random, request, reply, r);
  }

  lemma Accepted08Measures(suite: Suite, client: KeyedClient, prior: Option<Reply>, random: Bytes32, reply: Bytes, time: u64)
    requires client.version == RfcDraft08 && |reply| <= RECEIVE_BUFFER
    requires var request := RequestFor(suite, client, NonceFor(suite, prior, random));
             Accepts08(suite, client.publicKey, Requests.ToFrame(request), reply, time)
    ensures Measures(suite, client, prior, random, reply, time)
  {
    var request := RequestFor(suite, client, NonceFor(suite, prior, random));
    var r := LegacyResponseFrames.FromFrame(reply).value.0;
    LR.ConvertedCoherent(r, 0);
    AcceptedIsRecorded(suite, client, prior, random, request, reply, r.Converted());
  }

  /** The requests of draft-08 clients have their nonce in place. */
  lemma OwnRequestInPlace(suite: Suite, client: KeyedClient, nonce: Bytes32, p: Pending, frame: Bytes)
    requires client.version == RfcDraft08 && frame == Requests.ToFrame(RequestFor(suite, client, nonce))
    requires ParsedFrom(p.request, frame)
    ensures NonceInPlace(p, frame)
  {
    Requests.FreshRoundTrip(Requests.Kind.Draft08, [], nonce);
    OneVersionInPlace(p, frame);
  }

  /**
    A client that knows the long-term key of an honest worker of its version, and whose request is
    answered anywhere in any timely run of it, obtains a measurement: the time at which the worker
    signed, with the default radius, in a form that reports preserve.
  */
  lemma HonestAnswerMeasures(c: Config, client: KeyedClient, prior: Option<Reply>, random: Bytes32, seed: Bytes32, t0: u64, now: u64,
                             its: seq<Iteration>, k: nat, i: nat, e: Event)
    requires c.Proper() && c.suite.Ideal() && t0 <= now && Fits(c, its) && Timely(its, now, 1)
    requires client.version == c.version && client.publicKey == Some(c.suite.publicKey(c.identity))
    requires var log := Run(c, Start(c, c.NewKey(seed, t0), now), its).log; k < |log| && log[k] == e
    requires e.Answered? && i < |e.pending| && i < |e.frames|
    requires e.frames[i] == Requests.ToFrame(RequestFor(c.suite, client, NonceFor(c.suite, prior, random)))
    ensures |e.out| == |e.pending| && e.out[i].0 == e.pending[i].addr && InWindow(e.key, e.time)
    ensures Measures(c.suite, client, prior, random, e.out[i].1, e.time)
  {
    RunAnswersAreAccepted(c, client.publicKey, seed, t0, now, its, k, i);
    if c.version == RfcDraft14 {
      Accepted14Measures(c.suite, client, prior, random, e.out[i].1, e.time);
    } else {
      OwnRequestInPlace(c.suite, client, NonceFor(c.suite, prior, random), e.pending[i], e.frames[i]);
      Accepted08Measures(c.suite, client, prior, random, e.out[i].1, e.time);
    }
  }
}
