/** From runs of the worker to clients: every answer of every run is accepted, and how tight the timing is. */
module WorkerSafety {
  import opened Wrappers
  import opened Primitives
  import opened Cursors
  import opened Versions
  import opened Crypto
  import opened OnlineKeys
  import opened Batches
  import opened Service
  import opened WorkerModel
  import Requests
  import V = Validation
  import E = EndToEnd
  import SR = SignedResponses
  import ResponseFrames
  import LegacyResponseFrames

  /** The client that sent `frame` parses `reply` to a response it accepts, with time `time` and the default radius. */
  ghost predicate Accepts14(suite: Suite, known: Option<Bytes32>, frame: Bytes, reply: Bytes, time: u64) {
    match ResponseFrames.FromFrame(reply)
    case Err(_) => false
    case Ok(parsed) =>
      && parsed.1 == [] && parsed.0.srep.midp == time && parsed.0.srep.radi == SR.DEFAULT_RADI_SECONDS
      && V.Parsed(parsed.0) && V.Validate14(suite, known, frame, parsed.0, reply) == Ok(time)
  }

  ghost predicate Accepts08(suite: Suite, known: Option<Bytes32>, frame: Bytes, reply: Bytes, time: u64) {
    match LegacyResponseFrames.FromFrame(reply)
    case Err(_) => false
    case Ok(parsed) =>
      && parsed.1 == [] && parsed.0.srep.midp == time && parsed.0.srep.radi == SR.DEFAULT_RADI_SECONDS
      && V.LegacyParsed(parsed.0) && V.Validate08(suite, known, frame, parsed.0, reply) == Ok(time)
  }

  lemma GoodAnswerAccepted14(c: Config, known: Option<Bytes32>, e: Event, i: nat)
    requires c.Proper() && c.version == RfcDraft14 && c.suite.Ideal() && E.Knows(c.suite, known, c.identity)
    requires e.Answered? && GoodAnswer(c, e) && i < |e.pending|
    ensures |e.out| == |e.frames| == |e.pending| && e.out[i].0 == e.pending[i].addr
    ensures Accepts14(c.suite, known, e.frames[i], e.out[i].1, e.time)
  {
    var seed: Bytes32, t0: u64 :| t0 <= e.time && e.key == c.NewKey(seed, t0);
    var nonc := e.pending[i].request.nonc;
    LeavesAreFrames(e.pending, e.frames);
    E.Draft14Accepted(c.suite, known, c.identity, seed, t0, c.Interval(), e.frames, e.time, nonc, i);
  }

  lemma LeavesAreFrames(pending: seq<Pending>, frames: seq<Bytes>)
    requires |pending| == |frames|
    ensures LeavesOf(RfcDraft14, pending, frames) == frames
  {
  }

  /** The client of a draft-08 request finds its nonce at bytes 40 to 72. */
  predicate NonceInPlace(p: Pending, frame: Bytes) {
    Requests.NonceAt(frame, Requests.FRAMED_NONCE_OFFSET) == p.request.nonc
  }

  lemma GoodAnswerAccepted08(c: Config, known: Option<Bytes32>, e: Event, i: nat)
    requires c.Proper() && c.version == RfcDraft08 && c.suite.Ideal() && E.Knows(c.suite, known, c.identity)
    requires e.Answered? && GoodAnswer(c, e) && i < |e.pending| && NonceInPlace(e.pending[i], e.frames[i])
    ensures |e.out| == |e.frames| == |e.pending| && e.out[i].0 == e.pending[i].addr
    ensures Accepts08(c.suite, known, e.frames[i], e.out[i].1, e.time)
  {
    var seed: Bytes32, t0: u64 :| t0 <= e.time && e.key == c.NewKey(seed, t0);
    var leaves, request := LeavesOf(c.version, e.pending, e.frames), e.pending[i].request;
    assert ParsedFrom(request, e.frames[i]);
    E.Draft08Accepted(c.suite, known, c.identity, seed, t0, c.Interval(), leaves, e.time, e.frames[i], request.nonc, i);
  }

  /** Draft-08 requests that announce one version have their nonce in place. */
  lemma OneVersionInPlace(p: Pending, frame: Bytes)
    requires ParsedFrom(p.request, frame) && p.request.kind == Requests.Kind.Draft08 && |p.request.ver| == 1
    ensures NonceInPlace(p, frame)
  {
    E.LegacyNonceSlice(frame, p.request, Requests.FromFrame(frame).value.1);
  }

  lemma GoodAnswerSmall(c: Config, e: Event, i: nat)
    requires c.Proper() && e.Answered? && GoodAnswer(c, e) && i < |e.pending|
    ensures |e.out| == |e.frames| == |e.pending| && |e.out[i].1| <= |e.frames[i]| == Requests.REQUEST_SIZE
  {
    assert ParsedFrom(e.pending[i].request, e.frames[i]);
    E.FrameSizes(c.suite, e.key, LeavesOf(c.version, e.pending, e.frames), e.time, e.pending[i].request.nonc, i);
  }

  /**
    Every answer of every run. From a new worker on, whatever datagrams, failures, clock readings
    and random numbers come, each frame that is sent goes to a requester whose request was
    accepted, is no longer than that request, and is accepted by that requester.
  */
  lemma RunAnswersAreAccepted(c: Config, known: Option<Bytes32>, seed: Bytes32, t0: u64, now: u64, its: seq<Iteration>, k: nat, i: nat)
    requires c.Proper() && c.suite.Ideal() && E.Knows(c.suite, known, c.identity)
    requires t0 <= now && Fits(c, its) && Timely(its, now, 1)
    requires var log := Run(c, Start(c, c.NewKey(seed, t0), now), its).log;
             k < |log| && log[k].Answered? && i < |log[k].pending|
    ensures var e := Run(c, Start(c, c.NewKey(seed, t0), now), its).log[k];
            && |e.out| == |e.frames| == |e.pending| <= c.batchSize && e.out[i].0 == e.pending[i].addr
            && ParsedFrom(e.pending[i].request, e.frames[i]) && |e.out[i].1| <= |e.frames[i]|
            && InWindow(e.key, e.time)
            && (c.version == RfcDraft14 ==> Accepts14(c.suite, known, e.frames[i], e.out[i].1, e.time))
            && (c.version == RfcDraft08 && NonceInPlace(e.pending[i], e.frames[i]) ==>
                  Accepts08(c.suite, known, e.frames[i], e.out[i].1, e.time))
  {
    hide Accepts14, Accepts08, ParsedFrom, NonceInPlace;
    var st := Start(c, c.NewKey(seed, t0), now);
    StartSchedules(c, seed, t0, now);
    RunSchedules(c, st, its, now);
    var e := Run(c, st, its).log[k];
    assert GoodEvent(c, e);
    AnswerIsAccepted(c, known, e, i);
  }

  lemma AnswerIsAccepted(c: Config, known: Option<Bytes32>, e: Event, i: nat)
    requires c.Proper() && c.suite.Ideal() && E.Knows(c.suite, known, c.identity)
    requires e.Answered? && GoodAnswer(c, e) && i < |e.pending|
    ensures |e.out| == |e.frames| == |e.pending| <= c.batchSize && e.out[i].0 == e.pending[i].addr
    ensures ParsedFrom(e.pending[i].request, e.frames[i]) && |e.out[i].1| <= |e.frames[i]| && InWindow(e.key, e.time)
    ensures c.version == RfcDraft14 ==> Accepts14(c.suite, known, e.frames[i], e.out[i].1, e.time)
    ensures c.version == RfcDraft08 && NonceInPlace(e.pending[i], e.frames[i]) ==>
              Accepts08(c.suite, known, e.frames[i], e.out[i].1, e.time)
  {
    GoodAnswerSmall(c, e, i);
    if c.version == RfcDraft14 {
      GoodAnswerAccepted14(c, known, e, i);
    } else if NonceInPlace(e.pending[i], e.frames[i]) {
      GoodAnswerAccepted08(c, known, e, i);
    }
  }

  // ---- One second is the most the schedule allows -----------------------------------------------------

  /** One datagram arrives, then the socket is drained. */
  function OneDatagram(c: Config, frame: Bytes): (recvs: seq<Recv>)
    requires c.Proper()
    ensures |recvs| == c.batchSize
  {
    [Datagram(frame, 0)] + seq(c.batchSize - 1, _ => WouldBlock)
  }

  function AllSent(c: Config): (sends: seq<bool>)
    ensures |sends| == c.batchSize
  {
    seq(c.batchSize, _ => true)
  }

  function OneRequest(c: Config, frame: Bytes, signTime: u64): (round: Round)
    requires c.Proper()
    ensures FitsRound(c, round)
  {
    Round(OneDatagram(c, frame), signTime, AllSent(c))
  }

  /** A first turn that only rotates the key, without jitter. */
  function RotatingTurn(time: u64, seed: Bytes32): Iteration {
    Iteration(time, time, time, seed, 0, false, [])
  }

  /** A turn that starts in the last second before the next rotation and signs two seconds later. */
  function LateTurn(c: Config, now: u64, signTime: u64, seed: Bytes32, frame: Bytes): Iteration
    requires c.Proper()
  {
    Iteration(now, now, now, seed, 0, false, [OneRequest(c, frame, signTime)])
  }

  /** The key with which a turn is served, and when it is due to be replaced. */
  predicate Holds(st: State, key: Key, nextKey: nat) {
    st.key == key && st.nextKey == nextKey
  }

  lemma RotatingTurnRotates(c: Config, key: Key, time: u64, seed: Bytes32)
    requires c.Proper()
    ensures var it := RotatingTurn(time, seed);
            Holds(ServeAll(c, Prepare(c, Start(c, key, time), it), it.Passes()), c.NewKey(seed, time), time + c.Interval())
  {
    var st := Start(c, key, time);
    assert st.nextKey + (c.Interval() - 0) == time + c.Interval();
  }

  lemma OneRequestIsTaken(c: Config, st: State, frame: Bytes)
    requires c.Proper() && |frame| == Requests.REQUEST_SIZE && Requests.FromFrame(frame).Ok?
    ensures |Collect(Intake([], [], st.request), st.network, OneDatagram(c, frame)).0.pending| == 1
  {
    var start, recvs := Intake([], [], st.request), OneDatagram(c, frame);
    var rest := seq<Recv>(c.batchSize - 1, _ => WouldBlock);
    assert recvs[0] == Datagram(frame, 0) && recvs[1..] == rest && Landed(frame) == frame;
    var next := TakeIn(start, frame, 0);
    assert |next.pending| == 1;
    assert Collect(start, st.network, recvs) == Collect(next, st.network, rest);
  }

  /** The last event is an answer with this key at this time. */
  predicate EndsWithAnswer(log: seq<Event>, key: Key, time: u64) {
    log != [] && var e := log[|log| - 1]; e.Answered? && e.key == key && e.time == time
  }

  lemma OneRequestIsAnswered(c: Config, st: State, frame: Bytes, time: u64)
    requires c.Proper() && |frame| == Requests.REQUEST_SIZE && Requests.FromFrame(frame).Ok?
    ensures EndsWithAnswer(Serve(c, st, OneRequest(c, frame, time)).log, st.key, time)
  {
    OneRequestIsTaken(c, st, frame);
    CollectCounts(Intake([], [], st.request), st.network, OneDatagram(c, frame));
  }

  function LateScript(c: Config, t: u64, late: u64, signTime: u64, seed: Bytes32, frame: Bytes): seq<Iteration>
    requires c.Proper()
  {
    [RotatingTurn(t, seed), LateTurn(c, late, signTime, seed, frame)]
  }

  lemma LateScriptTimely(c: Config, t: u64, late: u64, signTime: u64, seed: Bytes32, frame: Bytes)
    requires c.Proper() && t <= late <= signTime && signTime == late + 2
    ensures Fits(c, LateScript(c, t, late, signTime, seed, frame)) && Timely(LateScript(c, t, late, signTime, seed, frame), t, 2)
  {
    var its := LateScript(c, t, late, signTime, seed, frame);
    var turn := LateTurn(c, late, signTime, seed, frame);
    assert its[1..] == [turn] && [turn][1..] == [];
    assert turn.Passes()[1..] == [] && Paced([], signTime, late + 2);
    assert FitsRounds(c, its[0].Passes()) && FitsRounds(c, turn.Passes());
    assert Timely([turn], t, 2) && Timely([], signTime, 2);
  }

  lemma LateTurnSigns(c: Config, st: State, late: u64, signTime: u64, seed: Bytes32, frame: Bytes)
    requires c.Proper() && |frame| == Requests.REQUEST_SIZE && Requests.FromFrame(frame).Ok?
    requires late < st.nextKey
    ensures var it := LateTurn(c, late, signTime, seed, frame);
            EndsWithAnswer(ServeAll(c, Prepare(c, st, it), it.Passes()).log, st.key, signTime)
  {
    var it := LateTurn(c, late, signTime, seed, frame);
    var prepared := Prepare(c, st, it);
    assert prepared.key == st.key;
    OneRequestIsAnswered(c, prepared, frame, signTime);
    var served := Serve(c, prepared, it.Passes()[0]);
    assert it.Passes()[1..] == [] && ServeAll(c, served, []) == served;
  }

  lemma TwoTurns(c: Config, st: State, first: Iteration, second: Iteration)
    requires c.Proper() && FitsRounds(c, first.Passes()) && FitsRounds(c, second.Passes())
    ensures Fits(c, [first, second])
    ensures var middle := ServeAll(c, Prepare(c, st, first), first.Passes());
            Run(c, st, [first, second]) == ServeAll(c, Prepare(c, middle, second), second.Passes())
  {
    var its := [first, second];
    var middle := ServeAll(c, Prepare(c, st, first), first.Passes());
    var last := ServeAll(c, Prepare(c, middle, second), second.Passes());
    assert its[1..] == [second] && [second][1..] == [];
    assert Run(c, middle, [second]) == Run(c, last, []) == last;
  }

  /**
    The bound is tight, for every proper configuration. With signing two seconds after the turn's
    first clock reading, an otherwise timely run signs outside the window: rotation without jitter
    is due exactly when the delegation ends.
  */
  lemma TwoSecondsOverstep(c: Config, key: Key, t: u64, late: u64, signTime: u64, seed: Bytes32, nonce: Bytes32)
    requires c.Proper()
    requires late == t + c.Interval() - 1 && signTime == late + 2
    ensures var its := LateScript(c, t, late, signTime, seed, Requests.ToFrame(Requests.NewDraft14(nonce)));
            && Fits(c, its) && Timely(its, t, 2)
            && var log := Run(c, Start(c, key, t), its).log;
               log != [] && log[|log| - 1].Answered? && !InWindow(log[|log| - 1].key, log[|log| - 1].time)
  {
    hide ServeAll, Prepare, Requests.FromFrame, Timely, Run;
    var frame := Requests.ToFrame(Requests.NewDraft14(nonce));
    Requests.FreshRoundTrip(Requests.Kind.Draft14, [], nonce);
    LateScriptTimely(c, t, late, signTime, seed, frame);
    var first, second := RotatingTurn(t, seed), LateTurn(c, late, signTime, seed, frame);
    TwoTurns(c, Start(c, key, t), first, second);
    RotatingTurnRotates(c, key, t, seed);
    var middle := ServeAll(c, Prepare(c, Start(c, key, t), first), first.Passes());
    LateTurnSigns(c, middle, late, signTime, seed, frame);
    NewKeyWindow(c, seed, t);
  }
}
