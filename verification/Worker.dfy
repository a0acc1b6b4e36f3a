/** The worker as a step relation: what any run does, whatever the clock, the network and the random numbers bring. */
module WorkerModel {
  import opened Wrappers
  import opened Primitives
  import opened Versions
  import opened Certificates
  import opened Crypto
  import opened OnlineKeys
  import opened Batches
  import opened Service
  import Requests

  /** The rotation interval, in hours, is also how long keys are valid. */
  datatype Config = Config(
    suite: Suite, identity: Bytes32, version: ProtocolVersion, hours: nat, publishInterval: nat, batchSize: nat)
  {
    predicate Proper() {
      1 <= hours < 0x1_0000 && 1 <= batchSize <= MAX_BATCH
    }

    function Interval(): (seconds: u64)
      requires Proper()
      ensures seconds >= 3600
    {
      hours * 3600
    }

    function NewKey(seed: Bytes32, now: u64): Key
      requires Proper()
    {
      IssueKey(suite, identity, version, seed, now, Interval())
    }
  }

  /** One pass of the inner loop: results of the receive calls, the time of signing, results of the sends. */
  datatype Round = Round(recvs: seq<Recv>, signTime: u64, sends: seq<bool>)

  type Jitter = j: nat | j < 255

  /** The passes that the inner loop makes of those that are offered: it ends behind the first that drains the socket. */
  function UpToEmpty(rounds: seq<Round>): (passes: seq<Round>)
    ensures |passes| <= |rounds| && passes == rounds[..|passes|]
    ensures forall i :: 0 <= i < |passes| - 1 ==> !StopsDry(passes[i].recvs)
    ensures |passes| < |rounds| ==> passes != [] && StopsDry(passes[|passes| - 1].recvs)
  {
    if rounds == [] then []
    else if StopsDry(rounds[0].recvs) then [rounds[0]]
    else [rounds[0]] + UpToEmpty(rounds[1..])
  }

  /** One turn of the outer loop, with all the clock readings it would make and all rounds that would be offered. */
  datatype Iteration = Iteration(
    now: u64, publishTime: u64, keyTime: u64, keySeed: Bytes32, jitter: Jitter, pollFailed: bool, rounds: seq<Round>)
  {
    function Passes(): seq<Round> { UpToEmpty(rounds) }
  }

  datatype Snapshot = Snapshot(network: NetworkMetrics, request: RequestMetrics, response: ResponseMetrics)

  /** What can be observed of a run; `received` counts the datagrams since the publication before. */
  datatype Event =
    | Published(snapshot: Snapshot, received: nat)
    | Answered(key: Key, time: u64, pending: seq<Pending>, frames: seq<Bytes>, out: seq<(Addr, Bytes)>)

  datatype State = State(
    key: Key, nextKey: nat, nextPublish: nat,
    network: NetworkMetrics, request: RequestMetrics, response: ResponseMetrics, received: nat, log: seq<Event>)

  /** A new worker rotates its key in its very first turn. */
  function Start(c: Config, key: Key, now: u64): State {
    State(key, now, now + c.publishInterval, NO_TRAFFIC, NO_REQUESTS, NO_RESPONSES, 0, [])
  }

  function Publish(c: Config, st: State, time: u64): State {
    st.(log := st.log + [Published(Snapshot(st.network, st.request, st.response), st.received)],
        network := NO_TRAFFIC, request := NO_REQUESTS, response := NO_RESPONSES, received := 0,
        nextPublish := time + c.publishInterval)
  }

  /** The next rotation is scheduled from the last schedule, not from now; the interval never underflows. */
  function Rekey(c: Config, st: State, seed: Bytes32, time: u64, jitter: Jitter): State
    requires c.Proper()
  {
    st.(key := c.NewKey(seed, time), nextKey := st.nextKey + (c.Interval() - jitter))
  }

  predicate FitsRound(c: Config, round: Round) {
    |round.recvs| == |round.sends| == c.batchSize
  }

  predicate FitsRounds(c: Config, rounds: seq<Round>) {
    forall i :: 0 <= i < |rounds| ==> FitsRound(c, rounds[i])
  }

  predicate Fits(c: Config, its: seq<Iteration>) {
    forall i :: 0 <= i < |its| ==> FitsRounds(c, its[i].Passes())
  }

  /** Collect a batch, sign once if it is not empty, answer everyone, count. */
  function Serve(c: Config, st: State, round: Round): State
    requires c.Proper() && FitsRound(c, round)
  {
    CollectCounts(Intake([], [], st.request), st.network, round.recvs);
    var (intake, network, _) := Collect(Intake([], [], st.request), st.network, round.recvs);
    var out := Answers(c.suite, st.key, intake.pending, LeavesOf(c.version, intake.pending, intake.frames), round.signTime);
    Served(st, intake, Send(network, round.sends[..|out|]), Count(round.recvs), round.signTime, out)
  }

  function Served(st: State, intake: Intake, network: NetworkMetrics, count: nat, time: u64, out: seq<(Addr, Bytes)>): State {
    st.(network := network, request := intake.metrics, received := st.received + count,
        response := st.response.Add(out),
        log := if out == [] then st.log else st.log + [Answered(st.key, time, intake.pending, intake.frames, out)])
  }

  function ServeAll(c: Config, st: State, rounds: seq<Round>): State
    requires c.Proper() && FitsRounds(c, rounds)
    decreases |rounds|
  {
    if rounds == [] then st else ServeAll(c, Serve(c, st, rounds[0]), rounds[1..])
  }

  function PublishIfDue(c: Config, st: State, it: Iteration): State {
    if it.now >= st.nextPublish then Publish(c, st, it.publishTime) else st
  }

  function RekeyIfDue(c: Config, st: State, it: Iteration): State
    requires c.Proper()
  {
    if it.now >= st.nextKey then Rekey(c, st, it.keySeed, it.keyTime, it.jitter) else st
  }

  function Poll(st: State, failed: bool): State {
    if failed then st.(network := st.network.AddFailedPoll()) else st
  }

  /** What happens before the socket is served: publication, key rotation, a poll. */
  function Prepare(c: Config, st: State, it: Iteration): State
    requires c.Proper()
  {
    Poll(RekeyIfDue(c, PublishIfDue(c, st, it), it), it.pollFailed)
  }

  function Run(c: Config, st: State, its: seq<Iteration>): State
    requires c.Proper() && Fits(c, its)
    decreases |its|
  {
    if its == [] then st else Run(c, ServeAll(c, Prepare(c, st, its[0]), its[0].Passes()), its[1..])
  }

  // ---- Conservation --------------------------------------------------------------------------------

  /** Every datagram is counted once, and every accepted request has one response, which was sent or failed to be. */
  predicate Balanced(s: Snapshot, received: nat) {
    && s.request.Total() == received && s.request.jumbo == 0
    && s.request.ok == s.response.responses == s.network.sent + s.network.failedSends
  }

  predicate BalancedEvent(e: Event) {
    e.Published? ==> Balanced(e.snapshot, e.received)
  }

  ghost predicate AllBalanced(log: seq<Event>) {
    forall i :: 0 <= i < |log| ==> BalancedEvent(log[i])
  }

  /** The counters under way balance, as do all published ones; no request is pending between rounds. */
  ghost predicate Accounted(st: State) {
    Balanced(Snapshot(st.network, st.request, st.response), st.received) && AllBalanced(st.log)
  }

  /** A batch that was counted in and answered leaves the balance as it was. */
  lemma ServedBalances(st: State, intake: Intake, network: NetworkMetrics, count: nat, time: u64, out: seq<(Addr, Bytes)>)
    requires Accounted(st) && |out| == |intake.pending|
    requires intake.metrics.Total() == st.request.Total() + count && intake.metrics.jumbo == st.request.jumbo
    requires intake.metrics.ok - st.request.ok == |out|
    requires network.sent + network.failedSends == st.network.sent + st.network.failedSends + |out|
    ensures Accounted(Served(st, intake, network, count, time, out))
  {
    BytesLeaveResponses(st.response.AddBatch(|out|), out);
  }

  lemma ServeAccounts(c: Config, st: State, round: Round)
    requires c.Proper() && FitsRound(c, round) && Accounted(st)
    ensures Accounted(Serve(c, st, round))
  {
    var start := Intake([], [], st.request);
    var (intake, network, _) := Collect(start, st.network, round.recvs);
    CollectCounts(start, st.network, round.recvs);
    var out := Answers(c.suite, st.key, intake.pending, LeavesOf(c.version, intake.pending, intake.frames), round.signTime);
    SendCounts(network, round.sends[..|out|]);
    ServedBalances(st, intake, Send(network, round.sends[..|out|]), Count(round.recvs), round.signTime, out);
  }

  lemma {:induction false} ServeAllAccounts(c: Config, st: State, rounds: seq<Round>)
    requires c.Proper() && FitsRounds(c, rounds) && Accounted(st)
    ensures Accounted(ServeAll(c, st, rounds))
    decreases |rounds|
  {
    if rounds != [] {
      ServeAccounts(c, st, rounds[0]);
      ServeAllAccounts(c, Serve(c, st, rounds[0]), rounds[1..]);
    }
  }

  lemma NothingSent(s: Snapshot)
    requires s.network == NO_TRAFFIC && s.response == NO_RESPONSES
    ensures s.response.responses == s.network.sent + s.network.failedSends
  {
  }

  lemma NothingBalances(s: Snapshot)
    requires s.network == NO_TRAFFIC && s.request == NO_REQUESTS && s.response == NO_RESPONSES
    ensures Balanced(s, 0)
  {
    NothingSent(s);
  }

  lemma LogBalanced(log: seq<Event>, e: Event)
    requires AllBalanced(log) && BalancedEvent(e)
    ensures AllBalanced(log + [e])
  {
  }

  lemma PublishAccounts(c: Config, st: State, time: u64)
    requires Accounted(st)
    ensures Accounted(Publish(c, st, time))
  {
    LogBalanced(st.log, Published(Snapshot(st.network, st.request, st.response), st.received));
    NothingBalances(Snapshot(NO_TRAFFIC, NO_REQUESTS, NO_RESPONSES));
  }

  lemma PublishIfDueAccounts(c: Config, st: State, it: Iteration)
    requires Accounted(st)
    ensures Accounted(PublishIfDue(c, st, it))
  {
    var r := PublishIfDue(c, st, it);
    if it.now >= st.nextPublish {
      assert r == Publish(c, st, it.publishTime);
      PublishAccounts(c, st, it.publishTime);
    } else {
      assert r == st;
    }
  }

  lemma RekeyAccounts(c: Config, st: State, it: Iteration)
    requires c.Proper() && Accounted(st)
    ensures Accounted(RekeyIfDue(c, st, it))
  {
  }

  lemma PollAccounts(st: State, failed: bool)
    requires Accounted(st)
    ensures Accounted(Poll(st, failed))
  {
  }

  lemma PrepareAccounts(c: Config, st: State, it: Iteration)
    requires c.Proper() && Accounted(st)
    ensures Accounted(Prepare(c, st, it))
  {
    var published := PublishIfDue(c, st, it);
    var keyed := RekeyIfDue(c, published, it);
    PublishIfDueAccounts(c, st, it);
    RekeyAccounts(c, published, it);
    PollAccounts(keyed, it.pollFailed);
  }

  /** Conservation: every snapshot that any run publishes balances. */
  lemma {:induction false} RunAccounts(c: Config, st: State, its: seq<Iteration>)
    requires c.Proper() && Fits(c, its) && Accounted(st)
    ensures Accounted(Run(c, st, its))
    decreases |its|
  {
    if its != [] {
      PrepareAccounts(c, st, its[0]);
      ServeAllAccounts(c, Prepare(c, st, its[0]), its[0].Passes());
      RunAccounts(c, ServeAll(c, Prepare(c, st, its[0]), its[0].Passes()), its[1..]);
    }
  }

  // ---- The delegation window -------------------------------------------------------------------------

  /** Signing times never go back and stay within a limit. */
  predicate Paced(rounds: seq<Round>, clock: u64, limit: nat) {
    rounds == [] || (clock <= rounds[0].signTime <= limit && Paced(rounds[1..], rounds[0].signTime, limit))
  }

  function LastReading(rounds: seq<Round>, clock: u64): u64 {
    if rounds == [] then clock else LastReading(rounds[1..], rounds[0].signTime)
  }

  /** The clock never goes back, and signing happens at most `lag` seconds after the turn's first reading. */
  predicate TimelyTurn(it: Iteration, clock: u64, lag: nat) {
    clock <= it.now <= it.publishTime <= it.keyTime && Paced(it.Passes(), it.keyTime, it.now + lag)
  }

  predicate Timely(its: seq<Iteration>, clock: u64, lag: nat) {
    its == [] || (TimelyTurn(its[0], clock, lag) && Timely(its[1..], LastReading(its[0].Passes(), its[0].keyTime), lag))
  }

  predicate InWindow(key: Key, time: u64) {
    key.cert.dele.mint <= time <= key.cert.dele.maxt
  }

  /** The key was issued by the identity, to a delegation that began no later than the clock. */
  ghost predicate Issued(c: Config, key: Key, clock: u64)
    requires c.Proper()
  {
    exists seed: Bytes32, t0: u64 :: t0 <= clock && key == c.NewKey(seed, t0)
  }

  /** The next rotation comes before the delegation ends; a delegation cut off at the end of time never ends. */
  predicate Covers(key: Key, nextKey: nat) {
    nextKey <= key.cert.dele.maxt || key.cert.dele.maxt == MAX_TIME
  }

  ghost predicate GoodAnswer(c: Config, e: Event)
    requires c.Proper() && e.Answered?
  {
    && Issued(c, e.key, e.time) && InWindow(e.key, e.time)
    && Genuine(e.pending, e.frames) && 0 < |e.pending| <= c.batchSize
    && e.out == Answers(c.suite, e.key, e.pending, LeavesOf(c.version, e.pending, e.frames), e.time)
  }

  ghost predicate GoodEvent(c: Config, e: Event)
    requires c.Proper()
  {
    e.Answered? ==> GoodAnswer(c, e)
  }

  ghost predicate AllGood(c: Config, log: seq<Event>)
    requires c.Proper()
  {
    forall i :: 0 <= i < |log| ==> GoodEvent(c, log[i])
  }

  /** What holds when a turn starts: a rotation is due at once, or the current key covers the time until the next one. */
  ghost predicate Scheduled(c: Config, st: State, clock: u64)
    requires c.Proper()
  {
    && Issued(c, st.key, clock) && AllGood(c, st.log)
    && (st.nextKey <= clock || Covers(st.key, st.nextKey))
  }

  lemma NewKeyWindow(c: Config, seed: Bytes32, now: u64)
    requires c.Proper()
    ensures var dele := c.NewKey(seed, now).cert.dele;
            dele.mint == now && (dele.maxt == now + c.Interval() || dele.maxt == MAX_TIME) && now <= dele.maxt
  {
  }

  predicate WindowOpen(key: Key, from: u64, limit: nat) {
    key.cert.dele.mint <= from && (limit <= key.cert.dele.maxt || key.cert.dele.maxt == MAX_TIME)
  }

  /** After the preparation, every moment until a second after the turn's start is inside the key's window. */
  lemma PrepareSchedules(c: Config, st: State, it: Iteration, clock: u64)
    requires c.Proper() && Scheduled(c, st, clock) && clock <= it.now <= it.keyTime
    ensures var r := Prepare(c, st, it);
            && Scheduled(c, r, it.keyTime)
            && WindowOpen(r.key, it.keyTime, it.now + 1)
  {
    var published := PublishIfDue(c, st, it);
    LogGood(c, st.log, Published(Snapshot(st.network, st.request, st.response), st.received));
    if it.now >= published.nextKey {
      NewKeyWindow(c, it.keySeed, it.keyTime);
    }
  }

  lemma LogGood(c: Config, log: seq<Event>, e: Event)
    requires c.Proper() && AllGood(c, log) && GoodEvent(c, e)
    ensures AllGood(c, log + [e])
  {
  }

  lemma ServeSchedules(c: Config, st: State, round: Round, clock: u64, limit: nat)
    requires c.Proper() && FitsRound(c, round) && Scheduled(c, st, clock) && WindowOpen(st.key, clock, limit)
    requires clock <= round.signTime <= limit
    ensures var r := Serve(c, st, round);
            Scheduled(c, r, round.signTime) && WindowOpen(r.key, round.signTime, limit)
  {
    var start := Intake([], [], st.request);
    var (intake, network, _) := Collect(start, st.network, round.recvs);
    CollectCounts(start, st.network, round.recvs);
    var out := Answers(c.suite, st.key, intake.pending, LeavesOf(c.version, intake.pending, intake.frames), round.signTime);
    var e := Answered(st.key, round.signTime, intake.pending, intake.frames, out);
    if out != [] {
      LogGood(c, st.log, e);
    }
  }

  lemma {:induction false} ServeAllSchedules(c: Config, st: State, rounds: seq<Round>, clock: u64, limit: nat)
    requires c.Proper() && FitsRounds(c, rounds) && Scheduled(c, st, clock) && WindowOpen(st.key, clock, limit)
    requires Paced(rounds, clock, limit)
    ensures Scheduled(c, ServeAll(c, st, rounds), LastReading(rounds, clock))
    decreases |rounds|
  {
    if rounds != [] {
      hide Serve, Scheduled, WindowOpen;
      ServeSchedules(c, st, rounds[0], clock, limit);
      ServeAllSchedules(c, Serve(c, st, rounds[0]), rounds[1..], rounds[0].signTime, limit);
    }
  }

  lemma TurnSchedules(c: Config, st: State, it: Iteration, clock: u64)
    requires c.Proper() && FitsRounds(c, it.Passes()) && Scheduled(c, st, clock) && TimelyTurn(it, clock, 1)
    ensures Scheduled(c, ServeAll(c, Prepare(c, st, it), it.Passes()), LastReading(it.Passes(), it.keyTime))
  {
    hide Prepare, ServeAll, Scheduled, WindowOpen;
    PrepareSchedules(c, st, it, clock);
    ServeAllSchedules(c, Prepare(c, st, it), it.Passes(), it.keyTime, it.now + 1);
  }

  /**
    Safety of every run: if the clock never goes back and signing follows the turn's first clock
    reading by at most a second, every answer is signed inside the window of the delegation that
    goes with it, whatever the jitter, and answers exactly the requests that were accepted.
  */
  lemma {:induction false} RunSchedules(c: Config, st: State, its: seq<Iteration>, clock: u64)
    requires c.Proper() && Fits(c, its) && Scheduled(c, st, clock) && Timely(its, clock, 1)
    ensures AllGood(c, Run(c, st, its).log)
    decreases |its|
  {
    if its != [] {
      hide Prepare, ServeAll, Scheduled, AllGood, TimelyTurn;
      var it := its[0];
      TurnSchedules(c, st, it, clock);
      RunSchedules(c, ServeAll(c, Prepare(c, st, it), it.Passes()), its[1..], LastReading(it.Passes(), it.keyTime));
    }
  }

  lemma StartAccounts(c: Config, key: Key, now: u64)
    ensures Accounted(Start(c, key, now))
  {
    NothingBalances(Snapshot(NO_TRAFFIC, NO_REQUESTS, NO_RESPONSES));
  }

  /**
    Conservation over every run of a new worker: in each published snapshot the datagrams received
    since the one before were each counted once, and accepted requests, responses and attempted
    sends are equal in number; afterwards the same holds of what is not published yet.
  */
  lemma PublishedSnapshotsBalance(c: Config, key: Key, now: u64, its: seq<Iteration>, st: State, k: nat)
    requires c.Proper() && Fits(c, its) && st == Run(c, Start(c, key, now), its)
    ensures Balanced(Snapshot(st.network, st.request, st.response), st.received)
    ensures k < |st.log| && st.log[k].Published? ==> Balanced(st.log[k].snapshot, st.log[k].received)
  {
    RunOfNewWorkerAccounts(c, key, now, its);
    AccountedAt(st, k);
  }

  lemma RunOfNewWorkerAccounts(c: Config, key: Key, now: u64, its: seq<Iteration>)
    requires c.Proper() && Fits(c, its)
    ensures Accounted(Run(c, Start(c, key, now), its))
  {
    StartAccounts(c, key, now);
    RunAccounts(c, Start(c, key, now), its);
  }

  lemma AccountedAt(st: State, k: nat)
    requires Accounted(st)
    ensures Balanced(Snapshot(st.network, st.request, st.response), st.received)
    ensures k < |st.log| && st.log[k].Published? ==> Balanced(st.log[k].snapshot, st.log[k].received)
  {
    assert k < |st.log| ==> BalancedEvent(st.log[k]);
  }

  /** A new worker, whose handler was given its first key a while before, rotates at once. */
  lemma StartSchedules(c: Config, seed: Bytes32, t0: u64, now: u64)
    requires c.Proper() && t0 <= now
    ensures Scheduled(c, Start(c, c.NewKey(seed, t0), now), now)
  {
    var key := c.NewKey(seed, t0);
    assert Issued(c, key, now);
  }
}
