/** Exact accounts of whole runs: what is published when, what all counters add up to, who is answered, when keys rotate. */
module WorkerAccounts {
  import opened Wrappers
  import opened Primitives
  import opened Crypto
  import opened OnlineKeys
  import opened Batches
  import opened Service
  import opened ServiceCounts
  import opened WorkerModel

  // ---- Turn by turn --------------------------------------------------------------------------------

  function Turn(c: Config, st: State, it: Iteration): State
    requires c.Proper() && FitsRounds(c, it.Passes())
  {
    ServeAll(c, Prepare(c, st, it), it.Passes())
  }

  function Earlier(its: seq<Iteration>): seq<Iteration>
    requires its != []
  {
    its[..|its| - 1]
  }

  function Latest(its: seq<Iteration>): Iteration
    requires its != []
  {
    its[|its| - 1]
  }

  lemma Associate<T>(x: seq<T>, y: seq<T>, z: seq<T>)
    ensures (x + y) + z == x + (y + z) && x + [] == x
  {
  }

  lemma EarlierFits(c: Config, its: seq<Iteration>)
    requires Fits(c, its) && its != []
    ensures Fits(c, Earlier(its)) && FitsRounds(c, Latest(its).Passes())
  {
  }

  /** A run is the run of all turns but the last, and then that one. */
  lemma {:induction false} RunLatest(c: Config, st: State, its: seq<Iteration>)
    requires c.Proper() && Fits(c, its) && its != []
    ensures Fits(c, Earlier(its)) && FitsRounds(c, Latest(its).Passes())
    ensures Run(c, st, its) == Turn(c, Run(c, st, Earlier(its)), Latest(its))
    decreases |its|
  {
    EarlierFits(c, its);
    if |its| > 1 {
      assert its[1..][..|its| - 2] == Earlier(its)[1..];
      RunLatest(c, ServeAll(c, Prepare(c, st, its[0]), its[0].Passes()), its[1..]);
    } else {
      assert its[1..] == [] && Earlier(its) == [];
    }
  }

  // ---- Publications ------------------------------------------------------------------------------------

  function Publications(log: seq<Event>): seq<Event> {
    if log == [] then []
    else
      var e := log[|log| - 1];
      Publications(log[..|log| - 1]) + (if e.Published? then [e] else [])
  }

  lemma PublicationsNext(log: seq<Event>, e: Event)
    ensures Publications(log + [e]) == Publications(log) + (if e.Published? then [e] else [])
  {
    assert (log + [e])[..|log|] == log;
  }

  /** The counters as they stand, published. */
  function Standing(st: State): Event {
    Published(Snapshot(st.network, st.request, st.response), st.received)
  }

  lemma ServePublishesNothing(c: Config, st: State, round: Round)
    requires c.Proper() && FitsRound(c, round)
    ensures var r := Serve(c, st, round);
            Publications(r.log) == Publications(st.log) && r.nextPublish == st.nextPublish && r.nextKey == st.nextKey && r.key == st.key
  {
    CollectCounts(Intake([], [], st.request), st.network, round.recvs);
    var (intake, network, _) := Collect(Intake([], [], st.request), st.network, round.recvs);
    var out := Answers(c.suite, st.key, intake.pending, LeavesOf(c.version, intake.pending, intake.frames), round.signTime);
    PublicationsNext(st.log, Answered(st.key, round.signTime, intake.pending, intake.frames, out));
  }

  lemma {:induction false} PassesPublishNothing(c: Config, st: State, rounds: seq<Round>)
    requires c.Proper() && FitsRounds(c, rounds)
    ensures var r := ServeAll(c, st, rounds);
            Publications(r.log) == Publications(st.log) && r.nextPublish == st.nextPublish && r.nextKey == st.nextKey && r.key == st.key
    decreases |rounds|
  {
    if rounds != [] {
      hide Serve;
      ServePublishesNothing(c, st, rounds[0]);
      PassesPublishNothing(c, Serve(c, st, rounds[0]), rounds[1..]);
    }
  }

  /** A turn publishes the counters as they stand, once, exactly when publication is due; it sets the next one and starts from zero. */
  lemma {:induction false} TurnPublishes(c: Config, st: State, it: Iteration)
    requires c.Proper() && FitsRounds(c, it.Passes())
    ensures var r, due := Turn(c, st, it), it.now >= st.nextPublish;
            && Publications(r.log) == Publications(st.log) + (if due then [Standing(st)] else [])
            && r.nextPublish == (if due then it.publishTime + c.publishInterval else st.nextPublish)
    ensures var prepared := Prepare(c, st, it);
            it.now >= st.nextPublish ==>
              && prepared.request == NO_REQUESTS && prepared.response == NO_RESPONSES && prepared.received == 0
              && prepared.network == NO_TRAFFIC.(failedPolls := if it.pollFailed then 1 else 0)
  {
    hide ServeAll, Publications;
    PublicationsNext(st.log, Standing(st));
    PassesPublishNothing(c, Prepare(c, st, it), it.Passes());
  }

  /** When the next publication is due after these turns. */
  function PublishDue(c: Config, start: nat, its: seq<Iteration>): nat {
    if its == [] then start
    else
      var before := PublishDue(c, start, Earlier(its));
      if Latest(its).now >= before then Latest(its).publishTime + c.publishInterval else before
  }

  /** The turns in which it is. */
  function DueTurns(c: Config, start: nat, its: seq<Iteration>): (due: seq<nat>)
    ensures forall j :: 0 <= j < |due| ==> due[j] < |its|
  {
    if its == [] then []
    else
      var earlier := DueTurns(c, start, Earlier(its));
      if Latest(its).now >= PublishDue(c, start, Earlier(its)) then earlier + [|its| - 1] else earlier
  }

  lemma {:induction false} DueExactly(c: Config, start: nat, its: seq<Iteration>, i: nat)
    ensures i in DueTurns(c, start, its) <==> i < |its| && its[i].now >= PublishDue(c, start, its[..i])
  {
    if its != [] {
      var n := |its| - 1;
      DueExactly(c, start, Earlier(its), i);
      if i < n {
        assert Earlier(its)[..i] == its[..i];
      } else if i == n {
        assert its[..n] == Earlier(its);
      }
    }
  }

  lemma {:induction false} DueAscends(c: Config, start: nat, its: seq<Iteration>)
    ensures forall i, j :: 0 <= i < j < |DueTurns(c, start, its)| ==> DueTurns(c, start, its)[i] < DueTurns(c, start, its)[j]
  {
    if its != [] {
      DueAscends(c, start, Earlier(its));
    }
  }

  /** For each of them, the counters as they stood when the turn began. */
  function DuePublications(c: Config, st: State, its: seq<Iteration>): (pubs: seq<Event>)
    requires c.Proper() && Fits(c, its)
    ensures |pubs| == |DueTurns(c, st.nextPublish, its)|
  {
    if its == [] then []
    else
      EarlierFits(c, its);
      var front := Earlier(its);
      DuePublications(c, st, front) +
      (if Latest(its).now >= PublishDue(c, st.nextPublish, front) then [Standing(Run(c, st, front))] else [])
  }

  lemma PrefixFits(c: Config, its: seq<Iteration>, i: nat)
    requires Fits(c, its) && i <= |its|
    ensures Fits(c, its[..i])
  {
  }

  lemma {:induction false} DuePublicationAt(c: Config, st: State, its: seq<Iteration>, j: nat)
    requires c.Proper() && Fits(c, its) && j < |DueTurns(c, st.nextPublish, its)|
    ensures var i := DueTurns(c, st.nextPublish, its)[j];
            Fits(c, its[..i]) && DuePublications(c, st, its)[j] == Standing(Run(c, st, its[..i]))
  {
    hide Run, Standing;
    EarlierFits(c, its);
    var front, i := Earlier(its), DueTurns(c, st.nextPublish, its)[j];
    PrefixFits(c, its, i);
    if j < |DueTurns(c, st.nextPublish, front)| {
      DuePublicationAt(c, st, front, j);
      assert front[..i] == its[..i];
    } else {
      assert its[..i] == front;
    }
  }

  /**
    The log of every run holds exactly one publication for each turn that reaches the due time and
    none for the others, each with the counters at that turn; the next due time is that turn's
    publication time plus the interval.
  */
  lemma {:induction false} RunPublishes(c: Config, st: State, its: seq<Iteration>)
    requires c.Proper() && Fits(c, its)
    ensures Publications(Run(c, st, its).log) == Publications(st.log) + DuePublications(c, st, its)
    ensures Run(c, st, its).nextPublish == PublishDue(c, st.nextPublish, its)
    decreases |its|
  {
    if its != [] {
      hide Run, Turn, Standing, Publications;
      EarlierFits(c, its);
      RunLatest(c, st, its);
      RunPublishes(c, st, Earlier(its));
      var before := Run(c, st, Earlier(its));
      TurnPublishes(c, before, Latest(its));
      Associate(Publications(st.log), DuePublications(c, st, Earlier(its)),
                if Latest(its).now >= before.nextPublish then [Standing(before)] else []);
    }
  }

  // ---- Conservation, counter by counter -----------------------------------------------------------------

  /** A number for each counter. */
  datatype Tally = Tally(
    taken: nat, ok: nat, bad: nat, runt: nat, jumbo: nat, wouldBlock: nat, failedRecvs: nat, failedPolls: nat,
    sent: nat, failedSends: nat, responses: nat)
  {
    function Plus(t: Tally): Tally {
      Tally(taken + t.taken, ok + t.ok, bad + t.bad, runt + t.runt, jumbo + t.jumbo, wouldBlock + t.wouldBlock,
            failedRecvs + t.failedRecvs, failedPolls + t.failedPolls, sent + t.sent, failedSends + t.failedSends,
            responses + t.responses)
    }
  }

  const NOTHING: Tally := Tally(0, 0, 0, 0, 0, 0, 0, 0, 0, 0, 0)

  lemma PlusAssociates(x: Tally, y: Tally, z: Tally)
    ensures x.Plus(y).Plus(z) == x.Plus(y.Plus(z))
    ensures x.Plus(NOTHING) == x && NOTHING.Plus(x) == x
  {
  }

  function TallyOf(s: Snapshot, received: nat): Tally {
    Tally(received, s.request.ok, s.request.bad, s.request.runt, s.request.jumbo, s.network.wouldBlock,
          s.network.failedRecvs, s.network.failedPolls, s.network.sent, s.network.failedSends, s.response.responses)
  }

  /** All published snapshots together. */
  function PublishedTotal(log: seq<Event>): Tally {
    if log == [] then NOTHING
    else
      var e := log[|log| - 1];
      PublishedTotal(log[..|log| - 1]).Plus(if e.Published? then TallyOf(e.snapshot, e.received) else NOTHING)
  }

  /** Published or not yet. */
  function Grand(st: State): Tally {
    PublishedTotal(st.log).Plus(TallyOf(Snapshot(st.network, st.request, st.response), st.received))
  }

  lemma PublishedTotalNext(log: seq<Event>, e: Event)
    ensures PublishedTotal(log + [e]) == PublishedTotal(log).Plus(if e.Published? then TallyOf(e.snapshot, e.received) else NOTHING)
  {
    assert (log + [e])[..|log|] == log;
  }

  /** What one pass adds: datagrams by their kind, what ended the receiving, an answer for each good datagram, sends by their outcome. */
  function PassTally(round: Round): (t: Tally)
    requires HowMany(GOOD, Taken(round.recvs)) <= |round.sends|
  {
    var arrivals := Taken(round.recvs);
    var good := HowMany(GOOD, arrivals);
    SendExactly(NO_TRAFFIC, round.sends[..good]);
    var sent := Successes(round.sends[..good]);
    Tally(|arrivals|, good, HowMany(BAD, arrivals), HowMany(RUNT, arrivals), 0,
          if Stop(round.recvs) == Some(WouldBlock) then 1 else 0, if Stop(round.recvs) == Some(Failed) then 1 else 0, 0,
          sent, good - sent, good)
  }

  lemma {:induction false} GoodFit(recvs: seq<Recv>)
    ensures HowMany(GOOD, Taken(recvs)) <= |recvs|
  {
    if recvs != [] && recvs[0].Datagram? {
      GoodFit(recvs[1..]);
      assert Taken(recvs)[1..] == Taken(recvs[1..]);
    }
  }

  function PassesTally(c: Config, rounds: seq<Round>): Tally
    requires FitsRounds(c, rounds)
  {
    if rounds == [] then NOTHING
    else
      GoodFit(rounds[|rounds| - 1].recvs);
      PassesTally(c, rounds[..|rounds| - 1]).Plus(PassTally(rounds[|rounds| - 1]))
  }

  function TurnTally(c: Config, it: Iteration): Tally
    requires FitsRounds(c, it.Passes())
  {
    NOTHING.(failedPolls := if it.pollFailed then 1 else 0).Plus(PassesTally(c, it.Passes()))
  }

  function RunTally(c: Config, its: seq<Iteration>): Tally
    requires Fits(c, its)
  {
    if its == [] then NOTHING
    else
      EarlierFits(c, its);
      RunTally(c, Earlier(its)).Plus(TurnTally(c, Latest(its)))
  }

  /** The counters after a batch was collected and answered. */
  lemma ServedTallies(st: State, round: Round, intake: Intake, network: NetworkMetrics, out: seq<(Addr, Bytes)>, good: nat)
    requires good == HowMany(GOOD, Taken(round.recvs)) == |out| <= |round.sends|
    requires Counted(st.request, intake.metrics, Taken(round.recvs))
    requires network == st.network.(wouldBlock := st.network.wouldBlock + (if Stop(round.recvs) == Some(WouldBlock) then 1 else 0),
                                    failedRecvs := st.network.failedRecvs + (if Stop(round.recvs) == Some(Failed) then 1 else 0))
    ensures var r := Served(st, intake, Send(network, round.sends[..good]), Count(round.recvs), round.signTime, out);
            TallyOf(Snapshot(r.network, r.request, r.response), r.received) ==
            TallyOf(Snapshot(st.network, st.request, st.response), st.received).Plus(PassTally(round))
  {
    hide HowMany, Taken, Stop, Successes, Send, Count, TotalBytes;
    SendExactly(network, round.sends[..good]);
    SendExactly(NO_TRAFFIC, round.sends[..good]);
    AnswersExactly(st.response.AddBatch(|out|), out);
    TakenAreCounted(round.recvs);
  }

  lemma ServeTallies(c: Config, st: State, round: Round)
    requires c.Proper() && FitsRound(c, round)
    ensures HowMany(GOOD, Taken(round.recvs)) <= |round.sends|
    ensures Grand(Serve(c, st, round)) == Grand(st).Plus(PassTally(round))
  {
    var start := Intake([], [], st.request);
    var (intake, network, _) := Collect(start, st.network, round.recvs);
    CollectCounts(start, st.network, round.recvs);
    CollectExactly(start, st.network, round.recvs);
    CollectReturns(start, st.network, round.recvs);
    AcceptedAreGood(Taken(round.recvs));
    GoodFit(round.recvs);
    var out := Answers(c.suite, st.key, intake.pending, LeavesOf(c.version, intake.pending, intake.frames), round.signTime);
    var good := HowMany(GOOD, Taken(round.recvs));
    assert Waiting([], []) == [];
    assert |out| == |intake.pending| == |Waiting(intake.pending, intake.frames)| == good;
    ServedTallies(st, round, intake, network, out, good);
    PublishedTotalNext(st.log, Answered(st.key, round.signTime, intake.pending, intake.frames, out));
    var current := TallyOf(Snapshot(st.network, st.request, st.response), st.received);
    PlusAssociates(PublishedTotal(st.log), current, PassTally(round));
    PlusAssociates(PublishedTotal(st.log), NOTHING, NOTHING);
  }

  lemma {:induction false} PassesFit(c: Config, rounds: seq<Round>, k: nat)
    requires FitsRounds(c, rounds) && k <= |rounds|
    ensures FitsRounds(c, rounds[..k]) && FitsRounds(c, rounds[k..])
  {
  }

  /** Serving all passes but the last, and then that one. */
  lemma {:induction false} ServeLatest(c: Config, st: State, rounds: seq<Round>)
    requires c.Proper() && FitsRounds(c, rounds) && rounds != []
    ensures var k := |rounds| - 1;
            FitsRounds(c, rounds[..k]) && FitsRound(c, rounds[k]) &&
            ServeAll(c, st, rounds) == Serve(c, ServeAll(c, st, rounds[..k]), rounds[k])
    decreases |rounds|
  {
    hide Serve;
    var k := |rounds| - 1;
    PassesFit(c, rounds, k);
    if k > 0 {
      assert rounds[1..][..k - 1] == rounds[..k][1..];
      ServeLatest(c, Serve(c, st, rounds[0]), rounds[1..]);
    } else {
      assert rounds[1..] == [] && rounds[..0] == [];
    }
  }

  lemma {:induction false} PassesTallied(c: Config, st: State, rounds: seq<Round>)
    requires c.Proper() && FitsRounds(c, rounds)
    ensures Grand(ServeAll(c, st, rounds)) == Grand(st).Plus(PassesTally(c, rounds))
    decreases |rounds|
  {
    hide Serve, Grand, PassTally;
    if rounds == [] {
      PlusAssociates(Grand(st), NOTHING, NOTHING);
    } else {
      var k := |rounds| - 1;
      ServeLatest(c, st, rounds);
      PassesTallied(c, st, rounds[..k]);
      ServeTallies(c, ServeAll(c, st, rounds[..k]), rounds[k]);
      GoodFit(rounds[k].recvs);
      PlusAssociates(Grand(st), PassesTally(c, rounds[..k]), PassTally(rounds[k]));
    }
  }

  /** Publishing moves what is not published yet to what is. */
  lemma PublishKeepsGrand(c: Config, st: State, it: Iteration)
    ensures Grand(PublishIfDue(c, st, it)) == Grand(st)
  {
    hide PublishedTotal;
    var current := TallyOf(Snapshot(st.network, st.request, st.response), st.received);
    PublishedTotalNext(st.log, Standing(st));
    PlusAssociates(PublishedTotal(st.log), current, NOTHING);
    EmptySnapshot(Snapshot(NO_TRAFFIC, NO_REQUESTS, NO_RESPONSES));
  }

  lemma PollTallies(st: State, failed: bool)
    ensures Grand(Poll(st, failed)) == Grand(st).Plus(NOTHING.(failedPolls := if failed then 1 else 0))
  {
    hide PublishedTotal;
    var s := Snapshot(st.network, st.request, st.response);
    PollCounts(s, st.received);
    PlusAssociates(PublishedTotal(st.log), TallyOf(s, st.received), NOTHING.(failedPolls := if failed then 1 else 0));
  }

  lemma PollCounts(s: Snapshot, received: nat)
    ensures TallyOf(s.(network := s.network.AddFailedPoll()), received) == TallyOf(s, received).Plus(NOTHING.(failedPolls := 1))
    ensures TallyOf(s, received) == TallyOf(s, received).Plus(NOTHING)
  {
  }

  lemma PrepareTallies(c: Config, st: State, it: Iteration)
    requires c.Proper()
    ensures Grand(Prepare(c, st, it)) == Grand(st).Plus(NOTHING.(failedPolls := if it.pollFailed then 1 else 0))
  {
    hide PublishIfDue, Poll;
    var published := PublishIfDue(c, st, it);
    PublishKeepsGrand(c, st, it);
    assert Grand(RekeyIfDue(c, published, it)) == Grand(published);
    PollTallies(RekeyIfDue(c, published, it), it.pollFailed);
  }

  /**
    Conservation over every run: for each counter, all published snapshots together with what is
    not published yet have grown by exactly what the script of the run contains of its kind.
  */
  lemma {:induction false} RunConserves(c: Config, st: State, its: seq<Iteration>)
    requires c.Proper() && Fits(c, its)
    ensures Grand(Run(c, st, its)) == Grand(st).Plus(RunTally(c, its))
    decreases |its|
  {
    if its == [] {
      PlusAssociates(Grand(st), NOTHING, NOTHING);
    } else {
      hide Run, Prepare, ServeAll, Grand, PassesTally;
      EarlierFits(c, its);
      RunLatest(c, st, its);
      RunConserves(c, st, Earlier(its));
      var before, it := Run(c, st, Earlier(its)), Latest(its);
      var polls := NOTHING.(failedPolls := if it.pollFailed then 1 else 0);
      PrepareTallies(c, before, it);
      PassesTallied(c, Prepare(c, before, it), it.Passes());
      PlusAssociates(Grand(before), polls, PassesTally(c, it.Passes()));
      PlusAssociates(Grand(st), RunTally(c, Earlier(its)), TurnTally(c, it));
    }
  }

  /** A new worker starts from nothing, so its snapshots account for the whole script. */
  lemma {:induction false} NewWorkerConserves(c: Config, key: Key, now: u64, its: seq<Iteration>)
    requires c.Proper() && Fits(c, its)
    ensures Grand(Run(c, Start(c, key, now), its)) == RunTally(c, its)
  {
    hide Run, Grand, Start, RunTally;
    RunConserves(c, Start(c, key, now), its);
    StartIsNothing(c, key, now);
    PlusAssociates(RunTally(c, its), NOTHING, NOTHING);
  }

  lemma EmptySnapshot(s: Snapshot)
    requires s.network == NO_TRAFFIC && s.request == NO_REQUESTS && s.response == NO_RESPONSES
    ensures TallyOf(s, 0) == NOTHING
  {
  }

  lemma GrandOfParts(st: State, published: Tally, current: Tally)
    requires published == PublishedTotal(st.log) && current == TallyOf(Snapshot(st.network, st.request, st.response), st.received)
    ensures Grand(st) == published.Plus(current)
  {
  }

  lemma StartIsNothing(c: Config, key: Key, now: u64)
    ensures Grand(Start(c, key, now)) == NOTHING
  {
    hide Grand, TallyOf;
    var st := Start(c, key, now);
    EmptySnapshot(Snapshot(st.network, st.request, st.response));
    GrandOfParts(st, NOTHING, NOTHING);
    PlusAssociates(NOTHING, NOTHING, NOTHING);
  }

  /** Bytes of all published snapshots, and bytes of all frames that were handed out. */
  function PublishedBytes(log: seq<Event>): nat {
    if log == [] then 0
    else
      var e := log[|log| - 1];
      PublishedBytes(log[..|log| - 1]) + (if e.Published? then e.snapshot.response.bytesSent else 0)
  }

  function FrameBytes(log: seq<Event>): nat {
    if log == [] then 0
    else
      var e := log[|log| - 1];
      FrameBytes(log[..|log| - 1]) + (if e.Answered? then TotalBytes(e.out) else 0)
  }

  predicate BytesBalance(st: State) {
    PublishedBytes(st.log) + st.response.bytesSent == FrameBytes(st.log)
  }

  lemma BytesNext(log: seq<Event>, e: Event)
    ensures PublishedBytes(log + [e]) == PublishedBytes(log) + (if e.Published? then e.snapshot.response.bytesSent else 0)
    ensures FrameBytes(log + [e]) == FrameBytes(log) + (if e.Answered? then TotalBytes(e.out) else 0)
  {
    assert (log + [e])[..|log|] == log;
  }

  lemma ServeBalancesBytes(c: Config, st: State, round: Round)
    requires c.Proper() && FitsRound(c, round) && BytesBalance(st)
    ensures BytesBalance(Serve(c, st, round))
  {
    CollectCounts(Intake([], [], st.request), st.network, round.recvs);
    var (intake, network, _) := Collect(Intake([], [], st.request), st.network, round.recvs);
    var out := Answers(c.suite, st.key, intake.pending, LeavesOf(c.version, intake.pending, intake.frames), round.signTime);
    AnswersExactly(st.response.AddBatch(|out|), out);
    BytesNext(st.log, Answered(st.key, round.signTime, intake.pending, intake.frames, out));
  }

  lemma {:induction false} PassesBalanceBytes(c: Config, st: State, rounds: seq<Round>)
    requires c.Proper() && FitsRounds(c, rounds) && BytesBalance(st)
    ensures BytesBalance(ServeAll(c, st, rounds))
    decreases |rounds|
  {
    if rounds != [] {
      hide Serve, BytesBalance;
      ServeBalancesBytes(c, st, rounds[0]);
      PassesBalanceBytes(c, Serve(c, st, rounds[0]), rounds[1..]);
    }
  }

  lemma PrepareBalancesBytes(c: Config, st: State, it: Iteration)
    requires c.Proper() && BytesBalance(st)
    ensures BytesBalance(Prepare(c, st, it))
  {
    BytesNext(st.log, Standing(st));
  }

  /** The bytes counted are those of the frames handed out. */
  lemma {:induction false} RunBalancesBytes(c: Config, st: State, its: seq<Iteration>)
    requires c.Proper() && Fits(c, its) && BytesBalance(st)
    ensures BytesBalance(Run(c, st, its))
    decreases |its|
  {
    if its != [] {
      hide ServeAll, BytesBalance, Prepare;
      var prepared := Prepare(c, st, its[0]);
      PrepareBalancesBytes(c, st, its[0]);
      PassesBalanceBytes(c, prepared, its[0].Passes());
      RunBalancesBytes(c, ServeAll(c, prepared, its[0].Passes()), its[1..]);
    }
  }

  // ---- Who is answered -------------------------------------------------------------------------------------

  /** The requests that were answered, as who sent what, in the order of the answers. */
  function ServedTo(log: seq<Event>): seq<Arrival> {
    if log == [] then []
    else
      var e := log[|log| - 1];
      ServedTo(log[..|log| - 1]) + (if e.Answered? && |e.pending| == |e.frames| then Waiting(e.pending, e.frames) else [])
  }

  lemma AnsweredNext(log: seq<Event>, e: Event)
    ensures ServedTo(log + [e]) == ServedTo(log) + (if e.Answered? && |e.pending| == |e.frames| then Waiting(e.pending, e.frames) else [])
  {
    assert (log + [e])[..|log|] == log;
  }

  /** The good datagrams of the passes, in their order. */
  function GoodOfPasses(rounds: seq<Round>): seq<Arrival> {
    if rounds == [] then [] else GoodOfPasses(rounds[..|rounds| - 1]) + Accepted(Taken(rounds[|rounds| - 1].recvs))
  }

  function GoodOfRun(its: seq<Iteration>): seq<Arrival> {
    if its == [] then [] else GoodOfRun(Earlier(its)) + GoodOfPasses(Latest(its).Passes())
  }

  lemma ServeAnswers(c: Config, st: State, round: Round)
    requires c.Proper() && FitsRound(c, round)
    ensures ServedTo(Serve(c, st, round).log) == ServedTo(st.log) + Accepted(Taken(round.recvs))
  {
    var start := Intake([], [], st.request);
    var (intake, network, _) := Collect(start, st.network, round.recvs);
    CollectCounts(start, st.network, round.recvs);
    CollectExactly(start, st.network, round.recvs);
    var out := Answers(c.suite, st.key, intake.pending, LeavesOf(c.version, intake.pending, intake.frames), round.signTime);
    assert Waiting([], []) + Accepted(Taken(round.recvs)) == Accepted(Taken(round.recvs));
    AnsweredNext(st.log, Answered(st.key, round.signTime, intake.pending, intake.frames, out));
    if out == [] {
      assert Waiting(intake.pending, intake.frames) == [];
      Associate(ServedTo(st.log), [], []);
    }
  }

  lemma {:induction false} PassesAnswer(c: Config, st: State, rounds: seq<Round>)
    requires c.Proper() && FitsRounds(c, rounds)
    ensures ServedTo(ServeAll(c, st, rounds).log) == ServedTo(st.log) + GoodOfPasses(rounds)
    decreases |rounds|
  {
    hide Serve, ServedTo, Accepted, Taken;
    if rounds == [] {
      Associate(ServedTo(st.log), [], []);
    } else {
      var k := |rounds| - 1;
      ServeLatest(c, st, rounds);
      PassesAnswer(c, st, rounds[..k]);
      ServeAnswers(c, ServeAll(c, st, rounds[..k]), rounds[k]);
      Associate(ServedTo(st.log), GoodOfPasses(rounds[..k]), Accepted(Taken(rounds[k].recvs)));
    }
  }

  lemma PrepareAnswersNobody(c: Config, st: State, it: Iteration)
    requires c.Proper()
    ensures ServedTo(Prepare(c, st, it).log) == ServedTo(st.log)
  {
    AnsweredNext(st.log, Standing(st));
    Associate(ServedTo(st.log), [], []);
  }

  /** Every good datagram of a run is answered exactly once, in order, and nothing else is. */
  lemma {:induction false} RunAnswersEveryone(c: Config, st: State, its: seq<Iteration>)
    requires c.Proper() && Fits(c, its)
    ensures ServedTo(Run(c, st, its).log) == ServedTo(st.log) + GoodOfRun(its)
    decreases |its|
  {
    hide Prepare, ServeAll, ServedTo, GoodOfPasses;
    if its == [] {
      Associate(ServedTo(st.log), [], []);
    } else {
      hide Run;
      EarlierFits(c, its);
      RunLatest(c, st, its);
      RunAnswersEveryone(c, st, Earlier(its));
      var before, it := Run(c, st, Earlier(its)), Latest(its);
      PrepareAnswersNobody(c, before, it);
      PassesAnswer(c, Prepare(c, before, it), it.Passes());
      Associate(ServedTo(st.log), GoodOfRun(Earlier(its)), GoodOfPasses(it.Passes()));
    }
  }

  // ---- Rotation ------------------------------------------------------------------------------------------------

  /** When the next rotation is due after these turns: each rotation moves it on by the hours of the interval, less its jitter. */
  function RotationDue(c: Config, start: nat, its: seq<Iteration>): (due: nat)
    requires c.Proper()
  {
    if its == [] then start
    else
      var before := RotationDue(c, start, Earlier(its));
      if Latest(its).now >= before then before + c.hours * 3600 - Latest(its).jitter else before
  }

  /** The turns that rotate. */
  function Rotations(c: Config, start: nat, its: seq<Iteration>): seq<Iteration>
    requires c.Proper()
  {
    if its == [] then []
    else
      Rotations(c, start, Earlier(its)) +
      (if Latest(its).now >= RotationDue(c, start, Earlier(its)) then [Latest(its)] else [])
  }

  function Jitters(turns: seq<Iteration>): nat {
    if turns == [] then 0 else Jitters(Earlier(turns)) + Latest(turns).jitter
  }

  /** The schedule after k rotations. */
  lemma {:induction false} ScheduleExactly(c: Config, start: nat, its: seq<Iteration>)
    requires c.Proper()
    ensures var turns := Rotations(c, start, its);
            RotationDue(c, start, its) == start + |turns| * (c.hours * 3600) - Jitters(turns)
  {
    if its != [] {
      ScheduleExactly(c, start, Earlier(its));
      var earlier := Rotations(c, start, Earlier(its));
      if Latest(its).now >= RotationDue(c, start, Earlier(its)) {
        var turns := earlier + [Latest(its)];
        assert Earlier(turns) == earlier;
        OneMore(|earlier|, c.hours * 3600);
      } else {
        assert earlier + [] == earlier;
      }
    }
  }

  lemma OneMore(k: nat, interval: nat)
    ensures (k + 1) * interval == k * interval + interval
  {
  }

  /** The key in use: that of the last rotation, issued then for the hours of the interval. */
  function CurrentKey(c: Config, first: Key, turns: seq<Iteration>): Key
    requires c.Proper()
  {
    if turns == [] then first
    else IssueKey(c.suite, c.identity, c.version, Latest(turns).keySeed, Latest(turns).keyTime, c.hours * 3600)
  }

  lemma TurnRotates(c: Config, st: State, it: Iteration)
    requires c.Proper() && FitsRounds(c, it.Passes())
    ensures var r := Turn(c, st, it);
            if it.now >= st.nextKey
            then r.nextKey == st.nextKey + c.hours * 3600 - it.jitter && r.key == CurrentKey(c, st.key, [it])
            else r.nextKey == st.nextKey && r.key == st.key
  {
    hide ServeAll;
    assert Latest([it]) == it;
    PassesPublishNothing(c, Prepare(c, st, it), it.Passes());
  }

  lemma CurrentKeyNext(c: Config, first: Key, between: Key, earlier: seq<Iteration>, it: Iteration)
    requires c.Proper()
    ensures CurrentKey(c, first, earlier + [it]) == CurrentKey(c, between, [it]) && CurrentKey(c, first, earlier + []) == CurrentKey(c, first, earlier)
  {
    assert Latest(earlier + [it]) == it && earlier + [] == earlier;
  }

  /** In every run the key is rotated in exactly the turns that reach the due time, and due times move as above. */
  lemma {:induction false} RunRotates(c: Config, st: State, its: seq<Iteration>)
    requires c.Proper() && Fits(c, its)
    ensures Run(c, st, its).nextKey == RotationDue(c, st.nextKey, its)
    ensures Run(c, st, its).key == CurrentKey(c, st.key, Rotations(c, st.nextKey, its))
    decreases |its|
  {
    if its != [] {
      hide Run, Turn, CurrentKey;
      EarlierFits(c, its);
      RunLatest(c, st, its);
      RunRotates(c, st, Earlier(its));
      var before := Run(c, st, Earlier(its));
      TurnRotates(c, before, Latest(its));
      CurrentKeyNext(c, st.key, before.key, Rotations(c, st.nextKey, Earlier(its)), Latest(its));
    }
  }
}
