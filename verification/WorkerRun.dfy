/** The worker's loop over its handlers, refined to the step relation. */
module Workers {
  import opened Wrappers
  import opened Primitives
  import opened Versions
  import opened Crypto
  import opened OnlineKeys
  import opened Batches
  import opened Service
  import opened Handlers
  import opened WorkerModel

  class Worker {
    ghost const config: Config
    const publishInterval: nat
    const rotationInterval: u64
    const net: NetworkHandler
    const handler: RequestHandler
    var nextKeyReplacement: nat
    var nextMetricsPublication: nat
    /** Datagrams received since the last publication. */
    ghost var received: nat
    ghost var log: seq<Event>

    /** The handlers were set up with the worker's configuration. */
    ghost predicate Configured() {
      && config.Proper() && config.Interval() == rotationInterval && config.publishInterval == publishInterval
      && net.batchSize == handler.responder.batchSize == config.batchSize
      && handler.responder.identity.suite == config.suite && handler.responder.identity.seed == config.identity
      && handler.responder.version == config.version && handler.responder.validity == rotationInterval
    }

    /** Between rounds nothing is pending. */
    ghost predicate Valid()
      reads handler, handler.responder, handler.responder.path, handler.responder.key, handler.responder.key.signingBuf, handler.responder.tree
    {
      Configured() && handler.Valid() && handler.responder.requests == []
    }

    ghost function Model(): State
      reads this, net, handler, handler.responder, handler.responder.key
    {
      State(handler.responder.key.Value(), nextKeyReplacement, nextMetricsPublication,
            net.metrics, handler.metrics, handler.responder.metrics, received, log)
    }

    /** The handler's first key was made earlier; the worker is due to replace it at once. */
    constructor (ghost config: Config, publishInterval: nat, rotationInterval: u64, responder: ResponseHandler, now: u64)
      requires config.Proper() && config.Interval() == rotationInterval && config.publishInterval == publishInterval
      requires responder.batchSize == config.batchSize && responder.version == config.version && responder.validity == rotationInterval
      requires responder.identity.suite == config.suite && responder.identity.seed == config.identity
      requires responder.Valid() && responder.requests == [] && responder.metrics == NO_RESPONSES
      ensures Valid() && this.config == config && Model() == Start(config, responder.key.Value(), now)
    {
      this.config, this.publishInterval, this.rotationInterval := config, publishInterval, rotationInterval;
      net := new NetworkHandler(responder.batchSize);
      handler := new RequestHandler(responder);
      nextKeyReplacement := now;
      nextMetricsPublication := now + publishInterval;
      received, log := 0, [];
    }

    method PublishMetrics(time: u64)
      requires Valid()
      modifies this`nextMetricsPublication, this`received, this`log, net`metrics, handler`metrics, handler.responder`metrics
      ensures Valid() && Model() == Publish(config, old(Model()), time)
    {
      ghost var snapshot := Snapshot(net.metrics, handler.metrics, handler.responder.metrics);
      log := log + [Published(snapshot, received)];
      received := 0;
      net.ResetMetrics();
      handler.ResetMetrics();
      nextMetricsPublication := time + publishInterval;
    }

    method ReplaceOnlineKey(seed: Bytes32, time: u64, jitter: Jitter)
      requires Valid()
      modifies this`nextKeyReplacement, handler.responder`key
      ensures Valid() && Model() == Rekey(config, old(Model()), seed, time, jitter)
      ensures fresh(handler.responder.key) && fresh(handler.responder.key.signingBuf)
    {
      handler.ReplaceOnlineKey(seed, time);
      nextKeyReplacement := nextKeyReplacement + (rotationInterval - jitter);
    }

    /** One pass of the inner loop. */
    method ServeRound(round: Round) returns (result: CollectResult)
      requires Valid() && FitsRound(config, round)
      modifies this`received, this`log, net`metrics, handler`metrics, handler.responder`metrics
      modifies handler.responder`requests, handler.responder`frames, handler.responder.tree, handler.responder.path`numPaths
      modifies handler.responder.path.data, handler.responder.key.signingBuf, handler.responder.responseBuf
      ensures Valid() && Model() == Serve(config, old(Model()), round)
      ensures result == Empty <==> StopsDry(round.recvs)
    {
      ghost var st := Model();
      ghost var start := Intake([], [], st.request);
      assert handler.Current() == start;
      ghost var collected := Collect(start, st.network, round.recvs);
      CollectCounts(start, st.network, round.recvs);
      CollectStops(start, st.network, round.recvs);
      result := net.CollectRequests(round.recvs, handler);
      assert Model() == st.(network := collected.1, request := collected.0.metrics);
      AnswerBatch(round, st, collected.0, collected.1);
    }

    /** Answers and sends the batch that was collected since state `st`. */
    method AnswerBatch(round: Round, ghost st: State, ghost intake: Intake, ghost network: NetworkMetrics)
      requires Configured() && handler.Valid() && handler.Current() == intake
      requires |intake.pending| == |intake.frames| <= |round.sends|
      requires Model() == st.(network := network, request := intake.metrics)
      modifies this`received, this`log, net`metrics, handler.responder`metrics
      modifies handler.responder`requests, handler.responder`frames, handler.responder.tree, handler.responder.path`numPaths
      modifies handler.responder.path.data, handler.responder.key.signingBuf, handler.responder.responseBuf
      ensures Valid()
      ensures var out := Answers(config.suite, st.key, intake.pending, LeavesOf(config.version, intake.pending, intake.frames), round.signTime);
              Model() == Served(st, intake, Send(network, round.sends[..|out|]), Count(round.recvs), round.signTime, out)
    {
      var out := handler.GenerateResponses(round.signTime);
      SendAll(out, round.sends);
      Record(Count(round.recvs), Answered(st.key, round.signTime, intake.pending, intake.frames, out));
    }

    /** Notes what an observer would. */
    ghost method Record(count: nat, e: Event)
      requires Valid() && e.Answered?
      modifies this`received, this`log
      ensures Valid() && received == old(received) + count
      ensures log == if e.out == [] then old(log) else old(log) + [e]
    {
      received := received + count;
      if e.out != [] {
        log := log + [e];
      }
    }

    /** Hands every frame to the socket; the outcomes of the sends are given in advance. */
    method SendAll(out: seq<(Addr, Bytes)>, outcomes: seq<bool>)
      requires |out| <= |outcomes| && Valid()
      modifies net`metrics
      ensures Valid() && net.metrics == Send(old(net.metrics), outcomes[..|out|])
    {
      for i := 0 to |out|
        invariant Valid() && net.metrics == Send(old(net.metrics), outcomes[..i])
      {
        assert outcomes[..i + 1][..i] == outcomes[..i];
        net.SendResponse(outcomes[i]);
      }
    }

    /** Publication, key rotation and poll at the start of a turn. */
    method PrepareTurn(it: Iteration)
      requires Valid()
      modifies this, net`metrics, handler`metrics, handler.responder`metrics, handler.responder`key
      ensures Valid() && Model() == Prepare(config, old(Model()), it)
      ensures handler.responder.key.signingBuf == old(handler.responder.key.signingBuf) || fresh(handler.responder.key.signingBuf)
    {
      if it.now >= nextMetricsPublication {
        PublishMetrics(it.publishTime);
      }
      assert Model() == PublishIfDue(config, old(Model()), it);
      if it.now >= nextKeyReplacement {
        ReplaceOnlineKey(it.keySeed, it.keyTime, it.jitter);
      }
      assert Model() == RekeyIfDue(config, PublishIfDue(config, old(Model()), it), it);
      if it.pollFailed {
        net.RecordFailedPoll();
      }
    }

    /** The inner loop: rounds of collecting and answering, until the socket is drained. */
    method ServeRounds(rounds: seq<Round>)
      requires Valid() && FitsRounds(config, UpToEmpty(rounds))
      modifies this`received, this`log, net`metrics, handler`metrics, handler.responder`metrics
      modifies handler.responder`requests, handler.responder`frames, handler.responder.tree, handler.responder.path`numPaths
      modifies handler.responder.path.data, handler.responder.key.signingBuf, handler.responder.responseBuf
      ensures Valid() && Model() == ServeAll(config, old(Model()), UpToEmpty(rounds))
    {
      ghost var goal := ServeAll(config, Model(), UpToEmpty(rounds));
      assert rounds[0..] == rounds;
      for i := 0 to |rounds|
        invariant Valid() && FitsRounds(config, UpToEmpty(rounds[i..]))
        invariant ServeAll(config, Model(), UpToEmpty(rounds[i..])) == goal
      {
        PassesUnfold(config, rounds, i);
        var result := ServeRound(rounds[i]);
        if result == Empty {
          return;
        }
      }
    }

    static lemma PassesUnfold(c: Config, rounds: seq<Round>, i: nat)
      requires i < |rounds| && FitsRounds(c, UpToEmpty(rounds[i..]))
      ensures var passes := UpToEmpty(rounds[i..]);
              && passes != [] && passes[0] == rounds[i] && FitsRound(c, rounds[i])
              && passes[1..] == (if StopsDry(rounds[i].recvs) then [] else UpToEmpty(rounds[i + 1..]))
              && FitsRounds(c, passes[1..])
    {
      assert rounds[i..][0] == rounds[i] && rounds[i..][1..] == rounds[i + 1..];
      assert UpToEmpty(rounds[i..])[0] == rounds[i];
    }

    method RunTurn(it: Iteration)
      requires Valid() && FitsRounds(config, it.Passes())
      modifies this, net, handler, handler.responder, handler.responder.tree, handler.responder.path
      modifies handler.responder.path.data, handler.responder.key.signingBuf, handler.responder.responseBuf
      ensures Valid() && Model() == ServeAll(config, Prepare(config, old(Model()), it), it.Passes())
      ensures handler.responder.key.signingBuf == old(handler.responder.key.signingBuf) || fresh(handler.responder.key.signingBuf)
    {
      PrepareTurn(it);
      ServeRounds(it.rounds);
    }

    /** The outer loop, for as many turns as it is kept running. */
    method Run(its: seq<Iteration>)
      requires Valid() && Fits(config, its)
      modifies this, net, handler, handler.responder, handler.responder.tree, handler.responder.path
      modifies handler.responder.path.data, handler.responder.key.signingBuf, handler.responder.responseBuf
      ensures Valid() && Model() == WorkerModel.Run(config, old(Model()), its)
    {
      ghost var goal := WorkerModel.Run(config, Model(), its);
      assert its[0..] == its;
      for i := 0 to |its|
        invariant Valid() && WorkerModel.Run(config, Model(), its[i..]) == goal
        invariant handler.responder.key.signingBuf == old(handler.responder.key.signingBuf) || fresh(handler.responder.key.signingBuf)
      {
        assert its[i..][0] == its[i] && its[i..][1..] == its[i + 1..];
        RunTurn(its[i]);
      }
    }
  }
}
