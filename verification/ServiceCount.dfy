/** Each counter of a round as the number of datagrams, results or sends of its kind, and who is answered. */
module ServiceCounts {
  import opened Wrappers
  import opened Primitives
  import opened Requests
  import opened Batches
  import opened Service

  /** A datagram as it landed, and who sent it. */
  datatype Arrival = Arrival(bytes: Bytes, from: Addr) {

    predicate Runt() { |bytes| < 1024 }

    predicate Good() { |bytes| == 1024 && FromFrame(bytes).Ok? }

    predicate Bad() { |bytes| == 1024 && FromFrame(bytes).Err? }
  }

  /** The datagrams that the receive loop takes: those in front of the first other result, cut to 1024 bytes. */
  function Taken(recvs: seq<Recv>): (arrivals: seq<Arrival>)
    ensures forall a :: a in arrivals ==> |a.bytes| <= 1024
  {
    if recvs == [] || !recvs[0].Datagram? then []
    else
      var datagram := recvs[0].bytes;
      [Arrival(if |datagram| <= 1024 then datagram else datagram[..1024], recvs[0].from)] + Taken(recvs[1..])
  }

  /** The first result that is no datagram. */
  function Stop(recvs: seq<Recv>): Option<Recv> {
    if recvs == [] then None else if recvs[0].Datagram? then Stop(recvs[1..]) else Some(recvs[0])
  }

  function HowMany(p: Arrival -> bool, arrivals: seq<Arrival>): nat {
    if arrivals == [] then 0 else (if p(arrivals[0]) then 1 else 0) + HowMany(p, arrivals[1..])
  }

  /** The accepted ones, in their order. */
  function Accepted(arrivals: seq<Arrival>): seq<Arrival> {
    if arrivals == [] then []
    else (if arrivals[0].Good() then [arrivals[0]] else []) + Accepted(arrivals[1..])
  }

  /** The batch under way, as who sent what. */
  function Waiting(pending: seq<Pending>, frames: seq<Bytes>): (waiting: seq<Arrival>)
    requires |pending| == |frames|
    ensures |waiting| == |frames|
  {
    seq(|frames|, i requires 0 <= i < |frames| => Arrival(frames[i], pending[i].addr))
  }

  const GOOD: Arrival -> bool := (a: Arrival) => a.Good()
  const BAD: Arrival -> bool := (a: Arrival) => a.Bad()
  const RUNT: Arrival -> bool := (a: Arrival) => a.Runt()

  lemma TakeInExactly(intake: Intake, a: Arrival)
    requires |intake.pending| == |intake.frames| && |a.bytes| <= 1024
    ensures var r := TakeIn(intake, a.bytes, a.from);
            && r.metrics.ok == intake.metrics.ok + (if a.Good() then 1 else 0)
            && r.metrics.bad == intake.metrics.bad + (if a.Bad() then 1 else 0)
            && r.metrics.runt == intake.metrics.runt + (if a.Runt() then 1 else 0)
            && r.metrics.jumbo == intake.metrics.jumbo
            && |r.pending| == |r.frames|
            && Waiting(r.pending, r.frames) == Waiting(intake.pending, intake.frames) + (if a.Good() then [a] else [])
  {
  }

  /** The request counters grew by the arrivals of their kind. */
  predicate Counted(before: RequestMetrics, after: RequestMetrics, arrivals: seq<Arrival>) {
    && after.ok == before.ok + HowMany(GOOD, arrivals)
    && after.bad == before.bad + HowMany(BAD, arrivals)
    && after.runt == before.runt + HowMany(RUNT, arrivals)
    && after.jumbo == before.jumbo
  }

  lemma CountedNext(before: RequestMetrics, next: RequestMetrics, after: RequestMetrics, arrivals: seq<Arrival>)
    requires arrivals != [] && Counted(before, next, [arrivals[0]]) && Counted(next, after, arrivals[1..])
    ensures Counted(before, after, arrivals)
  {
    HowManyNext(GOOD, arrivals);
    HowManyNext(BAD, arrivals);
    HowManyNext(RUNT, arrivals);
  }

  lemma HowManyNext(p: Arrival -> bool, arrivals: seq<Arrival>)
    requires arrivals != []
    ensures HowMany(p, arrivals) == HowMany(p, [arrivals[0]]) + HowMany(p, arrivals[1..])
  {
    assert [arrivals[0]][1..] == [];
  }

  lemma OneCounted(intake: Intake, a: Arrival)
    requires |intake.pending| == |intake.frames| && |a.bytes| <= 1024
    ensures Counted(intake.metrics, TakeIn(intake, a.bytes, a.from).metrics, [a])
    ensures var r := TakeIn(intake, a.bytes, a.from);
            && |r.pending| == |r.frames|
            && Waiting(r.pending, r.frames) == Waiting(intake.pending, intake.frames) + Accepted([a])
  {
    TakeInExactly(intake, a);
    assert [a][1..] == [];
    assert HowMany(GOOD, [a]) == if a.Good() then 1 else 0;
    assert HowMany(BAD, [a]) == if a.Bad() then 1 else 0;
    assert HowMany(RUNT, [a]) == if a.Runt() then 1 else 0;
    assert Accepted([a]) == if a.Good() then [a] else [];
  }

  lemma AcceptedNext(waiting: seq<Arrival>, arrivals: seq<Arrival>)
    requires arrivals != []
    ensures waiting + Accepted(arrivals) == (waiting + Accepted([arrivals[0]])) + Accepted(arrivals[1..])
  {
    assert [arrivals[0]][1..] == [];
    assert Accepted([arrivals[0]]) == if arrivals[0].Good() then [arrivals[0]] else [];
    assert Accepted(arrivals) == Accepted([arrivals[0]]) + Accepted(arrivals[1..]);
    Together(waiting, Accepted([arrivals[0]]), Accepted(arrivals[1..]));
  }

  lemma Together(x: seq<Arrival>, y: seq<Arrival>, z: seq<Arrival>)
    ensures x + (y + z) == (x + y) + z
  {
  }

  /** One round of collecting: the request counters, and who waits for an answer. */
  lemma {:induction false} CollectExactly(intake: Intake, net: NetworkMetrics, recvs: seq<Recv>)
    requires |intake.pending| == |intake.frames|
    ensures var (r, _, _) := Collect(intake, net, recvs);
            && Counted(intake.metrics, r.metrics, Taken(recvs))
            && |r.pending| == |r.frames|
            && Waiting(r.pending, r.frames) == Waiting(intake.pending, intake.frames) + Accepted(Taken(recvs))
    decreases |recvs|
  {
    hide TakeIn;
    if recvs != [] && recvs[0].Datagram? {
      var arrivals := Taken(recvs);
      var a := arrivals[0];
      assert a.bytes == Landed(recvs[0].bytes) && arrivals[1..] == Taken(recvs[1..]);
      var next := TakeIn(intake, a.bytes, a.from);
      OneCounted(intake, a);
      CollectExactly(next, net, recvs[1..]);
      CountedNext(intake.metrics, next.metrics, Collect(next, net, recvs[1..]).0.metrics, arrivals);
      AcceptedNext(Waiting(intake.pending, intake.frames), arrivals);
    }
  }

  /** The network counters, and what the round returns. */
  lemma {:induction false} CollectReturns(intake: Intake, net: NetworkMetrics, recvs: seq<Recv>)
    ensures var (_, n, result) := Collect(intake, net, recvs);
            && n == net.(wouldBlock := net.wouldBlock + (if Stop(recvs) == Some(WouldBlock) then 1 else 0),
                         failedRecvs := net.failedRecvs + (if Stop(recvs) == Some(Failed) then 1 else 0))
            && (result == Empty <==> Stop(recvs) == Some(WouldBlock))
    decreases |recvs|
  {
    hide TakeIn;
    if recvs != [] && recvs[0].Datagram? {
      CollectReturns(TakeIn(intake, Landed(recvs[0].bytes), recvs[0].from), net, recvs[1..]);
    }
  }

  /** As many are accepted as are good, and as many are taken as were counted. */
  lemma {:induction false} AcceptedAreGood(arrivals: seq<Arrival>)
    ensures |Accepted(arrivals)| == HowMany(GOOD, arrivals)
  {
    if arrivals != [] {
      AcceptedAreGood(arrivals[1..]);
    }
  }

  lemma {:induction false} TakenAreCounted(recvs: seq<Recv>)
    ensures |Taken(recvs)| == Count(recvs)
  {
    if recvs != [] && recvs[0].Datagram? {
      TakenAreCounted(recvs[1..]);
    }
  }

  function Successes(outcomes: seq<bool>): nat {
    if outcomes == [] then 0 else Successes(outcomes[..|outcomes| - 1]) + (if outcomes[|outcomes| - 1] then 1 else 0)
  }

  /** Each send is counted by its outcome, and no other counter moves. */
  lemma {:induction false} SendExactly(net: NetworkMetrics, outcomes: seq<bool>)
    ensures Successes(outcomes) <= |outcomes|
    ensures Send(net, outcomes) ==
            net.(sent := net.sent + Successes(outcomes), failedSends := net.failedSends + (|outcomes| - Successes(outcomes)))
  {
    if outcomes != [] {
      SendExactly(net, outcomes[..|outcomes| - 1]);
    }
  }

  function TotalBytes(out: seq<(Addr, Bytes)>): nat {
    if out == [] then 0 else TotalBytes(out[..|out| - 1]) + |out[|out| - 1].1|
  }

  /** A batch is counted with its size and the bytes of all its frames. */
  lemma {:induction false} AnswersExactly(m: ResponseMetrics, out: seq<(Addr, Bytes)>)
    ensures m.AddAllBytes(out) == m.(bytesSent := m.bytesSent + TotalBytes(out))
  {
    if out != [] {
      AnswersExactly(m, out[..|out| - 1]);
    }
  }
}
