/** One round of service as a function of what the socket delivers: collect a batch, answer it, count. */
module Service {
  import opened Wrappers
  import opened Primitives
  import opened Versions
  import opened Crypto
  import opened OnlineKeys
  import opened Requests
  import opened Batches

  /** What one receive call yields. */
  datatype Recv = Datagram(bytes: Bytes, from: Addr) | WouldBlock | Failed

  datatype CollectResult = Empty | MoreData

  datatype RequestMetrics = RequestMetrics(ok: nat, bad: nat, runt: nat, jumbo: nat) {
    function Total(): nat { ok + bad + runt + jumbo }

    function AddOk(): RequestMetrics { this.(ok := ok + 1) }

    function AddBad(): RequestMetrics { this.(bad := bad + 1) }

    function AddRunt(): RequestMetrics { this.(runt := runt + 1) }

    function AddJumbo(): RequestMetrics { this.(jumbo := jumbo + 1) }
  }

  datatype NetworkMetrics = NetworkMetrics(wouldBlock: nat, sent: nat, failedSends: nat, failedPolls: nat, failedRecvs: nat) {
    function AddWouldBlock(): NetworkMetrics { this.(wouldBlock := wouldBlock + 1) }

    function AddSend(succeeded: bool): NetworkMetrics {
      if succeeded then this.(sent := sent + 1) else this.(failedSends := failedSends + 1)
    }

    function AddFailedPoll(): NetworkMetrics { this.(failedPolls := failedPolls + 1) }

    function AddFailedRecv(): NetworkMetrics { this.(failedRecvs := failedRecvs + 1) }
  }

  datatype ResponseMetrics = ResponseMetrics(responses: nat, bytesSent: nat) {
    function AddBatch(size: nat): ResponseMetrics { this.(responses := responses + size) }

    function AddBytes(b: Bytes): ResponseMetrics { this.(bytesSent := bytesSent + |b|) }

    function AddAllBytes(out: seq<(Addr, Bytes)>): ResponseMetrics {
      if out == [] then this else AddAllBytes(out[..|out| - 1]).AddBytes(out[|out| - 1].1)
    }

    /** A batch and the frames that answer it. */
    function Add(out: seq<(Addr, Bytes)>): ResponseMetrics {
      AddBatch(|out|).AddAllBytes(out)
    }
  }

  const NO_REQUESTS: RequestMetrics := RequestMetrics(0, 0, 0, 0)
  const NO_TRAFFIC: NetworkMetrics := NetworkMetrics(0, 0, 0, 0, 0)
  const NO_RESPONSES: ResponseMetrics := ResponseMetrics(0, 0)

  const RECV_BUFFER_SIZE: nat := 1024

  /** A datagram as it lands in the receive buffer; what does not fit is cut off. */
  function Landed(datagram: Bytes): (b: Bytes)
    ensures |b| <= RECV_BUFFER_SIZE
  {
    if |datagram| > RECV_BUFFER_SIZE then datagram[..RECV_BUFFER_SIZE] else datagram
  }

  /** The batch under way: accepted requests with the frames they came in, and the request counters. */
  datatype Intake = Intake(pending: seq<Pending>, frames: seq<Bytes>, metrics: RequestMetrics)

  /** Classify one datagram: too short, too long, unparsable or accepted. */
  function TakeIn(intake: Intake, bytes: Bytes, from: Addr): Intake {
    var m := intake.metrics;
    if |bytes| < REQUEST_SIZE then intake.(metrics := m.AddRunt())
    else if |bytes| > REQUEST_SIZE then intake.(metrics := m.AddJumbo())
    else
      match FromFrame(bytes)
      case Ok(parsed) =>
        Intake(intake.pending + [Pending(parsed.0, from)], intake.frames + [bytes], m.AddOk())
      case Err(_) => intake.(metrics := m.AddBad())
  }

  /** The receive loop: it ends when the socket is drained, on an error, or when the batch is full. */
  function Collect(intake: Intake, net: NetworkMetrics, recvs: seq<Recv>): (Intake, NetworkMetrics, CollectResult)
    decreases |recvs|
  {
    if recvs == [] then (intake, net, MoreData)
    else
      match recvs[0]
      case Datagram(bytes, from) => Collect(TakeIn(intake, Landed(bytes), from), net, recvs[1..])
      case WouldBlock => (intake, net.AddWouldBlock(), Empty)
      case Failed => (intake, net.AddFailedRecv(), MoreData)
  }

  /** How many datagrams the receive loop takes. */
  function Count(recvs: seq<Recv>): nat {
    if recvs == [] || !recvs[0].Datagram? then 0 else 1 + Count(recvs[1..])
  }

  /** Whether the receive loop ends because the socket is drained. */
  predicate StopsDry(recvs: seq<Recv>) {
    recvs != [] && (recvs[0].WouldBlock? || (recvs[0].Datagram? && StopsDry(recvs[1..])))
  }

  lemma {:induction false} CollectStops(intake: Intake, net: NetworkMetrics, recvs: seq<Recv>)
    ensures Collect(intake, net, recvs).2 == Empty <==> StopsDry(recvs)
    decreases |recvs|
  {
    if recvs != [] && recvs[0].Datagram? {
      CollectStops(TakeIn(intake, Landed(recvs[0].bytes), recvs[0].from), net, recvs[1..]);
    }
  }

  /** Sends, of which each may fail. */
  function Send(net: NetworkMetrics, outcomes: seq<bool>): NetworkMetrics {
    if outcomes == [] then net
    else Send(net, outcomes[..|outcomes| - 1]).AddSend(outcomes[|outcomes| - 1])
  }

  function LeavesOf(version: ProtocolVersion, pending: seq<Pending>, frames: seq<Bytes>): (leaves: seq<Bytes>)
    requires |pending| == |frames|
    ensures |leaves| == |frames|
  {
    seq(|frames|, i requires 0 <= i < |frames| => LeafOf(version, frames[i], pending[i].request))
  }

  lemma LeavesAppend(version: ProtocolVersion, pending: seq<Pending>, frames: seq<Bytes>, p: Pending, frame: Bytes)
    requires |pending| == |frames|
    ensures LeavesOf(version, pending + [p], frames + [frame]) == LeavesOf(version, pending, frames) + [LeafOf(version, frame, p.request)]
  {
  }

  /** Every pending request was parsed from its frame. */
  ghost predicate Genuine(pending: seq<Pending>, frames: seq<Bytes>) {
    && |pending| == |frames|
    && forall i :: 0 <= i < |frames| ==> ParsedFrom(pending[i].request, frames[i])
  }

  predicate ParsedFrom(request: Request, frame: Bytes) {
    |frame| == REQUEST_SIZE && FromFrame(frame).Ok? && FromFrame(frame).value.0 == request
  }

  lemma {:induction false} BytesLeaveResponses(m: ResponseMetrics, out: seq<(Addr, Bytes)>)
    ensures m.AddAllBytes(out).responses == m.responses
  {
    if out != [] {
      BytesLeaveResponses(m, out[..|out| - 1]);
    }
  }

  // ---- What a round keeps ------------------------------------------------------------------------

  /** Accepted requests are pending, and every datagram is counted once; none is ever counted as too long. */
  lemma TakeInCounts(intake: Intake, bytes: Bytes, from: Addr)
    requires Genuine(intake.pending, intake.frames) && |bytes| <= RECV_BUFFER_SIZE
    ensures var r := TakeIn(intake, bytes, from);
            && Genuine(r.pending, r.frames)
            && r.metrics.Total() == intake.metrics.Total() + 1 && r.metrics.jumbo == intake.metrics.jumbo
            && r.metrics.ok - intake.metrics.ok == |r.pending| - |intake.pending| <= 1
            && |r.pending| >= |intake.pending|
  {
  }

  lemma {:induction false} CollectCounts(intake: Intake, net: NetworkMetrics, recvs: seq<Recv>)
    requires Genuine(intake.pending, intake.frames)
    ensures var (r, n, _) := Collect(intake, net, recvs);
            && Genuine(r.pending, r.frames)
            && r.metrics.Total() == intake.metrics.Total() + Count(recvs) && r.metrics.jumbo == intake.metrics.jumbo
            && r.metrics.ok - intake.metrics.ok == |r.pending| - |intake.pending|
            && |intake.pending| <= |r.pending| <= |intake.pending| + |recvs|
            && n.sent == net.sent && n.failedSends == net.failedSends
    decreases |recvs|
  {
    if recvs != [] && recvs[0].Datagram? {
      var bytes, from := Landed(recvs[0].bytes), recvs[0].from;
      TakeInCounts(intake, bytes, from);
      CollectCounts(TakeIn(intake, bytes, from), net, recvs[1..]);
    }
  }

  lemma {:induction false} SendCounts(net: NetworkMetrics, outcomes: seq<bool>)
    ensures var n := Send(net, outcomes);
            n.sent + n.failedSends == net.sent + net.failedSends + |outcomes|
  {
    if outcomes != [] {
      SendCounts(net, outcomes[..|outcomes| - 1]);
    }
  }
}
