/** The recorded arrivals against the schedule itself, so that what is proved about the
    history is about the datagrams the receive task was given. */
module Histories {
  import opened Basics
  import opened Protocol
  import opened PeerTimes
  import opened ServerRuns

  /** A datagram handed to a peer, with the time of its arrival. */
  datatype Receipt = Receipt(addr: SocketAddr, bytes: Packet, time: Instant)

  /** The time after the steps of a schedule. */
  function Clock(now: Instant, steps: seq<Step>): Instant {
    if steps == [] then now
    else
      var prev, step := steps[..|steps| - 1], steps[|steps| - 1];
      Clock(now, prev) + if step.Tick? then step.nanos else 0
  }

  /** What the schedule gives the receive task for its peers, in order. */
  function Receipts(now: Instant, steps: seq<Step>): seq<Receipt> {
    if steps == [] then []
    else
      var prev, step := steps[..|steps| - 1], steps[|steps| - 1];
      Receipts(now, prev)
      + if step.Receive? && ReachesPeer(step.bytes) then [Receipt(step.addr, step.bytes, Clock(now, prev))] else []
  }

  function ReceiptsOf(arrivals: seq<Arrival>): (r: seq<Receipt>)
    ensures |r| == |arrivals|
    ensures forall i :: 0 <= i < |r| ==> r[i] == Receipt(arrivals[i].addr, arrivals[i].bytes, arrivals[i].time)
  {
    seq(|arrivals|, i requires 0 <= i < |arrivals| =>
      Receipt(arrivals[i].addr, arrivals[i].bytes, arrivals[i].time))
  }

  lemma ReceiptsOfSnoc(arrivals: seq<Arrival>, a: Arrival)
    ensures ReceiptsOf(arrivals + [a]) == ReceiptsOf(arrivals) + [Receipt(a.addr, a.bytes, a.time)]
  {
  }

  /** One step: only a datagram for a peer adds to the history, and only ticks move the clock. */
  lemma StepRecords(s: State, step: Step)
    requires Enabled(s, step)
    ensures ReceiptsOf(Apply(s, step).arrivals) ==
            ReceiptsOf(s.arrivals)
            + if step.Receive? && ReachesPeer(step.bytes) then [Receipt(step.addr, step.bytes, s.now)] else []
  {
    if step.Receive? {
      if ReachesPeer(step.bytes) {
        var peers := Spawn(s, step.addr);
        assert peers.arrivals == s.arrivals && peers.now == s.now;
        ReceiptsOfSnoc(s.arrivals, Arrival(step.addr, step.bytes, s.now, peers.cache[step.addr].gen));
      }
    } else {
      OnlyReceiveChangesPeers(s, step);
    }
  }

  lemma StepKeepsTime(s: State, step: Step)
    requires Enabled(s, step)
    ensures Apply(s, step).now == s.now + if step.Tick? then step.nanos else 0
  {
    match step
    case Receive(addr, bytes) =>
    case Dequeue(g) => DequeueKeepsPeers(s, g);
    case _ =>
  }

  /** The receive task is always ready for a datagram. */
  lemma ReceiveEnabled(s: State, addr: SocketAddr, bytes: Packet)
    requires Reachable(s)
    ensures Enabled(s, Receive(addr, bytes))
  {
    ReachableInv(s);
  }

  /** After any schedule the recorded arrivals are exactly the datagrams for peers that
      the schedule brought, in order, with the times they came at. */
  lemma {:induction false} ArrivalsAreReceipts(ignoreIdle: bool, now: Instant, steps: seq<Step>)
    ensures ReceiptsOf(Run(Init(ignoreIdle, now), steps).arrivals) == Receipts(now, steps)
    ensures Run(Init(ignoreIdle, now), steps).now == Clock(now, steps)
  {
    if steps == [] {
    } else {
      var prev, step := steps[..|steps| - 1], steps[|steps| - 1];
      var s := Run(Init(ignoreIdle, now), prev);
      ArrivalsAreReceipts(ignoreIdle, now, prev);
      if step.Receive? {
        ReceiveEnabled(s, step.addr, step.bytes);
      }
      if Enabled(s, step) {
        StepRecords(s, step);
        StepKeepsTime(s, step);
      }
    }
  }

  /** The virtual LAN traffic from address a among the receipts. */
  function TrafficFrom(receipts: seq<Receipt>, a: SocketAddr): seq<Packet> {
    if receipts == [] then []
    else
      var x := receipts[|receipts| - 1];
      TrafficFrom(receipts[..|receipts| - 1], a) + if x.addr == a && IsDataDatagram(x.bytes) then [x.bytes] else []
  }

  lemma {:induction false} TrafficOfReceipts(arrivals: seq<Arrival>, m: nat, a: SocketAddr)
    requires m <= |arrivals|
    ensures TrafficOf(arrivals, m, a) == TrafficFrom(ReceiptsOf(arrivals)[..m], a)
  {
    if m == 0 {
    } else {
      TrafficOfReceipts(arrivals, m - 1, a);
      assert ReceiptsOf(arrivals)[..m][..m - 1] == ReceiptsOf(arrivals)[..m - 1];
    }
  }

  /** Order per source, told of the schedule: whatever steps are taken, the packets of an
      address taken from the event queue are, byte for byte, a subsequence of the traffic
      that the schedule brought from it. */
  lemma ScheduleOrder(ignoreIdle: bool, now: Instant, steps: seq<Step>, a: SocketAddr)
    ensures var s := Run(Init(ignoreIdle, now), steps);
            && s.started <= |s.log|
            && Subsequence(SentBy(s.log, s.started, a), TrafficFrom(Receipts(now, steps), a))
  {
    var s := Run(Init(ignoreIdle, now), steps);
    PerSourceOrder(s, a);
    ArrivalsAreReceipts(ignoreIdle, now, steps);
    TrafficOfReceipts(s.arrivals, |s.arrivals|, a);
    assert ReceiptsOf(s.arrivals)[..|s.arrivals|] == ReceiptsOf(s.arrivals);
  }
}
