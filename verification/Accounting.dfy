/** Every datagram handed to a peer is in exactly one place, or has met exactly one end. */
module Accounting {
  import opened Basics
  import opened Protocol
  import opened Lifecycle
  import opened Ordering

  function HeldBy(t: Task): set<nat> {
    if t.phase.Sending? then {t.phase.msg.serial} else {}
  }

  ghost function QueuedFrom(log: seq<Event>, from: nat): set<nat> {
    set p | from <= p < |log| && log[p].SendLan? :: log[p].msg.serial
  }

  ghost function Airborne(flight: seq<Flight>): set<nat> {
    set j | 0 <= j < |flight| && flight[j].event.SendLan? :: flight[j].event.msg.serial
  }

  /** The datagrams that really are in a place, by serial number. The four ends hold
      nothing any more: what met them is only remembered. */
  ghost function ContentsOf(s: State, p: Place): set<nat> {
    match p
    case Inbox(g) => if g < |s.tasks| then Serials(s.tasks[g].inbox) else {}
    case Held(g) => if g < |s.tasks| then HeldBy(s.tasks[g]) else {}
    case Queued => QueuedFrom(s.log, s.started)
    case InFlight => Airborne(s.flight)
    case _ => {}
  }

  predicate IsEnd(p: Place) { p.Refused? || p.Finished? || p.Discarded? || p.Absorbed? }

  ghost predicate PlacesOk(s: State) {
    && |s.places| == |s.arrivals|
    && (forall i, p :: 0 <= i < |s.places| && !IsEnd(p) ==> (i in ContentsOf(s, p) <==> s.places[i] == p))
    && (forall i, p :: i in ContentsOf(s, p) ==> i < |s.places|)
  }

  /** What has ended stays ended in the same way. */
  ghost predicate EndsStay(s: State, t: State) {
    && |s.places| <= |t.places|
    && forall i :: 0 <= i < |s.places| && IsEnd(s.places[i]) ==> t.places[i] == s.places[i]
  }

  /** Datagram i goes from one place to another. */
  ghost predicate Moves(s: State, t: State, i: nat, from: Place, to: Place) {
    && i < |s.places| && s.places[i] == from != to
    && t.places == s.places[i := to] && |t.arrivals| == |s.arrivals|
    && forall p :: ContentsOf(t, p) ==
         if p == from then ContentsOf(s, p) - {i}
         else if p == to && !IsEnd(p) then ContentsOf(s, p) + {i}
         else ContentsOf(s, p)
  }

  lemma PlacesAfterMove(s: State, t: State, i: nat, from: Place, to: Place)
    requires PlacesOk(s) && Moves(s, t, i, from, to) && !IsEnd(from)
    ensures PlacesOk(t) && EndsStay(s, t)
  {
    forall k, p | 0 <= k < |t.places| && !IsEnd(p) ensures k in ContentsOf(t, p) <==> t.places[k] == p {
      assert k in ContentsOf(s, p) <==> s.places[k] == p;
    }
    forall k, p | k in ContentsOf(t, p) ensures k < |t.places| {
      if k != i { assert k in ContentsOf(s, p); }
    }
  }

  /** A new datagram takes its place. */
  ghost predicate Joins(s: State, t: State, to: Place) {
    && t.places == s.places + [to] && |t.arrivals| == |s.arrivals| + 1
    && forall p :: ContentsOf(t, p) ==
         if p == to && !IsEnd(p) then ContentsOf(s, p) + {|s.places|}
         else ContentsOf(s, p)
  }

  lemma PlacesAfterJoin(s: State, t: State, to: Place)
    requires PlacesOk(s) && Joins(s, t, to)
    ensures PlacesOk(t) && EndsStay(s, t)
  {
    forall k, p | 0 <= k < |t.places| && !IsEnd(p) ensures k in ContentsOf(t, p) <==> t.places[k] == p {
      if k < |s.places| { assert k in ContentsOf(s, p) <==> s.places[k] == p; }
      if k in ContentsOf(s, p) { assert k < |s.places|; }
    }
    forall k, p | k in ContentsOf(t, p) ensures k < |t.places| {
      if k != |s.places| { assert k in ContentsOf(s, p); }
    }
  }

  /** No datagram changes place. */
  lemma PlacesFrame(s: State, t: State)
    requires PlacesOk(s) && t.places == s.places && |t.arrivals| == |s.arrivals|
    requires forall p :: ContentsOf(t, p) == ContentsOf(s, p)
    ensures PlacesOk(t) && EndsStay(s, t)
  {
    assert forall i, p :: i in ContentsOf(t, p) ==> i in ContentsOf(s, p);
  }

  lemma SerialsOfHead(msgs: seq<Msg>)
    requires msgs != [] && forall k, l :: 0 <= k < l < |msgs| ==> msgs[k].serial < msgs[l].serial
    ensures Serials(msgs[1..]) == Serials(msgs) - {msgs[0].serial}
  {
    var rest := msgs[1..];
    assert forall k :: 0 <= k < |rest| ==> rest[k] == msgs[k + 1];
    assert forall k :: 0 < k < |msgs| ==> msgs[k] == rest[k - 1];
  }

  lemma SerialsOfPush(msgs: seq<Msg>, m: Msg)
    ensures Serials(msgs + [m]) == Serials(msgs) + {m.serial}
  {
    var all := msgs + [m];
    assert forall k :: 0 <= k < |msgs| ==> all[k] == msgs[k];
    assert all[|msgs|] == m;
  }

  /** Two queued packets are never the same datagram. */
  lemma LogDistinct(s: State, p: nat, q: nat)
    requires EventsOk(s) && p < |s.log| && q < |s.log| && p != q
    requires s.log[p].SendLan? && s.log[q].SendLan?
    ensures s.log[p].msg.serial != s.log[q].msg.serial
  {
    assert EventOk(s, s.log[p]) && EventOk(s, s.log[q]);
    assert if p < q then InOrder(s.log[p], s.log[q]) else InOrder(s.log[q], s.log[p]);
  }

  lemma PlacesAfterSpawn(s: State, addr: SocketAddr)
    requires PlacesOk(s)
    ensures PlacesOk(Spawn(s, addr)) && EndsStay(s, Spawn(s, addr))
  {
    var t := Spawn(s, addr);
    assert forall g :: 0 <= g < |s.tasks| ==> t.tasks[g] == s.tasks[g];
    forall p ensures ContentsOf(t, p) == ContentsOf(s, p) {
    }
    PlacesFrame(s, t);
  }

  lemma PlacesAfterPacket(s: State, addr: SocketAddr, bytes: Packet)
    requires PlacesOk(s) && addr in s.cache && s.cache[addr].gen < |s.tasks|
    ensures PlacesOk(OnPacket(s, addr, bytes)) && EndsStay(s, OnPacket(s, addr, bytes))
  {
    var t, g := OnPacket(s, addr, bytes), s.cache[addr].gen;
    SerialsOfPush(s.tasks[g].inbox, Msg(|s.arrivals|, bytes));
    PlacesAfterJoin(s, t, if TakesMore(s.tasks[g]) then Inbox(g) else Refused);
  }

  lemma ContentsAfterHead(s: State, t: State, g: nat, p: Place)
    requires OrderOk(s) && TakesHead(s, t, g) && !s.tasks[g].phase.Sending?
    requires t.flight == s.flight && t.started == s.started
    ensures ContentsOf(t, p) ==
            if p == Inbox(g) then ContentsOf(s, p) - {s.tasks[g].inbox[0].serial}
            else if p == Held(g) then ContentsOf(s, p) + HeldBy(t.tasks[g])
            else ContentsOf(s, p)
  {
    assert TaskOk(s, g);
    SerialsOfHead(s.tasks[g].inbox);
  }

  lemma PlacesAfterDequeue(s: State, g: nat)
    requires PlacesOk(s) && OrderOk(s) && Enabled(s, Dequeue(g))
    ensures PlacesOk(Apply(s, Dequeue(g))) && EndsStay(s, Apply(s, Dequeue(g)))
  {
    var t, i := Apply(s, Dequeue(g)), s.tasks[g].inbox[0].serial;
    DequeueTakesHead(s, g);
    assert i in ContentsOf(s, Inbox(g));
    var to := if t.tasks[g].phase.Sending? then Held(g) else Absorbed;
    assert t.places == s.places[i := to];
    forall p
      ensures ContentsOf(t, p) ==
              if p == Inbox(g) then ContentsOf(s, p) - {i}
              else if p == Held(g) then ContentsOf(s, p) + HeldBy(t.tasks[g])
              else ContentsOf(s, p)
    {
      ContentsAfterHead(s, t, g, p);
    }
    PlacesAfterMove(s, t, i, Inbox(g), to);
  }

  lemma PlacesAfterEnqueue(s: State, g: nat)
    requires PlacesOk(s) && LogOk(s) && Enabled(s, Enqueue(g))
    ensures PlacesOk(Apply(s, Enqueue(g))) && EndsStay(s, Apply(s, Enqueue(g)))
  {
    var t, m := Apply(s, Enqueue(g)), s.tasks[g].phase.msg;
    assert m.serial in ContentsOf(s, Held(g));
    assert t.log[|s.log|].msg == m;
    assert forall p :: 0 <= p < |s.log| ==> t.log[p] == s.log[p];
    assert ContentsOf(t, Queued) == ContentsOf(s, Queued) + {m.serial};
    PlacesAfterMove(s, t, m.serial, Held(g), Queued);
  }

  lemma PlacesAfterSendClose(s: State, g: nat)
    requires PlacesOk(s) && LogOk(s) && Enabled(s, SendClose(g))
    ensures PlacesOk(Apply(s, SendClose(g))) && EndsStay(s, Apply(s, SendClose(g)))
  {
    var t := Apply(s, SendClose(g));
    assert forall p :: 0 <= p < |s.log| ==> t.log[p] == s.log[p];
    assert ContentsOf(t, Queued) == ContentsOf(s, Queued);
    PlacesFrame(s, t);
  }

  lemma PlacesAfterDrop(s: State, g: nat)
    requires PlacesOk(s) && Enabled(s, DropInbox(g))
    ensures PlacesOk(Apply(s, DropInbox(g))) && EndsStay(s, Apply(s, DropInbox(g)))
  {
    var t := Apply(s, DropInbox(g));
    assert ContentsOf(t, Inbox(g)) == {} && Serials(s.tasks[g].inbox) == ContentsOf(s, Inbox(g));
    forall p | p != Inbox(g) ensures ContentsOf(t, p) == ContentsOf(s, p) {
    }
    forall k, p | 0 <= k < |t.places| && !IsEnd(p) ensures k in ContentsOf(t, p) <==> t.places[k] == p {
      assert k in ContentsOf(s, p) <==> s.places[k] == p;
      assert k in ContentsOf(s, Inbox(g)) <==> s.places[k] == Inbox(g);
    }
    assert forall k, p :: k in ContentsOf(t, p) ==> k in ContentsOf(s, p);
  }

  lemma AirborneOfParts(a: seq<Flight>, b: seq<Flight>)
    ensures Airborne(a + b) == Airborne(a) + Airborne(b)
  {
    var c := a + b;
    forall i | i in Airborne(a) ensures i in Airborne(c) {
      var j :| 0 <= j < |a| && a[j].event.SendLan? && a[j].event.msg.serial == i;
      assert c[j] == a[j];
    }
    forall i | i in Airborne(b) ensures i in Airborne(c) {
      var j :| 0 <= j < |b| && b[j].event.SendLan? && b[j].event.msg.serial == i;
      assert c[|a| + j] == b[j];
    }
  }

  lemma QueuedAfterTake(s: State)
    requires EventsOk(s) && s.started < |s.log|
    ensures QueuedFrom(s.log, s.started + 1) ==
            if s.log[s.started].SendLan? then QueuedFrom(s.log, s.started) - {s.log[s.started].msg.serial}
            else QueuedFrom(s.log, s.started)
  {
    forall p | s.started < p < |s.log| && s.log[p].SendLan? && s.log[s.started].SendLan?
      ensures s.log[p].msg.serial != s.log[s.started].msg.serial
    {
      LogDistinct(s, s.started, p);
    }
  }

  lemma AirborneAfterStart(s: State)
    requires Enabled(s, Start)
    ensures var t, e := Apply(s, Start), s.log[s.started];
            && t.started == s.started + 1 && t.log == s.log && t.tasks == s.tasks
            && Airborne(t.flight) == Airborne(s.flight) + if e.SendLan? then {e.msg.serial} else {}
  {
    var t, f := Apply(s, Start), [Flight(s.started, s.log[s.started], Started)];
    assert t.flight == s.flight + f;
    AirborneOfParts(s.flight, f);
    if f[0].event.SendLan? {
      assert f[0].event.msg.serial in Airborne(f);
    }
  }

  lemma PlacesAfterStart(s: State)
    requires PlacesOk(s) && EventsOk(s) && LogOk(s) && Enabled(s, Start)
    ensures PlacesOk(Apply(s, Start)) && EndsStay(s, Apply(s, Start))
  {
    var t, e := Apply(s, Start), s.log[s.started];
    AirborneAfterStart(s);
    QueuedAfterTake(s);
    if e.SendLan? {
      assert e.msg.serial in ContentsOf(s, Queued);
      PlacesAfterMove(s, t, e.msg.serial, Queued, InFlight);
    } else {
      PlacesFrame(s, t);
    }
  }

  lemma LandingIsAlone(s: State, j: nat, i: nat)
    requires FlightOk(s) && EventsOk(s) && j < |s.flight| && i < |s.flight| && i != j
    requires s.flight[j].event.SendLan? && s.flight[i].event.SendLan?
    ensures s.flight[i].event.msg.serial != s.flight[j].event.msg.serial
  {
    FlightsDiffer(s, i, j);
    LogDistinct(s, s.flight[i].at, s.flight[j].at);
  }

  lemma AirborneSplit(flight: seq<Flight>, j: nat)
    requires j < |flight|
    ensures Airborne(flight) == Airborne(flight[..j] + flight[j + 1..]) + Airborne([flight[j]])
  {
    var a, f, b := flight[..j], [flight[j]], flight[j + 1..];
    AirborneOfParts(a, b);
    AirborneOfParts(f, b);
    AirborneOfParts(a, f + b);
    assert flight == a + (f + b);
  }

  lemma LandedSerialIsGone(s: State, j: nat)
    requires FlightOk(s) && EventsOk(s) && j < |s.flight| && s.flight[j].event.SendLan?
    ensures s.flight[j].event.msg.serial !in Airborne(Landed(s, j).flight)
  {
    var t, serial := Landed(s, j), s.flight[j].event.msg.serial;
    forall k | 0 <= k < |t.flight| && t.flight[k].event.SendLan? ensures t.flight[k].event.msg.serial != serial {
      LandingIsAlone(s, j, if k < j then k else k + 1);
    }
  }

  lemma AirborneAfterLanding(s: State, j: nat)
    requires FlightOk(s) && EventsOk(s) && j < |s.flight|
    ensures Airborne(Landed(s, j).flight) ==
            if s.flight[j].event.SendLan? then Airborne(s.flight) - {s.flight[j].event.msg.serial}
            else Airborne(s.flight)
  {
    var f := [s.flight[j]];
    AirborneSplit(s.flight, j);
    if s.flight[j].event.SendLan? {
      LandedSerialIsGone(s, j);
      assert f[0].event.msg.serial in Airborne(f);
    }
  }

  lemma PlacesAfterRemove(s: State, j: nat)
    requires PlacesOk(s) && FlightOk(s) && EventsOk(s) && Enabled(s, Remove(j))
    ensures PlacesOk(Apply(s, Remove(j))) && EndsStay(s, Apply(s, Remove(j)))
  {
    var t := Apply(s, Remove(j));
    AirborneAfterLanding(s, j);
    assert ContentsOf(t, InFlight) == ContentsOf(s, InFlight);
    PlacesFrame(s, t);
  }

  lemma PlacesAfterRoute(s: State, j: nat)
    requires PlacesOk(s) && Enabled(s, Route(j))
    ensures PlacesOk(Apply(s, Route(j))) && EndsStay(s, Apply(s, Route(j)))
  {
    var t := Apply(s, Route(j));
    assert forall i :: 0 <= i < |s.flight| ==> t.flight[i].event == s.flight[i].event;
    assert ContentsOf(t, InFlight) == ContentsOf(s, InFlight);
    PlacesFrame(s, t);
  }

  lemma PlacesAfterFinish(s: State, j: nat, vetoed: bool)
    requires PlacesOk(s) && FlightOk(s) && EventsOk(s) && Enabled(s, Finish(j, vetoed))
    ensures PlacesOk(Apply(s, Finish(j, vetoed))) && EndsStay(s, Apply(s, Finish(j, vetoed)))
  {
    var t, i := Apply(s, Finish(j, vetoed)), s.flight[j].event.msg.serial;
    AirborneAfterLanding(s, j);
    assert i in ContentsOf(s, InFlight);
    PlacesAfterMove(s, t, i, InFlight, Finished);
  }

  /** Every step keeps the books. */
  lemma PlacesKept(s: State, step: Step)
    requires LifeOk(s) && OrderOk(s) && PlacesOk(s) && Enabled(s, step)
    ensures PlacesOk(Apply(s, step)) && EndsStay(s, Apply(s, step))
  {
    match step
    case Receive(addr, bytes) =>
      if ReachesPeer(bytes) {
        PlacesAfterSpawn(s, addr);
        PlacesAfterPacket(Spawn(s, addr), addr, bytes);
      }
    case Dequeue(g) => PlacesAfterDequeue(s, g);
    case Enqueue(g) => PlacesAfterEnqueue(s, g);
    case DropInbox(g) => PlacesAfterDrop(s, g);
    case SendClose(g) => PlacesAfterSendClose(s, g);
    case Start => PlacesAfterStart(s);
    case Remove(j) => PlacesAfterRemove(s, j);
    case Route(j) => PlacesAfterRoute(s, j);
    case Finish(j, vetoed) => PlacesAfterFinish(s, j, vetoed);
    case _ => PlacesFrame(s, Apply(s, step));
  }

  // ---- Which datagrams meet which end ----

  /** Only what is no traffic is absorbed, and only traffic is finished. */
  ghost predicate KindsOk(s: State) {
    && |s.places| == |s.arrivals|
    && forall i :: 0 <= i < |s.places| ==>
         && (s.places[i] == Absorbed ==> !IsDataDatagram(s.arrivals[i].bytes))
         && (s.places[i] == Finished ==> IsDataDatagram(s.arrivals[i].bytes))
  }

  /** No datagram is newly absorbed or finished. */
  ghost predicate NoNewEnd(s: State, t: State) {
    && s.arrivals <= t.arrivals && |t.places| == |t.arrivals|
    && forall i :: 0 <= i < |t.places| && (t.places[i] == Absorbed || t.places[i] == Finished) ==>
         i < |s.places| && s.places[i] == t.places[i]
  }

  lemma ReceiveEndsNothing(s: State, addr: SocketAddr, bytes: Packet)
    requires Enabled(s, Receive(addr, bytes)) && |s.places| == |s.arrivals|
    ensures NoNewEnd(s, Apply(s, Receive(addr, bytes)))
  {
  }

  lemma DropEndsOtherwise(s: State, g: nat)
    requires Enabled(s, DropInbox(g)) && |s.places| == |s.arrivals|
    ensures NoNewEnd(s, Apply(s, DropInbox(g)))
  {
  }

  lemma StartEndsNothing(s: State)
    requires Enabled(s, Start) && |s.places| == |s.arrivals|
    ensures NoNewEnd(s, Apply(s, Start))
  {
  }

  lemma OnlyTwoStepsEnd(s: State, step: Step)
    requires Enabled(s, step) && !step.Dequeue? && !step.Finish? && |s.places| == |s.arrivals|
    ensures NoNewEnd(s, Apply(s, step))
  {
    match step
    case Tick(_) =>
    case Receive(addr, bytes) => ReceiveEndsNothing(s, addr, bytes);
    case Enqueue(_) =>
    case GiveUp(_) =>
    case DropInbox(g) => DropEndsOtherwise(s, g);
    case SendClose(_) =>
    case Start => StartEndsNothing(s);
    case Remove(_) =>
    case Route(_) =>
  }

  /** Every step keeps the kinds apart. */
  lemma KindsKept(s: State, step: Step)
    requires KindsOk(s) && FlightOk(s) && OrderOk(s) && Enabled(s, step)
    ensures KindsOk(Apply(s, step))
  {
    var t := Apply(s, step);
    if step.Dequeue? {
      assert TaskOk(s, step.gen);
      var m := s.tasks[step.gen].inbox[0];
      assert t.places == s.places[m.serial := Received(m, step.gen, s.now).1] && t.arrivals == s.arrivals;
    } else if step.Finish? {
      var f := s.flight[step.index];
      assert EventOk(s, s.log[f.at]);
      assert t.places == s.places[f.event.msg.serial := Finished] && t.arrivals == s.arrivals;
    } else {
      OnlyTwoStepsEnd(s, step);
    }
  }
}
