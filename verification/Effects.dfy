/** What one step does to each part of the server's state, in figures. Every function here
    says of one part, for every step that may be tried, what it is afterwards; a step that
    cannot happen leaves everything as it is. */
module Effects {
  import opened Basics
  import opened Frame
  import opened Protocol
  import opened Lifecycle
  import opened Accounting
  import opened ServerRuns

  /** The state after trying one step. */
  function Next(s: State, step: Step): State {
    Run(s, [step])
  }

  lemma NextIs(s: State, step: Step)
    ensures Next(s, step) == if Enabled(s, step) then Apply(s, step) else s
  {
    assert [step][..|[step]| - 1] == [];
    assert Run(s, []) == s;
  }

  /** What the effects need of reachable states. */
  lemma ReachableShape(s: State)
    requires Reachable(s)
    ensures HandlesLead(s) && s.started <= |s.log| && |s.places| == |s.arrivals|
  {
    ReachableInv(s);
  }

  // ---- What a step does not touch ----

  /** A step of the peer task g. */
  predicate OfTask(step: Step, g: nat) {
    step == Dequeue(g) || step == Enqueue(g) || step == GiveUp(g) || step == DropInbox(g) || step == SendClose(g)
  }

  predicate OfEvents(step: Step) {
    step.Start? || step.Remove? || step.Route? || step.Finish?
  }

  lemma TaskStepsKeep(s: State, step: Step, g: nat)
    requires Enabled(s, step) && OfTask(step, g)
    ensures var t := Apply(s, step);
            && t.cache == s.cache && t.table == s.table && t.routes == s.routes && t.flight == s.flight
            && t.started == s.started && t.delivered == s.delivered && t.arrivals == s.arrivals && t.now == s.now
            && t.ignoreIdle == s.ignoreIdle && g < |s.tasks| && |t.tasks| == |s.tasks|
            && forall h :: 0 <= h < |s.tasks| && h != g ==> t.tasks[h] == s.tasks[h]
  {
  }

  lemma EventStepsKeep(s: State, step: Step)
    requires Enabled(s, step) && OfEvents(step)
    ensures var t := Apply(s, step);
            && t.tasks == s.tasks && t.log == s.log && t.arrivals == s.arrivals && t.now == s.now
            && t.ignoreIdle == s.ignoreIdle
  {
  }

  lemma ReceiveKeeps(s: State, addr: SocketAddr, bytes: Packet)
    requires Enabled(s, Receive(addr, bytes))
    ensures var t := Apply(s, Receive(addr, bytes));
            && t.log == s.log && t.started == s.started && t.flight == s.flight && t.table == s.table
            && t.routes == s.routes && t.delivered == s.delivered && t.ignoreIdle == s.ignoreIdle && t.now == s.now
  {
  }

  // ---- In figures ----

  /** The datagram goes to a peer: it is traffic or a signal. */
  predicate ForPeer(bytes: Packet) {
    CarriesTraffic(bytes) || IsSignal(bytes)
  }

  lemma ForPeerIs(bytes: Packet)
    ensures ReachesPeer(bytes) <==> ForPeer(bytes)
    ensures IsDataDatagram(bytes) <==> CarriesTraffic(bytes)
    ensures CarriesTraffic(bytes) ==> Parse(bytes).value.OutAddrOf() == AddressesIn(bytes)
  {
    ParsesIff(bytes);
  }

  predicate InboxClosed(t: Task) {
    t.phase.Closing? || t.phase.Exited?
  }

  /** The event queue holds fewer than 100 events. */
  predicate Room(s: State) {
    |s.log| - s.started < 100
  }

  predicate TakesEvent(s: State, step: Step) {
    step == Start && s.started < |s.log| && |s.flight| < 4
  }

  predicate IsPacketFlight(s: State, j: nat) {
    j < |s.flight| && s.flight[j].event.SendLan?
  }

  predicate Routes(s: State, step: Step) {
    step.Route? && IsPacketFlight(s, step.index) && s.flight[step.index].stage.Started?
  }

  predicate Finishes(s: State, step: Step) {
    step.Finish? && IsPacketFlight(s, step.index) && s.flight[step.index].stage.Routed?
  }

  predicate Removes(s: State, step: Step) {
    step.Remove? && step.index < |s.flight| && s.flight[step.index].event.Close?
  }

  // ---- Tasks ----

  /** What a task does next. It leaves its loop only after 30 seconds without a datagram. */
  function PhaseAfter(s: State, step: Step, g: nat): Phase
    requires g < |s.tasks|
  {
    var task := s.tasks[g];
    match task.phase
    case Waiting(since) =>
      if step == Dequeue(g) && task.inbox != [] then
        var head := task.inbox[0];
        if CarriesTraffic(head.bytes) then Sending(head, AddressesIn(head.bytes)) else Waiting(s.now)
      else if step == GiveUp(g) && task.inbox == [] && s.now >= since + 30_000_000_000 then Leaving
      else task.phase
    case Sending(_, _) => if step == Enqueue(g) && Room(s) then Waiting(s.now) else task.phase
    case Leaving => if step == DropInbox(g) then Closing else task.phase
    case Closing => if step == SendClose(g) && Room(s) then Exited(|s.log|) else task.phase
    case Exited(_) => task.phase
  }

  lemma DequeuePhase(s: State, g: nat)
    requires Reachable(s) && g < |s.tasks| && s.tasks[g].phase.Waiting? && s.tasks[g].inbox != []
    ensures Apply(s, Dequeue(g)).tasks[g].phase == PhaseAfter(s, Dequeue(g), g)
    ensures Received(s.tasks[g].inbox[0], g, s.now).1 ==
            if CarriesTraffic(s.tasks[g].inbox[0].bytes) then Held(g) else Absorbed
  {
    InboxParses(s, g, 0);
    ForPeerIs(s.tasks[g].inbox[0].bytes);
  }

  /** A waiting task's handle is in the cache, so only the 30 seconds can end the wait. */
  lemma WaitingIsCurrent(s: State, g: nat)
    requires Reachable(s) && g < |s.tasks| && !s.tasks[g].phase.Exited?
    ensures s.Current(g)
  {
    ReachableInv(s);
    assert Alive(s, g);
  }

  lemma PacketKeepsPhases(s: State, addr: SocketAddr, bytes: Packet, g: nat)
    requires g < |s.tasks| && (addr in s.cache ==> s.cache[addr].gen < |s.tasks|)
    ensures var t := OnPacket(Spawn(s, addr), addr, bytes);
            g < |t.tasks| && t.tasks[g].phase == s.tasks[g].phase
  {
  }

  lemma OwnPhase(s: State, step: Step, g: nat)
    requires Reachable(s) && Enabled(s, step) && OfTask(step, g)
    ensures g < |s.tasks| == |Apply(s, step).tasks| && Apply(s, step).tasks[g].phase == PhaseAfter(s, step, g)
  {
    TaskStepsKeep(s, step, g);
    if step.Dequeue? {
      DequeuePhase(s, g);
    } else if step.GiveUp? {
      WaitingIsCurrent(s, g);
    }
  }

  lemma NotEnabledPhase(s: State, step: Step, g: nat)
    requires Reachable(s) && g < |s.tasks| && (!Enabled(s, step) || !OfTask(step, g))
    ensures PhaseAfter(s, step, g) == s.tasks[g].phase
  {
  }

  lemma OthersPhase(s: State, step: Step, g: nat)
    requires Enabled(s, step) && !OfTask(step, g) && g < |s.tasks|
    ensures g < |Apply(s, step).tasks| && Apply(s, step).tasks[g].phase == s.tasks[g].phase
  {
    if step.Receive? {
      if ReachesPeer(step.bytes) { PacketKeepsPhases(s, step.addr, step.bytes, g); }
    } else if step.Tick? {
    } else if OfEvents(step) {
      EventStepsKeep(s, step);
    } else {
      TaskStepsKeep(s, step, step.gen);
    }
  }

  /** Every task, under every step. */
  lemma PhaseEffect(s: State, step: Step, g: nat)
    requires Reachable(s) && g < |s.tasks|
    ensures g < |Next(s, step).tasks|
    ensures Next(s, step).tasks[g].phase == PhaseAfter(s, step, g)
  {
    NextIs(s, step);
    if Enabled(s, step) && OfTask(step, g) {
      OwnPhase(s, step, g);
    } else {
      NotEnabledPhase(s, step, g);
      if Enabled(s, step) { OthersPhase(s, step, g); }
    }
  }

  /** A task leaves its loop by giving up only, after 30 seconds in the receive with nothing
      in its inbox; then, that step is all it takes. */
  lemma LeavesOnlyInSilence(s: State, step: Step, g: nat)
    requires Reachable(s) && g < |s.tasks| && (s.tasks[g].phase.Waiting? || s.tasks[g].phase.Sending?)
    ensures g < |Next(s, step).tasks|
    ensures Next(s, step).tasks[g].phase.Leaving? <==>
            && step == GiveUp(g) && s.tasks[g].phase.Waiting? && s.tasks[g].inbox == []
            && s.now >= s.tasks[g].phase.since + 30_000_000_000
    ensures !Next(s, step).tasks[g].phase.Closing? && !Next(s, step).tasks[g].phase.Exited?
  {
    PhaseEffect(s, step, g);
  }

  /** The datagram of this step is for the task's inbox, which takes it. */
  predicate Delivered(s: State, step: Step, g: nat)
    requires g < |s.tasks|
  {
    && step.Receive? && ForPeer(step.bytes)
    && step.addr in s.cache && s.cache[step.addr].gen == g
    && !InboxClosed(s.tasks[g]) && |s.tasks[g].inbox| < 10
  }

  function InboxAfter(s: State, step: Step, g: nat): seq<Msg>
    requires g < |s.tasks|
  {
    var task := s.tasks[g];
    if Delivered(s, step, g) then task.inbox + [Msg(|s.arrivals|, step.bytes)]
    else if step == Dequeue(g) && task.phase.Waiting? && task.inbox != [] then task.inbox[1..]
    else if step == DropInbox(g) && task.phase.Leaving? then []
    else task.inbox
  }

  lemma PacketInbox(s: State, addr: SocketAddr, bytes: Packet, g: nat)
    requires g < |s.tasks| && ReachesPeer(bytes) && (addr in s.cache ==> s.cache[addr].gen < |s.tasks|)
    ensures var t := OnPacket(Spawn(s, addr), addr, bytes);
            && g < |t.tasks| && t.tasks[g].addr == s.tasks[g].addr && t.tasks[g].born == s.tasks[g].born
            && t.tasks[g].inbox == InboxAfter(s, Receive(addr, bytes), g)
  {
    ForPeerIs(bytes);
  }

  lemma OwnInbox(s: State, step: Step, g: nat)
    requires Enabled(s, step) && OfTask(step, g)
    ensures var t := Apply(s, step);
            && g < |s.tasks| == |t.tasks| && t.tasks[g].inbox == InboxAfter(s, step, g)
            && t.tasks[g].addr == s.tasks[g].addr && t.tasks[g].born == s.tasks[g].born
  {
  }

  /** Every inbox, under every step; address and birth never change. */
  lemma InboxEffect(s: State, step: Step, g: nat)
    requires Reachable(s) && g < |s.tasks|
    ensures var t := Next(s, step);
            && g < |t.tasks| && t.tasks[g].inbox == InboxAfter(s, step, g)
            && t.tasks[g].addr == s.tasks[g].addr && t.tasks[g].born == s.tasks[g].born
  {
    NextIs(s, step);
    ReachableShape(s);
    if !Enabled(s, step) {
    } else if step.Receive? {
      ForPeerIs(step.bytes);
      if ReachesPeer(step.bytes) { PacketInbox(s, step.addr, step.bytes, g); }
    } else if step.Tick? {
    } else if OfEvents(step) {
      EventStepsKeep(s, step);
    } else if step.gen == g {
      OwnInbox(s, step, g);
    } else {
      TaskStepsKeep(s, step, step.gen);
    }
  }

  /** The datagram of this step creates its peer. */
  predicate Births(s: State, step: Step) {
    step.Receive? && ForPeer(step.bytes) && step.addr !in s.cache
  }

  lemma PacketBirth(s: State, addr: SocketAddr, bytes: Packet)
    requires addr in s.cache ==> s.cache[addr].gen < |s.tasks|
    ensures var t := OnPacket(Spawn(s, addr), addr, bytes);
            && |t.tasks| == |s.tasks| + (if addr in s.cache then 0 else 1)
            && (addr !in s.cache ==>
                  t.tasks[|s.tasks|] == Task(addr, s.now, [Msg(|s.arrivals|, bytes)], Waiting(s.now)))
  {
  }

  /** New tasks: one for a datagram from an address that is not cached, with that datagram
      in its inbox. */
  lemma BirthEffect(s: State, step: Step)
    requires Reachable(s)
    ensures var t := Next(s, step);
            && |t.tasks| == |s.tasks| + (if Births(s, step) then 1 else 0)
            && (Births(s, step) ==>
                  t.tasks[|s.tasks|] ==
                  Task(step.addr, s.now, [Msg(|s.arrivals|, step.bytes)], Waiting(s.now)))
  {
    NextIs(s, step);
    ReachableShape(s);
    if !Enabled(s, step) {
    } else if step.Receive? {
      ForPeerIs(step.bytes);
      if ReachesPeer(step.bytes) { PacketBirth(s, step.addr, step.bytes); }
    } else if step.Tick? {
    } else if OfEvents(step) {
      EventStepsKeep(s, step);
    } else {
      TaskStepsKeep(s, step, step.gen);
    }
  }

  // ---- Peers ----

  /** Traffic makes a peer connected; anything else makes it idle after 300 seconds. */
  function StateAfter(state: PeerState, bytes: Packet, now: Instant): PeerState {
    if CarriesTraffic(bytes) then Connected(now)
    else
      match state
      case Idle => Idle
      case Connected(since) => if now - since >= 300_000_000_000 then Idle else Connected(since)
  }

  function CacheAfter(s: State, step: Step): map<SocketAddr, Peer> {
    if step.Receive? && ForPeer(step.bytes) then
      s.cache[step.addr :=
        if step.addr in s.cache
        then Peer(s.cache[step.addr].gen, StateAfter(s.cache[step.addr].state, step.bytes, s.now))
        else Peer(|s.tasks|, Connected(s.now))]
    else if Removes(s, step) then
      s.cache - {s.flight[step.index].event.addr}
    else
      s.cache
  }

  lemma PacketCache(s: State, addr: SocketAddr, bytes: Packet)
    requires ReachesPeer(bytes) && (addr in s.cache ==> s.cache[addr].gen < |s.tasks|)
    ensures OnPacket(Spawn(s, addr), addr, bytes).cache == CacheAfter(s, Receive(addr, bytes))
  {
    ForPeerIs(bytes);
    assert s.cache[addr := Peer(|s.tasks|, Connected(s.now))][addr := Peer(|s.tasks|, Connected(s.now))]
        == s.cache[addr := Peer(|s.tasks|, Connected(s.now))];
  }

  lemma EventCache(s: State, step: Step)
    requires Enabled(s, step) && OfEvents(step)
    ensures Apply(s, step).cache == CacheAfter(s, step)
  {
  }

  /** Every peer, under every step. */
  lemma CacheEffect(s: State, step: Step)
    requires Reachable(s)
    ensures Next(s, step).cache == CacheAfter(s, step)
    ensures Next(s, step).ignoreIdle == s.ignoreIdle
  {
    NextIs(s, step);
    ReachableShape(s);
    if !Enabled(s, step) {
    } else if step.Receive? {
      ForPeerIs(step.bytes);
      ReceiveKeeps(s, step.addr, step.bytes);
      if ReachesPeer(step.bytes) { PacketCache(s, step.addr, step.bytes); }
    } else if step.Tick? {
    } else if OfEvents(step) {
      EventStepsKeep(s, step);
      EventCache(s, step);
    } else {
      TaskStepsKeep(s, step, step.gen);
    }
  }

  // ---- Events ----

  function LogAfter(s: State, step: Step): seq<Event> {
    match step
    case Enqueue(g) =>
      if g < |s.tasks| && s.tasks[g].phase.Sending? && Room(s)
      then s.log + [SendLan(s.tasks[g].addr, g, s.tasks[g].phase.msg, s.tasks[g].phase.out)]
      else s.log
    case SendClose(g) =>
      if g < |s.tasks| && s.tasks[g].phase.Closing? && Room(s) then s.log + [Close(s.tasks[g].addr, g)] else s.log
    case _ => s.log
  }

  lemma TaskLog(s: State, step: Step, g: nat)
    requires Enabled(s, step) && OfTask(step, g)
    ensures Apply(s, step).log == LogAfter(s, step)
  {
  }

  lemma EventStarted(s: State, step: Step)
    requires Enabled(s, step) && OfEvents(step)
    ensures Apply(s, step).started == s.started + if TakesEvent(s, step) then 1 else 0
  {
  }

  /** The queue takes events while it has room for 100, and gives them up oldest first. */
  lemma QueueEffect(s: State, step: Step)
    requires Reachable(s)
    ensures Next(s, step).log == LogAfter(s, step)
    ensures Next(s, step).started == s.started + if TakesEvent(s, step) then 1 else 0
  {
    NextIs(s, step);
    ReachableShape(s);
    if !Enabled(s, step) {
    } else if step.Receive? {
      ReceiveKeeps(s, step.addr, step.bytes);
    } else if step.Tick? {
    } else if OfEvents(step) {
      EventStepsKeep(s, step);
      EventStarted(s, step);
    } else {
      TaskStepsKeep(s, step, step.gen);
      TaskLog(s, step, step.gen);
    }
  }

  /** Where the packet of a flight goes: to whom its destination belongs once its source is
      learned, or else to all other peers, connected ones only when idle ones are ignored. */
  function Addressees(s: State, from: SocketAddr, out: OutAddr): set<SocketAddr> {
    if out.dstIp == out.srcIp then {from}
    else if out.dstIp in s.table then {s.table[out.dstIp]}
    else set a | a in s.cache && a != from && !(s.ignoreIdle && s.cache[a].state.Idle?)
  }

  function FlightAfter(s: State, step: Step): seq<Flight>
    requires s.started <= |s.log|
  {
    if TakesEvent(s, step) then s.flight + [Flight(s.started, s.log[s.started], Started)]
    else if Removes(s, step) || Finishes(s, step) then s.flight[..step.index] + s.flight[step.index + 1..]
    else if Routes(s, step) then
      var f := s.flight[step.index];
      s.flight[step.index := Flight(f.at, f.event, Routed(Addressees(s, f.event.addr, f.event.out)))]
    else s.flight
  }

  lemma AddresseesAre(s: State, from: SocketAddr, out: OutAddr)
    ensures Destinations(s, from, out) == Addressees(s, from, out)
  {
  }

  lemma EventFlight(s: State, step: Step)
    requires Enabled(s, step) && OfEvents(step) && s.started <= |s.log|
    ensures Apply(s, step).flight == FlightAfter(s, step)
  {
    if step.Route? {
      var e := s.flight[step.index].event;
      AddresseesAre(s, e.addr, e.out);
    }
  }

  /** At most four events are worked on; each is routed once and then landed. */
  lemma FlightEffect(s: State, step: Step)
    requires Reachable(s)
    ensures s.started <= |s.log| && Next(s, step).flight == FlightAfter(s, step)
  {
    NextIs(s, step);
    ReachableShape(s);
    if !Enabled(s, step) {
    } else if step.Receive? {
      ReceiveKeeps(s, step.addr, step.bytes);
    } else if step.Tick? {
    } else if OfEvents(step) {
      EventFlight(s, step);
    } else {
      TaskStepsKeep(s, step, step.gen);
    }
  }

  /** The routing table and the claims, after a step of the event task. */
  function TableAfter(s: State, step: Step): (map<Ipv4Addr, SocketAddr>, seq<Claim>) {
    if Routes(s, step) then
      var e := s.flight[step.index].event;
      (s.table[e.out.srcIp := e.addr], s.routes + [Claim(e.out.srcIp, e.addr, s.cache)])
    else
      (s.table, s.routes)
  }

  /** What has been delivered, after a step of the event task. */
  function DeliveredAfter(s: State, step: Step): seq<Delivery> {
    if Finishes(s, step) && !step.vetoed
    then s.delivered + [Delivery(s.flight[step.index].event.msg, s.flight[step.index].stage.dests)]
    else s.delivered
  }

  lemma EventTables(s: State, step: Step)
    requires Enabled(s, step) && OfEvents(step)
    ensures (Apply(s, step).table, Apply(s, step).routes) == TableAfter(s, step)
    ensures Apply(s, step).delivered == DeliveredAfter(s, step)
  {
  }

  /** Routing, and nothing else, learns the sender's address for the packet's source; and
      finishing without a veto, and nothing else, delivers: the flight's message to the
      addresses it was routed to. */
  lemma DeliveryEffect(s: State, step: Step)
    requires Reachable(s)
    ensures (Next(s, step).table, Next(s, step).routes) == TableAfter(s, step)
    ensures Next(s, step).delivered == DeliveredAfter(s, step)
  {
    NextIs(s, step);
    ReachableShape(s);
    if !Enabled(s, step) {
    } else if step.Receive? {
      ReceiveKeeps(s, step.addr, step.bytes);
    } else if step.Tick? {
    } else if OfEvents(step) {
      EventTables(s, step);
    } else {
      TaskStepsKeep(s, step, step.gen);
    }
  }

  // ---- Datagrams ----

  /** The datagrams handed to peers. */
  lemma ArrivalEffect(s: State, step: Step)
    requires Reachable(s)
    ensures Next(s, step).arrivals ==
            if step.Receive? && ForPeer(step.bytes)
            then s.arrivals + [Arrival(step.addr, step.bytes, s.now,
                                 if step.addr in s.cache then s.cache[step.addr].gen else |s.tasks|)]
            else s.arrivals
    ensures Next(s, step).now == s.now + if step.Tick? then step.nanos else 0
  {
    NextIs(s, step);
    ReachableShape(s);
    if !Enabled(s, step) {
    } else if step.Receive? {
      ForPeerIs(step.bytes);
      ReceiveKeeps(s, step.addr, step.bytes);
    } else if step.Tick? {
    } else if OfEvents(step) {
      EventStepsKeep(s, step);
    } else {
      TaskStepsKeep(s, step, step.gen);
    }
  }

  lemma PacketPlace(s: State, addr: SocketAddr, bytes: Packet)
    requires addr in s.cache ==> s.cache[addr].gen < |s.tasks|
    requires |s.places| == |s.arrivals|
    ensures var t, n := OnPacket(Spawn(s, addr), addr, bytes), |s.arrivals|;
            && |t.arrivals| == |t.places| == n + 1
            && t.places[..n] == s.places
            && addr in t.cache && t.cache[addr].gen < |t.tasks|
            && t.cache[addr].gen == (if addr in s.cache then s.cache[addr].gen else |s.tasks|)
            && var g := t.cache[addr].gen;
               if addr in s.cache && (InboxClosed(s.tasks[g]) || |s.tasks[g].inbox| >= 10) then
                 t.places[n] == Refused && t.tasks[g].inbox == s.tasks[g].inbox
               else
                 && t.places[n] == Inbox(g)
                 && t.tasks[g].inbox == (if addr in s.cache then s.tasks[g].inbox else []) + [Msg(n, bytes)]
  {
  }

  /** A datagram for a peer is refused if and only if the peer's task has closed its inbox or
      has ten messages there already; otherwise it is the last message of that inbox. */
  lemma RefusedIff(s: State, addr: SocketAddr, bytes: Packet)
    requires Reachable(s) && ForPeer(bytes)
    ensures var t, n := Next(s, Receive(addr, bytes)), |s.arrivals|;
            && |t.arrivals| == |t.places| == n + 1
            && t.places[..n] == s.places
            && addr in t.cache && t.cache[addr].gen < |t.tasks|
            && var g := t.cache[addr].gen;
               if addr in s.cache && g < |s.tasks| && (InboxClosed(s.tasks[g]) || |s.tasks[g].inbox| >= 10) then
                 t.places[n] == Refused && t.tasks[g].inbox == s.tasks[g].inbox
               else
                 && t.places[n] == Inbox(g)
                 && t.tasks[g].inbox == (if g < |s.tasks| then s.tasks[g].inbox else []) + [Msg(n, bytes)]
  {
    NextIs(s, Receive(addr, bytes));
    ReachableShape(s);
    ForPeerIs(bytes);
    PacketPlace(s, addr, bytes);
  }

  /** Where a datagram is, from step to step. */
  function PlaceAfter(s: State, step: Step, i: nat): Place
    requires i < |s.places|
  {
    match s.places[i]
    case Inbox(g) =>
      if g < |s.tasks| && step == Dequeue(g) && s.tasks[g].phase.Waiting? && s.tasks[g].inbox != []
         && s.tasks[g].inbox[0].serial == i then
        (if CarriesTraffic(s.tasks[g].inbox[0].bytes) then Held(g) else Absorbed)
      else if g < |s.tasks| && step == DropInbox(g) && s.tasks[g].phase.Leaving? then Discarded
      else Inbox(g)
    case Held(g) =>
      if g < |s.tasks| && step == Enqueue(g) && s.tasks[g].phase.Sending? && Room(s) then Queued else Held(g)
    case Queued =>
      if TakesEvent(s, step) && s.log[s.started].SendLan? && s.log[s.started].msg.serial == i then InFlight else Queued
    case InFlight =>
      if Finishes(s, step) && s.flight[step.index].event.msg.serial == i then Finished else InFlight
    case _ => s.places[i]
  }

  /** The books, one place at a time. */
  lemma PlaceIs(s: State, p: Place, i: nat)
    requires Reachable(s) && !IsEnd(p)
    ensures i in ContentsOf(s, p) <==> i < |s.places| && s.places[i] == p
  {
    ReachableInv(s);
  }

  lemma PlaceOfHead(s: State, g: nat, i: nat)
    requires Reachable(s) && Enabled(s, Dequeue(g)) && i < |s.places|
    ensures i < |Apply(s, Dequeue(g)).places| && Apply(s, Dequeue(g)).places[i] == PlaceAfter(s, Dequeue(g), i)
  {
    DequeuePhase(s, g);
    assert s.tasks[g].inbox[0].serial in ContentsOf(s, Inbox(g));
    PlaceIs(s, Inbox(g), s.tasks[g].inbox[0].serial);
  }

  lemma PlaceOfHeld(s: State, g: nat, i: nat)
    requires Reachable(s) && Enabled(s, Enqueue(g)) && i < |s.places|
    ensures i < |Apply(s, Enqueue(g)).places| && Apply(s, Enqueue(g)).places[i] == PlaceAfter(s, Enqueue(g), i)
  {
    PlaceIs(s, Held(g), s.tasks[g].phase.msg.serial);
    PlaceIs(s, Held(g), i);
  }

  lemma PlaceOfDropped(s: State, g: nat, i: nat)
    requires Reachable(s) && Enabled(s, DropInbox(g)) && i < |s.places|
    ensures i < |Apply(s, DropInbox(g)).places| && Apply(s, DropInbox(g)).places[i] == PlaceAfter(s, DropInbox(g), i)
  {
    PlaceIs(s, Inbox(g), i);
  }

  lemma PlaceOfTaken(s: State, i: nat)
    requires Reachable(s) && Enabled(s, Start) && i < |s.places|
    ensures i < |Apply(s, Start).places| && Apply(s, Start).places[i] == PlaceAfter(s, Start, i)
  {
    if s.log[s.started].SendLan? {
      assert s.log[s.started].msg.serial in ContentsOf(s, Queued);
      PlaceIs(s, Queued, s.log[s.started].msg.serial);
    }
  }

  lemma PlaceOfFinished(s: State, j: nat, vetoed: bool, i: nat)
    requires Reachable(s) && Enabled(s, Finish(j, vetoed)) && i < |s.places|
    ensures var t := Apply(s, Finish(j, vetoed));
            i < |t.places| && t.places[i] == PlaceAfter(s, Finish(j, vetoed), i)
  {
    FinishedFlight(s, j);
  }

  lemma OtherPlaces(s: State, step: Step, i: nat)
    requires Enabled(s, step) && i < |s.places|
    requires step.Tick? || step.Receive? || step.GiveUp? || step.SendClose? || step.Remove? || step.Route?
    ensures i < |Apply(s, step).places| && Apply(s, step).places[i] == s.places[i]
  {
  }

  lemma IdlePlaces(s: State, step: Step, i: nat)
    requires Reachable(s) && i < |s.places|
    requires || !Enabled(s, step)
             || step.Tick? || step.Receive? || step.GiveUp? || step.SendClose? || step.Remove? || step.Route?
    ensures PlaceAfter(s, step, i) == s.places[i]
  {
    ReachableShape(s);
  }

  /** Every datagram, under every step. */
  lemma PlaceEffect(s: State, step: Step, i: nat)
    requires Reachable(s) && i < |s.places|
    ensures i < |Next(s, step).places| && Next(s, step).places[i] == PlaceAfter(s, step, i)
  {
    NextIs(s, step);
    if !Enabled(s, step) {
      IdlePlaces(s, step, i);
    } else {
      match step
      case Dequeue(g) => PlaceOfHead(s, g, i);
      case Enqueue(g) => PlaceOfHeld(s, g, i);
      case DropInbox(g) => PlaceOfDropped(s, g, i);
      case Start => PlaceOfTaken(s, i);
      case Finish(j, vetoed) => PlaceOfFinished(s, j, vetoed, i);
      case _ =>
        IdlePlaces(s, step, i);
        OtherPlaces(s, step, i);
    }
  }

  // ---- What becomes of finished datagrams, over whole runs ----

  lemma RunNext(s: State, steps: seq<Step>, step: Step)
    ensures Run(s, steps + [step]) == Next(Run(s, steps), step)
  {
    NextIs(Run(s, steps), step);
    assert (steps + [step])[..|steps|] == steps;
  }

  ghost function DeliveredSerials(s: State): set<nat> {
    set d | d in s.delivered :: d.msg.serial
  }

  /** The datagram whose delivery this step vetoes. */
  function VetoedBy(s: State, step: Step): set<nat> {
    if Finishes(s, step) && step.vetoed then {s.flight[step.index].event.msg.serial} else {}
  }

  ghost function VetoedIn(s: State, steps: seq<Step>): set<nat> {
    if steps == [] then {}
    else
      var prev := steps[..|steps| - 1];
      VetoedIn(s, prev) + VetoedBy(Run(s, prev), steps[|steps| - 1])
  }

  /** Datagrams that finished are those delivered and those vetoed, and none is both. */
  ghost predicate FinishedOk(s: State, vetoed: set<nat>) {
    && DeliveredSerials(s) !! vetoed
    && (forall i :: i in DeliveredSerials(s) + vetoed ==> i < |s.places|)
    && (forall i :: 0 <= i < |s.places| ==>
          (s.places[i] == Finished <==> i in DeliveredSerials(s) + vetoed))
  }

  lemma FinishedFlight(s: State, j: nat)
    requires Reachable(s) && IsPacketFlight(s, j)
    ensures s.flight[j].event.msg.serial < |s.places| && s.places[s.flight[j].event.msg.serial] == InFlight
  {
    assert s.flight[j].event.msg.serial in ContentsOf(s, InFlight);
    PlaceIs(s, InFlight, s.flight[j].event.msg.serial);
  }

  lemma DeliveredSerialsStep(s: State, step: Step)
    requires Reachable(s)
    ensures DeliveredSerials(Next(s, step)) ==
            DeliveredSerials(s)
            + if Finishes(s, step) && !step.vetoed then {s.flight[step.index].event.msg.serial} else {}
  {
    DeliveryEffect(s, step);
    var t := Next(s, step);
    if Finishes(s, step) && !step.vetoed {
      assert t.delivered[|s.delivered|] in t.delivered;
      assert forall d :: d in s.delivered ==> d in t.delivered;
    }
  }

  lemma PacketNewPlace(s: State, addr: SocketAddr, bytes: Packet)
    requires Reachable(s) && ForPeer(bytes)
    ensures var t := Next(s, Receive(addr, bytes));
            |t.places| == |s.places| + 1 && t.places[|s.places|] != Finished
  {
    ReachableShape(s);
    RefusedIff(s, addr, bytes);
  }

  lemma OthersNewPlace(s: State, step: Step)
    requires Enabled(s, step) && (step.Receive? ==> !ForPeer(step.bytes))
    ensures |Apply(s, step).places| == |s.places|
  {
    if step.Receive? { ForPeerIs(step.bytes); }
  }

  lemma NewPlace(s: State, step: Step)
    requires Reachable(s)
    ensures |s.places| <= |Next(s, step).places|
    ensures forall i :: |s.places| <= i < |Next(s, step).places| ==> Next(s, step).places[i] != Finished
  {
    if step.Receive? && ForPeer(step.bytes) {
      PacketNewPlace(s, step.addr, step.bytes);
    } else {
      NextIs(s, step);
      if Enabled(s, step) { OthersNewPlace(s, step); }
    }
  }

  /** The serial of the datagram that this step finishes. */
  function FinishedBy(s: State, step: Step): set<nat> {
    if Finishes(s, step) then {s.flight[step.index].event.msg.serial} else {}
  }

  lemma FinishesPlace(s: State, step: Step, i: nat)
    requires Reachable(s) && i < |s.places|
    ensures i < |Next(s, step).places|
    ensures Next(s, step).places[i] == Finished <==> s.places[i] == Finished || i in FinishedBy(s, step)
  {
    PlaceEffect(s, step, i);
    if Finishes(s, step) { FinishedFlight(s, step.index); }
  }

  lemma FinishedStep(s: State, step: Step, vetoed: set<nat>)
    requires Reachable(s) && FinishedOk(s, vetoed)
    ensures FinishedOk(Next(s, step), vetoed + VetoedBy(s, step))
  {
    var t := Next(s, step);
    DeliveredSerialsStep(s, step);
    NewPlace(s, step);
    var was, ended := DeliveredSerials(s) + vetoed, FinishedBy(s, step);
    assert DeliveredSerials(t) + (vetoed + VetoedBy(s, step)) == was + ended;
    if Finishes(s, step) { FinishedFlight(s, step.index); }
    forall i | 0 <= i < |t.places| ensures t.places[i] == Finished <==> i in was + ended {
      if i < |s.places| { FinishesPlace(s, step, i); }
    }
  }

  /** Over every run the finished datagrams are those delivered and those whose delivery was
      vetoed, and none is both. */
  lemma {:induction false} FinishedAre(ignoreIdle: bool, now: Instant, steps: seq<Step>)
    ensures FinishedOk(Run(Init(ignoreIdle, now), steps), VetoedIn(Init(ignoreIdle, now), steps))
  {
    if steps == [] {
    } else {
      var prev, step := steps[..|steps| - 1], steps[|steps| - 1];
      FinishedAre(ignoreIdle, now, prev);
      FinishedStep(Run(Init(ignoreIdle, now), prev), step, VetoedIn(Init(ignoreIdle, now), prev));
      RunNext(Init(ignoreIdle, now), prev, step);
      assert steps == prev + [step];
    }
  }

  lemma {:induction false} NoneVetoed(s: State, steps: seq<Step>)
    requires forall step :: step in steps && step.Finish? ==> !step.vetoed
    ensures VetoedIn(s, steps) == {}
  {
    if steps == [] {
    } else {
      assert steps[|steps| - 1] in steps;
      NoneVetoed(s, steps[..|steps| - 1]);
    }
  }

  /** Without vetoes the datagrams delivered are exactly those that finished. */
  lemma FinishedAreDelivered(ignoreIdle: bool, now: Instant, steps: seq<Step>)
    requires forall step :: step in steps && step.Finish? ==> !step.vetoed
    ensures var s := Run(Init(ignoreIdle, now), steps);
            && (forall d :: d in s.delivered ==> d.msg.serial < |s.places|)
            && (forall i: nat :: i < |s.places| ==>
                  (s.places[i] == Finished <==> exists d :: d in s.delivered && d.msg.serial == i))
  {
    FinishedAre(ignoreIdle, now, steps);
    NoneVetoed(Init(ignoreIdle, now), steps);
    AllDelivered(Run(Init(ignoreIdle, now), steps));
  }

  lemma AllDelivered(s: State)
    requires FinishedOk(s, {})
    ensures forall d :: d in s.delivered ==> d.msg.serial < |s.places|
    ensures forall i: nat :: i < |s.places| ==>
              (s.places[i] == Finished <==> exists d :: d in s.delivered && d.msg.serial == i)
  {
    forall d | d in s.delivered ensures d.msg.serial < |s.places| {
      assert d.msg.serial in DeliveredSerials(s) + {};
    }
    forall i: nat | i < |s.places|
      ensures s.places[i] == Finished <==> exists d :: d in s.delivered && d.msg.serial == i
    {
      assert i in DeliveredSerials(s) + {} <==> exists d :: d in s.delivered && d.msg.serial == i;
    }
  }

  /** A server starts with nothing. */
  lemma StartsEmpty(ignoreIdle: bool, now: Instant)
    ensures var s := Run(Init(ignoreIdle, now), []);
            && s.ignoreIdle == ignoreIdle && s.now == now && s.cache == map[] && s.table == map[]
            && s.tasks == [] && s.log == [] && s.started == 0 && s.flight == [] && s.delivered == []
            && s.arrivals == [] && s.places == [] && s.routes == []
  {
  }
}
