/** The server as a step machine: one receive task, one task per peer with a bounded
    inbox, a bounded event queue, and an event task working on a few events at once. */
module Protocol {
  import opened Basics
  import opened Frame

  /** Nanoseconds on the monotone clock. */
  type Instant = nat

  const SECOND: nat := 1_000_000_000
  const IDLE_TIMEOUT: nat := 300 * SECOND
  const RECV_TIMEOUT: nat := 30 * SECOND
  const INBOX_CAPACITY: nat := 10
  const QUEUE_CAPACITY: nat := 100
  const MAX_IN_FLIGHT: nat := 4

  datatype SocketAddr = SocketAddr(ip: Ipv4Addr, port: u16)

  datatype PeerState = Connected(since: Instant) | Idle

  /** A datagram; the serial number is its place in the arrival history and decides nothing. */
  datatype Msg = Msg(serial: nat, bytes: Packet)

  /** The cached handle of a peer; the generation names the task its channel leads to. */
  datatype Peer = Peer(gen: nat, state: PeerState)

  /** Where a peer task is in its loop. */
  datatype Phase =
    | Waiting(since: Instant)           // in the timed receive
    | Sending(msg: Msg, out: OutAddr)   // wants room in the event queue
    | Leaving                           // out of the loop, inbox not yet dropped
    | Closing                           // inbox dropped, wants room for its Close
    | Exited(at: nat)                   // its Close is event number at

  datatype Task = Task(addr: SocketAddr, born: Instant, inbox: seq<Msg>, phase: Phase) {
    predicate Open() { phase.Waiting? || phase.Sending? || phase.Leaving? }
  }

  datatype Event =
    | Close(addr: SocketAddr, gen: nat)
    | SendLan(addr: SocketAddr, gen: nat, msg: Msg, out: OutAddr)

  datatype Stage = Started | Routed(dests: set<SocketAddr>)

  /** An event being worked on; its number is its place in the event history. */
  datatype Flight = Flight(at: nat, event: Event, stage: Stage)

  /** A datagram that reached a peer's on_packet. */
  datatype Arrival = Arrival(addr: SocketAddr, bytes: Packet, time: Instant, gen: nat)

  /** Where a datagram is, or how it ended. */
  datatype Place =
    | Refused | Inbox(gen: nat) | Held(gen: nat) | Queued | InFlight
    | Finished | Discarded | Absorbed

  /** A route learned, with the peers that were cached at that moment. */
  datatype Claim = Claim(ip: Ipv4Addr, addr: SocketAddr, peers: map<SocketAddr, Peer>)

  datatype Delivery = Delivery(msg: Msg, dests: set<SocketAddr>)

  /** The shared state, followed by four histories: events ever queued, arrivals,
      the place of every arrival, and the routes learned. */
  datatype State = State(
    ignoreIdle: bool, now: Instant,
    cache: map<SocketAddr, Peer>, table: map<Ipv4Addr, SocketAddr>,
    tasks: seq<Task>, started: nat, flight: seq<Flight>,
    log: seq<Event>, arrivals: seq<Arrival>, places: seq<Place>,
    routes: seq<Claim>, delivered: seq<Delivery>)
  {
    /** The event queue: what was sent and not yet taken. */
    function Queue(): seq<Event>
      requires started <= |log|
    {
      log[started..]
    }

    predicate QueueHasRoom() { |log| < started + QUEUE_CAPACITY }

    /** The cached peer of its address is the one this task serves. */
    predicate Current(g: nat)
      requires g < |tasks|
    {
      tasks[g].addr in cache && cache[tasks[g].addr].gen == g
    }
  }

  function Init(ignoreIdle: bool, now: Instant): State {
    State(ignoreIdle, now, map[], map[], [], 0, [], [], [], [], [], [])
  }

  datatype Step =
    | Tick(nanos: nat)
    | Receive(addr: SocketAddr, bytes: Packet)
    | Dequeue(gen: nat)
    | Enqueue(gen: nat)
    | GiveUp(gen: nat)
    | DropInbox(gen: nat)
    | SendClose(gen: nat)
    | Start
    | Remove(index: nat)
    | Route(index: nat)
    | Finish(index: nat, vetoed: bool)

  // ---- Receive task ----

  predicate IsDataDatagram(bytes: Packet) {
    Parse(bytes).Ok? && Parse(bytes).value.IsData()
  }

  /** A datagram the receive task hands to a peer: it parses and is not a ping. */
  predicate ReachesPeer(bytes: Packet) {
    Parse(bytes).Ok? && !Parse(bytes).value.Ping?
  }

  /** The state assignment of Peer::on_packet. */
  function NextPeerState(state: PeerState, data: bool, now: Instant): PeerState {
    if data then Connected(now)
    else if state.Connected? && now - state.since >= IDLE_TIMEOUT then Idle
    else state
  }

  function Spawn(s: State, addr: SocketAddr): State {
    if addr in s.cache then s
    else s.(cache := s.cache[addr := Peer(|s.tasks|, Connected(s.now))],
            tasks := s.tasks + [Task(addr, s.now, [], Waiting(s.now))])
  }

  /** try_send succeeds: the receiver is alive and the inbox has room. */
  predicate TakesMore(t: Task) { t.Open() && |t.inbox| < INBOX_CAPACITY }

  function OnPacket(s: State, addr: SocketAddr, bytes: Packet): State
    requires addr in s.cache && s.cache[addr].gen < |s.tasks|
  {
    var peer := s.cache[addr];
    var g, task, serial := peer.gen, s.tasks[peer.gen], |s.arrivals|;
    var marked := s.(
      cache := s.cache[addr := Peer(g, NextPeerState(peer.state, IsDataDatagram(bytes), s.now))],
      arrivals := s.arrivals + [Arrival(addr, bytes, s.now, g)]);
    if TakesMore(task) then
      marked.(tasks := s.tasks[g := task.(inbox := task.inbox + [Msg(serial, bytes)])],
              places := s.places + [Inbox(g)])
    else
      marked.(places := s.places + [Refused])
  }

  // ---- Peer task ----

  function SetPhase(s: State, g: nat, phase: Phase): State
    requires g < |s.tasks|
  {
    s.(tasks := s.tasks[g := s.tasks[g].(phase := phase)])
  }

  function Move(s: State, serial: nat, to: Place): State {
    if serial < |s.places| then s.(places := s.places[serial := to]) else s
  }

  /** The loop body after a successful receive: what the task does next, and where the
      datagram goes. Traffic is sent on; everything else has served its purpose. */
  function Received(msg: Msg, g: nat, now: Instant): (Phase, Place) {
    match Parse(msg.bytes)
    case Err(_) => (Leaving, Absorbed)
    case Ok(frame) => if frame.IsData() then (Sending(msg, frame.OutAddrOf()), Held(g)) else (Waiting(now), Absorbed)
  }

  function Dequeued(s: State, g: nat): State
    requires g < |s.tasks| && s.tasks[g].inbox != []
  {
    var task := s.tasks[g];
    var (phase, place) := Received(task.inbox[0], g, s.now);
    Move(s.(tasks := s.tasks[g := Task(task.addr, task.born, task.inbox[1..], phase)]), task.inbox[0].serial, place)
  }

  function Serials(msgs: seq<Msg>): set<nat> {
    set m | m in msgs :: m.serial
  }

  /** Dropping the receiver throws its inbox away. */
  function InboxDropped(s: State, g: nat): State
    requires g < |s.tasks|
  {
    var task := s.tasks[g];
    var gone := Serials(task.inbox);
    s.(tasks := s.tasks[g := task.(inbox := [], phase := Closing)],
       places := seq(|s.places|, i requires 0 <= i < |s.places| => if i in gone then Discarded else s.places[i]))
  }

  // ---- Event task ----

  function Landed(s: State, j: nat): State
    requires j < |s.flight|
  {
    s.(flight := s.flight[..j] + s.flight[j + 1..])
  }

  /** The addresses a packet goes to once its source has been learned. */
  function DestinationsIn(cache: map<SocketAddr, Peer>, table: map<Ipv4Addr, SocketAddr>, ignoreIdle: bool,
                          from: SocketAddr, out: OutAddr): set<SocketAddr> {
    var learned := table[out.srcIp := from];
    if out.dstIp in learned then {learned[out.dstIp]}
    else set a | a in cache && a != from && (!ignoreIdle || cache[a].state.Connected?)
  }

  function Destinations(s: State, from: SocketAddr, out: OutAddr): set<SocketAddr> {
    DestinationsIn(s.cache, s.table, s.ignoreIdle, from, out)
  }

  function RoutedBy(s: State, j: nat): State
    requires j < |s.flight| && s.flight[j].event.SendLan?
  {
    var f := s.flight[j];
    var from, out := f.event.addr, f.event.out;
    s.(table := s.table[out.srcIp := from],
       flight := s.flight[j := f.(stage := Routed(Destinations(s, from, out)))],
       routes := s.routes + [Claim(out.srcIp, from, s.cache)])
  }

  // ---- Steps ----

  predicate Enabled(s: State, step: Step) {
    match step
    case Tick(_) => true
    case Receive(addr, _) => addr in s.cache ==> s.cache[addr].gen < |s.tasks|
    case Dequeue(g) => g < |s.tasks| && s.tasks[g].phase.Waiting? && s.tasks[g].inbox != []
    case Enqueue(g) => g < |s.tasks| && s.tasks[g].phase.Sending? && s.QueueHasRoom()
    case GiveUp(g) =>
      && g < |s.tasks| && s.tasks[g].phase.Waiting? && s.tasks[g].inbox == []
      && (s.now >= s.tasks[g].phase.since + RECV_TIMEOUT || !s.Current(g))
    case DropInbox(g) => g < |s.tasks| && s.tasks[g].phase.Leaving?
    case SendClose(g) => g < |s.tasks| && s.tasks[g].phase.Closing? && s.QueueHasRoom()
    case Start => s.started < |s.log| && |s.flight| < MAX_IN_FLIGHT
    case Remove(j) => j < |s.flight| && s.flight[j].event.Close?
    case Route(j) => j < |s.flight| && s.flight[j].event.SendLan? && s.flight[j].stage.Started?
    case Finish(j, _) => j < |s.flight| && s.flight[j].event.SendLan? && s.flight[j].stage.Routed?
  }

  function Apply(s: State, step: Step): State
    requires Enabled(s, step)
  {
    match step
    case Tick(nanos) => s.(now := s.now + nanos)
    case Receive(addr, bytes) => if ReachesPeer(bytes) then OnPacket(Spawn(s, addr), addr, bytes) else s
    case Dequeue(g) => Dequeued(s, g)
    case Enqueue(g) =>
      var task := s.tasks[g];
      Move(SetPhase(s, g, Waiting(s.now)), task.phase.msg.serial, Queued)
        .(log := s.log + [SendLan(task.addr, g, task.phase.msg, task.phase.out)])
    case GiveUp(g) => SetPhase(s, g, Leaving)
    case DropInbox(g) => InboxDropped(s, g)
    case SendClose(g) => SetPhase(s, g, Exited(|s.log|)).(log := s.log + [Close(s.tasks[g].addr, g)])
    case Start =>
      var e := s.log[s.started];
      var taken := s.(flight := s.flight + [Flight(s.started, e, Started)], started := s.started + 1);
      if e.SendLan? then Move(taken, e.msg.serial, InFlight) else taken
    case Remove(j) => Landed(s, j).(cache := s.cache - {s.flight[j].event.addr})
    case Route(j) => RoutedBy(s, j)
    case Finish(j, vetoed) =>
      var f := s.flight[j];
      Move(Landed(s, j), f.event.msg.serial, Finished)
        .(delivered := if vetoed then s.delivered else s.delivered + [Delivery(f.event.msg, f.stage.dests)])
  }

  /** A schedule is any sequence of steps; a step that cannot happen is skipped. */
  function Run(s: State, steps: seq<Step>): State {
    if steps == [] then s
    else
      var t := Run(s, steps[..|steps| - 1]);
      var step := steps[|steps| - 1];
      if Enabled(t, step) then Apply(t, step) else t
  }
}
