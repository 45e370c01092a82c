/** The server's objects: the peer manager with its two maps, and the tasks and channels
    around it. Every method is one atomic step. */
module Server {
  import opened Basics
  import opened Frame
  import opened Protocol
  import opened ServerRuns

  /** How many peers are cached, and how many of them are idle. */
  datatype PeerManagerInfo = PeerManagerInfo(online: int, idle: int)

  class PeerManager {
    var cache: map<SocketAddr, Peer>
    var table: map<Ipv4Addr, SocketAddr>
    const ignoreIdle: bool

    constructor (ignoreIdle: bool)
      ensures cache == map[] && table == map[] && this.ignoreIdle == ignoreIdle
    {
      this.ignoreIdle, cache, table := ignoreIdle, map[], map[];
    }

    method Remove(addr: SocketAddr)
      modifies this`cache
      ensures cache == old(cache) - {addr}
    {
      cache := cache - {addr};
    }

    /** Learns the route back to the sender, then finds the addressees, in any order. */
    method GetDestSockaddr(from: SocketAddr, out: OutAddr) returns (addrs: seq<SocketAddr>)
      modifies this`table
      ensures table == old(table)[out.srcIp := from]
      ensures Distinct(addrs)
      ensures forall a :: a in addrs <==> a in DestinationsIn(cache, old(table), ignoreIdle, from, out)
    {
      table := table[out.srcIp := from];
      if out.dstIp in table {
        return [table[out.dstIp]];
      }
      addrs := [];
      var rest := cache.Keys;
      while rest != {}
        invariant rest <= cache.Keys && Distinct(addrs)
        invariant forall a :: a in addrs <==>
          a in cache && a !in rest && a != from && (!ignoreIdle || cache[a].state.Connected?)
        decreases rest
      {
        var a :| a in rest;
        rest := rest - {a};
        if (!ignoreIdle || cache[a].state.Connected?) && a != from {
          addrs := addrs + [a];
        }
      }
    }

    method ServerInfo() returns (info: PeerManagerInfo)
      ensures info.online == AsI32(|cache|)
      ensures info.idle == AsI32(|set a | a in cache && cache[a].state.Idle?|)
      ensures |cache| < 0x8000_0000 ==> 0 <= info.idle <= info.online == |cache|
    {
      var rest, idle := cache.Keys, 0;
      while rest != {}
        invariant rest <= cache.Keys && idle == |IdleAmong(cache, cache.Keys - rest)|
        decreases rest
      {
        var a :| a in rest;
        IdleAfter(cache, cache.Keys - rest, a);
        assert cache.Keys - (rest - {a}) == cache.Keys - rest + {a};
        rest := rest - {a};
        if cache[a].state.Idle? {
          idle := idle + 1;
        }
      }
      assert cache.Keys - rest == cache.Keys;
      assert IdleAmong(cache, cache.Keys) == set a | a in cache && cache[a].state.Idle?;
      SubsetSize(IdleAmong(cache, cache.Keys), cache.Keys);
      info := PeerManagerInfo(AsI32(|cache|), AsI32(idle));
    }
  }

  /** The idle peers among the given addresses. */
  function IdleAmong(cache: map<SocketAddr, Peer>, among: set<SocketAddr>): set<SocketAddr> {
    set a | a in among && a in cache && cache[a].state.Idle?
  }

  lemma IdleAfter(cache: map<SocketAddr, Peer>, counted: set<SocketAddr>, a: SocketAddr)
    requires a in cache && a !in counted
    ensures |IdleAmong(cache, counted + {a})| == |IdleAmong(cache, counted)| + if cache[a].state.Idle? then 1 else 0
  {
    assert IdleAmong(cache, counted + {a}) == IdleAmong(cache, counted) + if cache[a].state.Idle? then {a} else {};
  }

  class UDPServer {
    const peers: PeerManager
    var now: Instant
    var tasks: seq<Task>
    var queue: seq<Event>
    var flight: seq<Flight>
    var received: nat    // numbers arrivals; only names messages
    var taken: nat       // numbers events; only names flights
    ghost var log: seq<Event>
    ghost var arrivals: seq<Arrival>
    ghost var places: seq<Place>
    ghost var routes: seq<Claim>
    ghost var delivered: seq<Delivery>

    ghost function View(): State
      reads this, peers
    {
      State(peers.ignoreIdle, now, peers.cache, peers.table, tasks, taken, flight,
            log, arrivals, places, routes, delivered)
    }

    ghost predicate Valid()
      reads this, peers
    {
      && Reachable(View())
      && HandlesLead(View())
      && taken <= |log| && queue == log[taken..]
      && received == |arrivals|
    }

    constructor (ignoreIdle: bool, now: Instant)
      ensures Valid() && fresh(peers)
      ensures View() == Init(ignoreIdle, now)
    {
      peers := new PeerManager(ignoreIdle);
      this.now, tasks, queue, flight, received, taken := now, [], [], [], 0, 0;
      log, arrivals, places, routes, delivered := [], [], [], [], [];
      ReachableInit(ignoreIdle, now);
    }

    method Tick(nanos: nat)
      requires Valid()
      modifies this
      ensures Valid() && View() == Apply(old(View()), Step.Tick(nanos))
    {
      ghost var goal := Apply(View(), Step.Tick(nanos));
      ReachableStep(View(), Step.Tick(nanos));
      now := now + nanos;
      assert View() == goal;
    }

    /** One turn of the receive loop after its plugins: a ping is sent back as it came,
        anything else that parses goes to the peer. */
    method Receive(addr: SocketAddr, bytes: Packet) returns (echo: Option<Packet>)
      requires Valid()
      modifies this, peers
      ensures Valid() && View() == Apply(old(View()), Step.Receive(addr, bytes))
      ensures echo == if Parse(bytes).Ok? && Parse(bytes).value.Ping? then Some(bytes) else None
    {
      ghost var goal := Apply(View(), Step.Receive(addr, bytes));
      ReachableStep(View(), Step.Receive(addr, bytes));
      var frame := Parse(bytes);
      if frame.Err? {
        return None;
      }
      if frame.value.Ping? {
        PingEchoes(bytes, frame.value.echo);
        return Some(PingReply(frame.value.echo));
      }
      echo := None;
      PeerMut(addr);
      OnPacket(addr, bytes);
      assert View() == goal;
    }

    /** Finds the peer or creates it with its task. */
    method PeerMut(addr: SocketAddr)
      modifies this`tasks, peers`cache
      ensures View() == Spawn(old(View()), addr)
    {
      if addr !in peers.cache {
        peers.cache := peers.cache[addr := Peer(|tasks|, Connected(now))];
        tasks := tasks + [Task(addr, now, [], Waiting(now))];
      }
    }

    /** Peer::on_packet: sets the state, then tries to pass the datagram on. */
    method OnPacket(addr: SocketAddr, bytes: Packet)
      requires addr in peers.cache && peers.cache[addr].gen < |tasks| && received == |arrivals|
      modifies this`tasks, this`received, this`arrivals, this`places, peers`cache
      ensures View() == Protocol.OnPacket(old(View()), addr, bytes)
      ensures received == |arrivals|
    {
      var peer := peers.cache[addr];
      var data := IsDataDatagram(bytes);
      if data {
        peers.cache := peers.cache[addr := Peer(peer.gen, Connected(now))];
      } else {
        match peer.state {
          case Connected(last) =>
            if now - last >= IDLE_TIMEOUT {
              peers.cache := peers.cache[addr := Peer(peer.gen, Idle)];
            }
          case Idle =>
        }
      }
      assert peers.cache == old(peers.cache)[addr := Peer(peer.gen, NextPeerState(peer.state, data, now))];
      var task := tasks[peer.gen];
      arrivals := arrivals + [Arrival(addr, bytes, now, peer.gen)];
      if task.Open() && |task.inbox| < INBOX_CAPACITY {
        tasks := tasks[peer.gen := task.(inbox := task.inbox + [Msg(received, bytes)])];
        places := places + [Inbox(peer.gen)];
      } else {
        places := places + [Refused];
      }
      received := received + 1;
    }

    /** A peer task's receive returns a datagram. */
    method Dequeue(g: nat)
      requires Valid() && Enabled(View(), Step.Dequeue(g))
      modifies this
      ensures Valid() && View() == Apply(old(View()), Step.Dequeue(g))
    {
      ghost var goal := Apply(View(), Step.Dequeue(g));
      ReachableStep(View(), Step.Dequeue(g));
      var task := tasks[g];
      var msg := task.inbox[0];
      var phase: Phase;
      match Parse(msg.bytes) {
        case Err(_) =>
          phase := Leaving;
        case Ok(frame) =>
          phase := if frame.IsData() then Sending(msg, frame.OutAddrOf()) else Waiting(now);
      }
      assert phase == Received(msg, g, now).0;
      tasks := tasks[g := Task(task.addr, task.born, task.inbox[1..], phase)];
      places := goal.places;
      assert View() == goal;
    }

    /** A peer task's send finds room. */
    method Enqueue(g: nat)
      requires Valid() && Enabled(View(), Step.Enqueue(g))
      modifies this
      ensures Valid() && View() == Apply(old(View()), Step.Enqueue(g))
      ensures |old(queue)| < QUEUE_CAPACITY && |queue| == |old(queue)| + 1
    {
      ghost var goal := Apply(View(), Step.Enqueue(g));
      ReachableStep(View(), Step.Enqueue(g));
      var task := tasks[g];
      var event := SendLan(task.addr, g, task.phase.msg, task.phase.out);
      queue := queue + [event];
      tasks := tasks[g := task.(phase := Waiting(now))];
      places := goal.places;
      log := log + [event];
      assert View() == goal;
    }

    /** The timed receive fails: 30 seconds without a datagram, or no sender left. */
    method GiveUp(g: nat)
      requires Valid() && Enabled(View(), Step.GiveUp(g))
      modifies this
      ensures Valid() && View() == Apply(old(View()), Step.GiveUp(g))
    {
      ghost var goal := Apply(View(), Step.GiveUp(g));
      ReachableStep(View(), Step.GiveUp(g));
      tasks := tasks[g := tasks[g].(phase := Leaving)];
      assert View() == goal;
    }

    /** The receiver goes out of scope. */
    method DropInbox(g: nat)
      requires Valid() && Enabled(View(), Step.DropInbox(g))
      modifies this
      ensures Valid() && View() == Apply(old(View()), Step.DropInbox(g))
    {
      ghost var goal := Apply(View(), Step.DropInbox(g));
      ReachableStep(View(), Step.DropInbox(g));
      places := goal.places;
      tasks := tasks[g := tasks[g].(inbox := [], phase := Closing)];
      assert View() == goal;
    }

    /** The last thing a peer task does. */
    method SendClose(g: nat)
      requires Valid() && Enabled(View(), Step.SendClose(g))
      modifies this
      ensures Valid() && View() == Apply(old(View()), Step.SendClose(g))
    {
      ghost var goal := Apply(View(), Step.SendClose(g));
      ReachableStep(View(), Step.SendClose(g));
      var event := Close(tasks[g].addr, g);
      tasks := tasks[g := tasks[g].(phase := Exited(taken + |queue|))];
      queue := queue + [event];
      log := log + [event];
      assert View() == goal;
    }

    /** The event task takes the next event when fewer than four are being worked on. */
    method Start()
      requires Valid() && Enabled(View(), Step.Start)
      modifies this
      ensures Valid() && View() == Apply(old(View()), Step.Start)
    {
      ghost var goal := Apply(View(), Step.Start);
      ReachableStep(View(), Step.Start);
      var event := queue[0];
      flight := flight + [Flight(taken, event, Started)];
      places := goal.places;
      queue, taken := queue[1..], taken + 1;
      assert View() == goal;
    }

    method Remove(j: nat)
      requires Valid() && Enabled(View(), Step.Remove(j))
      modifies this, peers
      ensures Valid() && View() == Apply(old(View()), Step.Remove(j))
    {
      ghost var goal := Apply(View(), Step.Remove(j));
      ReachableStep(View(), Step.Remove(j));
      peers.Remove(flight[j].event.addr);
      flight := flight[..j] + flight[j + 1..];
      assert View() == goal;
    }

    method Route(j: nat)
      requires Valid() && Enabled(View(), Step.Route(j))
      modifies this, peers
      ensures Valid() && View() == Apply(old(View()), Step.Route(j))
    {
      ghost var goal := Apply(View(), Step.Route(j));
      ReachableStep(View(), Step.Route(j));
      var event := flight[j].event;
      ghost var dests := Destinations(View(), event.addr, event.out);
      var addrs := peers.GetDestSockaddr(event.addr, event.out);
      assert (set a | a in addrs) == dests;
      flight := flight[j := flight[j].(stage := Routed(set a | a in addrs))];
      routes := routes + [Claim(event.out.srcIp, event.addr, peers.cache)];
      assert View() == goal;
    }

    /** The packet is sent to its addressees, unless a plugin vetoes it. */
    method Finish(j: nat, vetoed: bool)
      requires Valid() && Enabled(View(), Step.Finish(j, vetoed))
      modifies this
      ensures Valid() && View() == Apply(old(View()), Step.Finish(j, vetoed))
    {
      ghost var goal := Apply(View(), Step.Finish(j, vetoed));
      ReachableStep(View(), Step.Finish(j, vetoed));
      var f := flight[j];
      flight := flight[..j] + flight[j + 1..];
      places := goal.places;
      if !vetoed {
        delivered := delivered + [Delivery(f.event.msg, f.stage.dests)];
      }
      assert View() == goal;
    }

    /** Whether a step can happen, read off the real state. */
    method CanHappen(step: Step) returns (b: bool)
      requires Valid()
      ensures b == Enabled(View(), step)
    {
      var room := |queue| < QUEUE_CAPACITY;
      match step {
        case Tick(_) => b := true;
        case Receive(_, _) => b := true;
        case Dequeue(g) => b := g < |tasks| && tasks[g].phase.Waiting? && tasks[g].inbox != [];
        case Enqueue(g) => b := g < |tasks| && tasks[g].phase.Sending? && room;
        case GiveUp(g) =>
          b := && g < |tasks| && tasks[g].phase.Waiting? && tasks[g].inbox == []
               && (now >= tasks[g].phase.since + RECV_TIMEOUT
                   || !(tasks[g].addr in peers.cache && peers.cache[tasks[g].addr].gen == g));
        case DropInbox(g) => b := g < |tasks| && tasks[g].phase.Leaving?;
        case SendClose(g) => b := g < |tasks| && tasks[g].phase.Closing? && room;
        case Start => b := queue != [] && |flight| < MAX_IN_FLIGHT;
        case Remove(j) => b := j < |flight| && flight[j].event.Close?;
        case Route(j) => b := j < |flight| && flight[j].event.SendLan? && flight[j].stage.Started?;
        case Finish(j, _) => b := j < |flight| && flight[j].event.SendLan? && flight[j].stage.Routed?;
      }
    }

    method Perform(step: Step)
      requires Valid() && Enabled(View(), step)
      modifies this, peers
      ensures Valid() && View() == Apply(old(View()), step)
    {
      match step {
        case Tick(nanos) => Tick(nanos);
        case Receive(addr, bytes) => var _ := Receive(addr, bytes);
        case Dequeue(g) => Dequeue(g);
        case Enqueue(g) => Enqueue(g);
        case GiveUp(g) => GiveUp(g);
        case DropInbox(g) => DropInbox(g);
        case SendClose(g) => SendClose(g);
        case Start => Start();
        case Remove(j) => Remove(j);
        case Route(j) => Route(j);
        case Finish(j, vetoed) => Finish(j, vetoed);
      }
    }

    /** Any schedule at all: the object goes through the run of the step machine. */
    method Drive(schedule: seq<Step>)
      requires Valid()
      modifies this, peers
      ensures Valid() && View() == Run(old(View()), schedule)
    {
      for k := 0 to |schedule|
        invariant Valid() && View() == Run(old(View()), schedule[..k])
      {
        assert schedule[..k + 1][..k] == schedule[..k];
        var can := CanHappen(schedule[k]);
        if can {
          Perform(schedule[k]);
        }
      }
      assert schedule[..|schedule|] == schedule;
    }
  }
}
