/** What a peer's Connected or Idle state says about the time of its traffic. */
module PeerTimes {
  import opened Basics
  import opened Protocol
  import opened Lifecycle
  import opened Ordering

  /** When generation g last brought virtual LAN traffic, or when it was born. */
  ghost function LastData(arrivals: seq<Arrival>, g: nat, born: Instant): Instant {
    if arrivals == [] then born
    else
      var a := arrivals[|arrivals| - 1];
      if a.gen == g && IsDataDatagram(a.bytes) then a.time else LastData(arrivals[..|arrivals| - 1], g, born)
  }

  /** Arrival i of generation g is no traffic and came 300 seconds or more after the last traffic. */
  ghost predicate Late(arrivals: seq<Arrival>, g: nat, last: Instant, i: nat) {
    && i < |arrivals| && arrivals[i].gen == g && !IsDataDatagram(arrivals[i].bytes)
    && arrivals[i].time >= last + 300_000_000_000
  }

  ghost predicate WentIdle(arrivals: seq<Arrival>, g: nat, last: Instant) {
    exists i: nat :: Late(arrivals, g, last, i)
  }

  lemma WentIdleStep(arrivals: seq<Arrival>, a: Arrival, g: nat, last: Instant)
    ensures WentIdle(arrivals + [a], g, last) <==>
            WentIdle(arrivals, g, last) || (a.gen == g && !IsDataDatagram(a.bytes) && a.time >= last + 300_000_000_000)
  {
    var all := arrivals + [a];
    if WentIdle(arrivals, g, last) {
      var i: nat :| Late(arrivals, g, last, i);
      assert Late(all, g, last, i);
    }
    if a.gen == g && !IsDataDatagram(a.bytes) && a.time >= last + 300_000_000_000 {
      assert Late(all, g, last, |arrivals|);
    }
    if WentIdle(all, g, last) {
      var i: nat :| Late(all, g, last, i);
      if i < |arrivals| { assert Late(arrivals, g, last, i); }
    }
  }

  /** Connected holds the time of the last traffic; Idle means that something else came too late after it. */
  ghost predicate Timed(arrivals: seq<Arrival>, p: Peer, born: Instant) {
    var last := LastData(arrivals, p.gen, born);
    && (p.state.Idle? <==> WentIdle(arrivals, p.gen, last))
    && (p.state.Connected? ==> p.state.since == last)
  }

  ghost predicate TimesOk(s: State) {
    && (forall a :: a in s.cache ==>
          s.cache[a].gen < |s.tasks| && Timed(s.arrivals, s.cache[a], s.tasks[s.cache[a].gen].born))
    && (forall i :: 0 <= i < |s.arrivals| ==> s.arrivals[i].time <= s.now)
    && (forall g :: 0 <= g < |s.tasks| ==> s.tasks[g].born <= s.now)
  }

  lemma {:induction false} LastDataNotLater(arrivals: seq<Arrival>, g: nat, born: Instant, now: Instant)
    requires born <= now && forall i :: 0 <= i < |arrivals| ==> arrivals[i].time <= now
    ensures LastData(arrivals, g, born) <= now
  {
    if arrivals == [] {
    } else {
      LastDataNotLater(arrivals[..|arrivals| - 1], g, born, now);
    }
  }

  lemma {:induction false} LastDataOfNone(arrivals: seq<Arrival>, g: nat, born: Instant)
    requires forall i :: 0 <= i < |arrivals| ==> arrivals[i].gen != g
    ensures LastData(arrivals, g, born) == born
  {
    if arrivals == [] {
    } else {
      LastDataOfNone(arrivals[..|arrivals| - 1], g, born);
    }
  }

  lemma TimedAtBirth(arrivals: seq<Arrival>, g: nat, born: Instant)
    requires forall i :: 0 <= i < |arrivals| ==> arrivals[i].gen != g
    ensures Timed(arrivals, Peer(g, Connected(born)), born)
  {
    LastDataOfNone(arrivals, g, born);
  }

  lemma TimedByOther(arrivals: seq<Arrival>, a: Arrival, p: Peer, born: Instant)
    requires Timed(arrivals, p, born) && a.gen != p.gen
    ensures Timed(arrivals + [a], p, born)
  {
    assert (arrivals + [a])[..|arrivals|] == arrivals;
    WentIdleStep(arrivals, a, p.gen, LastData(arrivals, p.gen, born));
  }

  /** One more frame of the peer itself: the state assignment keeps what the state means. */
  lemma TimedByOwn(arrivals: seq<Arrival>, a: Arrival, p: Peer, born: Instant)
    requires Timed(arrivals, p, born) && a.gen == p.gen && born <= a.time
    requires forall i :: 0 <= i < |arrivals| ==> arrivals[i].time <= a.time
    ensures Timed(arrivals + [a], Peer(p.gen, NextPeerState(p.state, IsDataDatagram(a.bytes), a.time)), born)
  {
    assert (arrivals + [a])[..|arrivals|] == arrivals;
    WentIdleStep(arrivals, a, p.gen, LastData(arrivals + [a], p.gen, born));
  }

  lemma TimesAfterSpawn(s: State, addr: SocketAddr)
    requires TimesOk(s) && ArrivalsOk(s)
    ensures TimesOk(Spawn(s, addr))
  {
    var t := Spawn(s, addr);
    if addr !in s.cache {
      TimedAtBirth(s.arrivals, |s.tasks|, s.now);
    }
  }

  /** The packet step as it shows in the peers: one state assigned, one arrival recorded. */
  ghost predicate Hears(s: State, t: State, a: Arrival) {
    && a.addr in s.cache && a.gen == s.cache[a.addr].gen && a.time == s.now
    && t.arrivals == s.arrivals + [a] && t.now == s.now && |t.tasks| == |s.tasks|
    && (forall g :: 0 <= g < |s.tasks| ==> t.tasks[g].born == s.tasks[g].born)
    && t.cache == s.cache[a.addr := Peer(a.gen, NextPeerState(s.cache[a.addr].state, IsDataDatagram(a.bytes), s.now))]
  }

  lemma PacketHears(s: State, addr: SocketAddr, bytes: Packet)
    requires addr in s.cache && s.cache[addr].gen < |s.tasks|
    ensures Hears(s, OnPacket(s, addr, bytes), Arrival(addr, bytes, s.now, s.cache[addr].gen))
  {
  }

  lemma TimesAfterHearing(s: State, t: State, a: Arrival)
    requires TimesOk(s) && TasksOk(s) && Hears(s, t, a)
    ensures TimesOk(t)
  {
    forall x | x in t.cache ensures Timed(t.arrivals, t.cache[x], t.tasks[t.cache[x].gen].born) {
      var born := s.tasks[s.cache[x].gen].born;
      if x == a.addr {
        TimedByOwn(s.arrivals, a, s.cache[x], born);
      } else {
        TimedByOther(s.arrivals, a, s.cache[x], born);
      }
    }
  }

  lemma TimesAfterReceive(s: State, addr: SocketAddr, bytes: Packet)
    requires TimesOk(s) && LifeOk(s) && OrderOk(s) && ReachesPeer(bytes)
    ensures TimesOk(OnPacket(Spawn(s, addr), addr, bytes))
  {
    var t := Spawn(s, addr);
    TimesAfterSpawn(s, addr);
    LifeAfterSpawn(s, addr);
    PacketHears(t, addr, bytes);
    TimesAfterHearing(t, OnPacket(t, addr, bytes), Arrival(addr, bytes, t.now, t.cache[addr].gen));
  }

  /** The clock goes on, and no peer's state changes. */
  ghost predicate SamePeers(s: State, t: State) {
    && t.arrivals == s.arrivals && |t.tasks| == |s.tasks| && t.now >= s.now
    && (forall g :: 0 <= g < |s.tasks| ==> t.tasks[g].born == s.tasks[g].born)
    && (forall a :: a in t.cache ==> a in s.cache && t.cache[a] == s.cache[a])
  }

  lemma TimesFrame(s: State, t: State)
    requires TimesOk(s) && SamePeers(s, t)
    ensures TimesOk(t)
  {
  }

  /** Every step keeps the meaning of the peer states. */
  lemma TimesKept(s: State, step: Step)
    requires TimesOk(s) && LifeOk(s) && OrderOk(s) && Enabled(s, step)
    ensures TimesOk(Apply(s, step))
  {
    if step.Receive? {
      if ReachesPeer(step.bytes) { TimesAfterReceive(s, step.addr, step.bytes); }
    } else {
      OnlyReceiveChangesPeers(s, step);
      TimesFrame(s, Apply(s, step));
    }
  }

  /** No other step changes a peer's state; Close events take peers away. */
  lemma OnlyReceiveChangesPeers(s: State, step: Step)
    requires Enabled(s, step) && !step.Receive?
    ensures SamePeers(s, Apply(s, step))
  {
    match step
    case Tick(_) =>
    case Dequeue(g) => DequeueKeepsPeers(s, g);
    case Enqueue(_) =>
    case GiveUp(_) =>
    case DropInbox(_) =>
    case SendClose(_) =>
    case Start =>
    case Remove(_) =>
    case Route(_) =>
    case Finish(_, _) =>
  }

  lemma DequeueKeepsPeers(s: State, g: nat)
    requires Enabled(s, Dequeue(g))
    ensures var t := Apply(s, Dequeue(g));
            && t.arrivals == s.arrivals && |t.tasks| == |s.tasks| && t.now == s.now && t.cache == s.cache
            && (forall h :: 0 <= h < |s.tasks| ==> t.tasks[h].born == s.tasks[h].born)
  {
  }

  /** Only virtual LAN traffic of its own brings a peer back from Idle. */
  lemma OnlyTrafficLeavesIdle(s: State, step: Step, a: SocketAddr)
    requires Enabled(s, step) && a in s.cache && s.cache[a].state.Idle?
    requires a in Apply(s, step).cache && Apply(s, step).cache[a].state.Connected?
    ensures step.Receive? && step.addr == a && IsDataDatagram(step.bytes)
  {
    if !step.Receive? {
      OnlyReceiveChangesPeers(s, step);
    }
  }

  /** An idle peer has brought no traffic for 300 seconds at least. */
  lemma IdleMeansQuiet(s: State, a: SocketAddr)
    requires TimesOk(s) && a in s.cache && s.cache[a].state.Idle?
    ensures s.now >= LastData(s.arrivals, s.cache[a].gen, s.tasks[s.cache[a].gen].born) + 300_000_000_000
  {
  }
}
