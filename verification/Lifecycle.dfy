/** The life of a peer: from the datagram that creates it to the Close that removes it. */
module Lifecycle {
  import opened Basics
  import opened Protocol

  /** Event number at is being worked on. */
  ghost predicate InTheAir(s: State, at: nat) {
    exists j :: 0 <= j < |s.flight| && s.flight[j].at == at
  }

  /** A task generation that still stands behind its cache entry: running, about to
      send its Close, or with its Close queued or being worked on. */
  ghost predicate Alive(s: State, g: nat)
    requires g < |s.tasks|
  {
    var phase := s.tasks[g].phase;
    phase.Exited? ==> phase.at >= s.started || InTheAir(s, phase.at)
  }

  /** A peer is cached exactly as long as its generation is alive, and it is the newest. */
  ghost predicate TasksOk(s: State) {
    && (forall a :: a in s.cache ==> s.cache[a].gen < |s.tasks| && s.tasks[s.cache[a].gen].addr == a)
    && (forall g :: 0 <= g < |s.tasks| ==> (Alive(s, g) <==> s.Current(g)))
    && (forall g :: 0 <= g < |s.tasks| && s.tasks[g].addr in s.cache ==> g <= s.cache[s.tasks[g].addr].gen)
  }

  /** The event history: who may send, and who has exited. */
  ghost predicate LogOk(s: State) {
    && s.started <= |s.log| <= s.started + QUEUE_CAPACITY
    && (forall p :: 0 <= p < |s.log| ==>
          && s.log[p].gen < |s.tasks| && s.log[p].addr == s.tasks[s.log[p].gen].addr
          && (s.log[p].Close? ==> s.tasks[s.log[p].gen].phase == Exited(p)))
    && (forall g :: 0 <= g < |s.tasks| && s.tasks[g].phase.Exited? ==>
          var p := s.tasks[g].phase.at; p < |s.log| && s.log[p] == Close(s.tasks[g].addr, g))
  }

  /** The events being worked on are distinct events taken from the queue. */
  ghost predicate FlightOk(s: State) {
    && |s.flight| <= MAX_IN_FLIGHT
    && s.started <= |s.log|
    && (forall j :: 0 <= j < |s.flight| ==>
          && s.flight[j].at < s.started && s.flight[j].event == s.log[s.flight[j].at]
          && (s.flight[j].event.Close? ==> s.flight[j].stage.Started?))
    && (forall i, j :: 0 <= i < j < |s.flight| ==> s.flight[i].at != s.flight[j].at)
  }

  ghost predicate LifeOk(s: State) { TasksOk(s) && LogOk(s) && FlightOk(s) }

  /** Nothing changes but clocks, peer states, inboxes and the phases of running tasks. */
  ghost predicate SameLife(s: State, t: State) {
    && t.log == s.log && t.started == s.started && t.flight == s.flight
    && |t.tasks| == |s.tasks|
    && (forall g :: 0 <= g < |s.tasks| ==>
          && t.tasks[g].addr == s.tasks[g].addr
          && (t.tasks[g].phase == s.tasks[g].phase || (!s.tasks[g].phase.Exited? && !t.tasks[g].phase.Exited?)))
    && t.cache.Keys == s.cache.Keys
    && (forall a :: a in s.cache ==> t.cache[a].gen == s.cache[a].gen)
  }

  lemma LifeFrame(s: State, t: State)
    requires LifeOk(s) && SameLife(s, t)
    ensures LifeOk(t)
  {
    assert forall g :: 0 <= g < |s.tasks| ==> (Alive(t, g) <==> Alive(s, g)) && t.Current(g) == s.Current(g);
  }

  lemma LifeAfterSpawn(s: State, addr: SocketAddr)
    requires LifeOk(s)
    ensures LifeOk(Spawn(s, addr))
  {
    if addr !in s.cache {
      var t, n := Spawn(s, addr), |s.tasks|;
      assert forall g :: 0 <= g < n ==> t.tasks[g] == s.tasks[g];
      assert t.log == s.log && t.flight == s.flight && t.started == s.started;
      forall g | 0 <= g < |t.tasks| ensures Alive(t, g) <==> t.Current(g) {
        if g < n { assert Alive(s, g) == s.Current(g); }
      }
    }
  }

  lemma LifeAfterReceive(s: State, addr: SocketAddr, bytes: Packet)
    requires LifeOk(s)
    ensures LifeOk(Apply(s, Receive(addr, bytes)))
  {
    if ReachesPeer(bytes) {
      LifeAfterSpawn(s, addr);
      PacketSameLife(Spawn(s, addr), addr, bytes);
      LifeFrame(Spawn(s, addr), OnPacket(Spawn(s, addr), addr, bytes));
    }
  }

  lemma PacketSameLife(s: State, addr: SocketAddr, bytes: Packet)
    requires addr in s.cache && s.cache[addr].gen < |s.tasks|
    ensures SameLife(s, OnPacket(s, addr, bytes))
  {
  }

  /** Steps that only move a running task along. */
  lemma TaskSameLife(s: State, step: Step)
    requires Enabled(s, step) && (step.Tick? || step.Dequeue? || step.GiveUp? || step.DropInbox?)
    ensures SameLife(s, Apply(s, step))
  {
  }

  /** A running task puts an event of its own into the queue; its Close is the last it does. */
  ghost predicate Sends(s: State, t: State, g: nat, e: Event, phase: Phase) {
    && g < |s.tasks| && !s.tasks[g].phase.Exited? && s.QueueHasRoom()
    && t.tasks == s.tasks[g := s.tasks[g].(phase := phase)]
    && t.log == s.log + [e] && e.addr == s.tasks[g].addr && e.gen == g
    && t.cache == s.cache && t.started == s.started && t.flight == s.flight
    && (if e.Close? then phase == Exited(|s.log|) else !phase.Exited?)
  }

  lemma EnqueueSends(s: State, g: nat)
    requires Enabled(s, Enqueue(g))
    ensures var phase := s.tasks[g].phase;
            Sends(s, Apply(s, Enqueue(g)), g, SendLan(s.tasks[g].addr, g, phase.msg, phase.out), Waiting(s.now))
  {
  }

  lemma SendCloseSends(s: State, g: nat)
    requires Enabled(s, SendClose(g))
    ensures Sends(s, Apply(s, SendClose(g)), g, Close(s.tasks[g].addr, g), Exited(|s.log|))
  {
  }

  lemma TasksAfterSend(s: State, t: State, g: nat, e: Event, phase: Phase)
    requires TasksOk(s) && s.started <= |s.log| && Sends(s, t, g, e, phase)
    ensures TasksOk(t)
  {
    forall h | 0 <= h < |s.tasks| ensures Alive(t, h) <==> t.Current(h) {
      assert Alive(s, h) <==> s.Current(h);
    }
  }

  lemma LogAfterSend(s: State, t: State, g: nat, e: Event, phase: Phase)
    requires LogOk(s) && Sends(s, t, g, e, phase)
    ensures LogOk(t)
  {
    assert t.log[|s.log|] == e;
    assert forall p :: 0 <= p < |s.log| ==> t.log[p] == s.log[p];
  }

  lemma LifeAfterSend(s: State, t: State, g: nat, e: Event, phase: Phase)
    requires LifeOk(s) && Sends(s, t, g, e, phase)
    ensures LifeOk(t)
  {
    TasksAfterSend(s, t, g, e, phase);
    LogAfterSend(s, t, g, e, phase);
    assert forall p :: 0 <= p < |s.log| ==> t.log[p] == s.log[p];
  }

  /** Nothing but the flights has changed, and the same generations are alive. */
  lemma TasksFrame(s: State, t: State)
    requires TasksOk(s) && t.tasks == s.tasks && t.cache == s.cache
    requires forall h :: 0 <= h < |s.tasks| ==> (Alive(t, h) <==> Alive(s, h))
    ensures TasksOk(t)
  {
    forall h | 0 <= h < |s.tasks| ensures Alive(t, h) <==> t.Current(h) {
      assert Alive(s, h) <==> s.Current(h);
    }
  }

  lemma AirAfterStart(s: State, at: nat)
    requires Enabled(s, Start)
    ensures InTheAir(Apply(s, Start), at) <==> InTheAir(s, at) || at == s.started
  {
    var t, n := Apply(s, Start), |s.flight|;
    assert t.flight[n].at == s.started;
    assert forall j :: 0 <= j < n ==> t.flight[j] == s.flight[j];
  }

  lemma FlightAfterStart(s: State)
    requires FlightOk(s) && Enabled(s, Start)
    ensures FlightOk(Apply(s, Start))
  {
    var t, n := Apply(s, Start), |s.flight|;
    assert t.flight == s.flight + [Flight(s.started, s.log[s.started], Started)];
    assert t.log == s.log && t.started == s.started + 1;
  }

  lemma LifeAfterStart(s: State)
    requires LifeOk(s) && Enabled(s, Start)
    ensures LifeOk(Apply(s, Start))
  {
    var t := Apply(s, Start);
    FlightAfterStart(s);
    assert t.tasks == s.tasks && t.cache == s.cache && t.log == s.log && t.started == s.started + 1;
    forall h | 0 <= h < |s.tasks| ensures Alive(t, h) <==> Alive(s, h) {
      if s.tasks[h].phase.Exited? { AirAfterStart(s, s.tasks[h].phase.at); }
    }
    TasksFrame(s, t);
  }

  lemma FlightAfterLanding(s: State, j: nat)
    requires FlightOk(s) && j < |s.flight|
    ensures FlightOk(Landed(s, j))
  {
    var t := Landed(s, j);
    assert forall i :: 0 <= i < |t.flight| ==> t.flight[i] == s.flight[if i < j then i else i + 1];
  }

  lemma FlightsDiffer(s: State, i: nat, j: nat)
    requires FlightOk(s) && i < |s.flight| && j < |s.flight| && i != j
    ensures s.flight[i].at != s.flight[j].at
  {
  }

  lemma OthersStayUp(s: State, j: nat, i: nat)
    requires j < |s.flight| && i < |s.flight| && i != j
    ensures InTheAir(Landed(s, j), s.flight[i].at)
  {
    assert Landed(s, j).flight[if i < j then i else i - 1] == s.flight[i];
  }

  lemma LandedIsDown(s: State, j: nat, k: nat)
    requires FlightOk(s) && j < |s.flight| && k < |s.flight| - 1
    ensures Landed(s, j).flight[k].at != s.flight[j].at && InTheAir(s, Landed(s, j).flight[k].at)
  {
    var i := if k < j then k else k + 1;
    assert Landed(s, j).flight[k] == s.flight[i];
    FlightsDiffer(s, i, j);
  }

  lemma AirAfterLanding(s: State, j: nat, at: nat)
    requires FlightOk(s) && j < |s.flight|
    ensures InTheAir(Landed(s, j), at) <==> InTheAir(s, at) && at != s.flight[j].at
  {
    if InTheAir(Landed(s, j), at) {
      var k :| 0 <= k < |s.flight| - 1 && Landed(s, j).flight[k].at == at;
      LandedIsDown(s, j, k);
    }
    if InTheAir(s, at) && at != s.flight[j].at {
      var i :| 0 <= i < |s.flight| && s.flight[i].at == at;
      OthersStayUp(s, j, i);
    }
  }

  lemma LifeAfterRemove(s: State, j: nat)
    requires LifeOk(s) && Enabled(s, Remove(j))
    ensures LifeOk(Apply(s, Remove(j)))
    ensures var e := s.flight[j].event; e.addr in s.cache && s.cache[e.addr].gen == e.gen
  {
    var t, e := Apply(s, Remove(j)), s.flight[j].event;
    FlightAfterLanding(s, j);
    assert s.tasks[e.gen].phase == Exited(s.flight[j].at);
    assert Alive(s, e.gen) && s.Current(e.gen);
    forall h | 0 <= h < |s.tasks| ensures Alive(t, h) <==> t.Current(h) {
      var phase := s.tasks[h].phase;
      if phase.Exited? {
        AirAfterLanding(s, j, phase.at);
      }
      assert Alive(s, h) <==> s.Current(h);
    }
  }

  /** Finishing a packet event lets no peer go. */
  lemma AliveAfterFinish(s: State, j: nat, h: nat)
    requires LogOk(s) && FlightOk(s) && j < |s.flight| && s.flight[j].event.SendLan? && h < |s.tasks|
    ensures Alive(Landed(s, j), h) <==> Alive(s, h)
  {
    if s.tasks[h].phase.Exited? {
      AirAfterLanding(s, j, s.tasks[h].phase.at);
      assert s.log[s.tasks[h].phase.at].Close?;
    }
  }

  lemma LifeAfterPacketLanding(s: State, j: nat)
    requires LifeOk(s) && j < |s.flight| && s.flight[j].event.SendLan?
    ensures LifeOk(Landed(s, j))
  {
    FlightAfterLanding(s, j);
    forall h | 0 <= h < |s.tasks| ensures Alive(Landed(s, j), h) <==> Alive(s, h) {
      AliveAfterFinish(s, j, h);
    }
    TasksFrame(s, Landed(s, j));
  }

  lemma LifeAfterFinish(s: State, j: nat, vetoed: bool)
    requires LifeOk(s) && Enabled(s, Finish(j, vetoed))
    ensures LifeOk(Apply(s, Finish(j, vetoed)))
  {
    LifeAfterPacketLanding(s, j);
    LifeFrame(Landed(s, j), Apply(s, Finish(j, vetoed)));
  }

  lemma AirAfterRoute(s: State, j: nat, at: nat)
    requires Enabled(s, Route(j))
    ensures InTheAir(Apply(s, Route(j)), at) <==> InTheAir(s, at)
  {
    var t := Apply(s, Route(j));
    assert forall i :: 0 <= i < |s.flight| ==> t.flight[i].at == s.flight[i].at;
  }

  lemma FlightAfterRoute(s: State, j: nat)
    requires FlightOk(s) && Enabled(s, Route(j))
    ensures FlightOk(Apply(s, Route(j)))
  {
    var t := Apply(s, Route(j));
    assert t.log == s.log && t.started == s.started;
    assert forall i :: 0 <= i < |s.flight| ==>
             t.flight[i].at == s.flight[i].at && t.flight[i].event == s.flight[i].event;
  }

  lemma LifeAfterRoute(s: State, j: nat)
    requires LifeOk(s) && Enabled(s, Route(j))
    ensures LifeOk(Apply(s, Route(j)))
  {
    var t := Apply(s, Route(j));
    FlightAfterRoute(s, j);
    assert t.tasks == s.tasks && t.cache == s.cache && t.log == s.log && t.started == s.started;
    forall h | 0 <= h < |s.tasks| ensures Alive(t, h) <==> Alive(s, h) {
      if s.tasks[h].phase.Exited? { AirAfterRoute(s, j, s.tasks[h].phase.at); }
    }
    TasksFrame(s, t);
  }

  /** Every step keeps the lifecycle invariant. */
  lemma LifeKept(s: State, step: Step)
    requires LifeOk(s) && Enabled(s, step)
    ensures LifeOk(Apply(s, step))
  {
    match step
    case Receive(addr, bytes) => LifeAfterReceive(s, addr, bytes);
    case Enqueue(g) =>
      var phase := s.tasks[g].phase;
      EnqueueSends(s, g);
      LifeAfterSend(s, Apply(s, step), g, SendLan(s.tasks[g].addr, g, phase.msg, phase.out), Waiting(s.now));
    case SendClose(g) =>
      SendCloseSends(s, g);
      LifeAfterSend(s, Apply(s, step), g, Close(s.tasks[g].addr, g), Exited(|s.log|));
    case Start => LifeAfterStart(s);
    case Remove(j) => LifeAfterRemove(s, j);
    case Route(j) => LifeAfterRoute(s, j);
    case Finish(j, vetoed) => LifeAfterFinish(s, j, vetoed);
    case _ =>
      TaskSameLife(s, step);
      LifeFrame(s, Apply(s, step));
  }
}
