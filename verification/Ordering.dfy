/** Datagrams on their way from arrival to the event queue: nothing is invented,
    repeated or reordered per source. */
module Ordering {
  import opened Basics
  import opened Frame
  import opened Protocol
  import opened Lifecycle

  /** The message is the arrival its serial number names. */
  ghost predicate Genuine(s: State, m: Msg, addr: SocketAddr, gen: nat) {
    && m.serial < |s.arrivals|
    && s.arrivals[m.serial].addr == addr && s.arrivals[m.serial].gen == gen
    && s.arrivals[m.serial].bytes == m.bytes
  }

  /** The message is virtual LAN traffic and out are its addresses. */
  ghost predicate IsTraffic(m: Msg, out: OutAddr) {
    IsDataDatagram(m.bytes) && out == Parse(m.bytes).value.OutAddrOf()
  }

  ghost predicate ArrivalsOk(s: State) {
    && (forall i :: 0 <= i < |s.arrivals| ==>
          && s.arrivals[i].gen < |s.tasks| && s.tasks[s.arrivals[i].gen].addr == s.arrivals[i].addr
          && ReachesPeer(s.arrivals[i].bytes))
    && (forall i, j :: 0 <= i < j < |s.arrivals| && s.arrivals[i].addr == s.arrivals[j].addr ==>
          s.arrivals[i].gen <= s.arrivals[j].gen)
  }

  /** One task's messages: genuine, oldest first, the one being sent before those waiting. */
  ghost predicate TaskOk(s: State, g: nat)
    requires g < |s.tasks|
  {
    var t := s.tasks[g];
    && |t.inbox| <= INBOX_CAPACITY
    && (!t.Open() ==> t.inbox == [])
    && (forall k :: 0 <= k < |t.inbox| ==> Genuine(s, t.inbox[k], t.addr, g))
    && (forall k, l :: 0 <= k < l < |t.inbox| ==> t.inbox[k].serial < t.inbox[l].serial)
    && (t.phase.Sending? ==>
          && Genuine(s, t.phase.msg, t.addr, g) && IsTraffic(t.phase.msg, t.phase.out)
          && forall k :: 0 <= k < |t.inbox| ==> t.phase.msg.serial < t.inbox[k].serial)
  }

  /** One event against the task that sent it. */
  ghost predicate EventOk(s: State, e: Event)
    requires e.gen < |s.tasks|
  {
    e.SendLan? ==>
      var t := s.tasks[e.gen];
      && Genuine(s, e.msg, e.addr, e.gen) && IsTraffic(e.msg, e.out)
      && (forall k :: 0 <= k < |t.inbox| ==> e.msg.serial < t.inbox[k].serial)
      && (t.phase.Sending? ==> e.msg.serial < t.phase.msg.serial)
  }

  /** Of two events of one address the earlier is of an older generation, or of the
      same one and not its Close. */
  ghost predicate InOrder(e: Event, f: Event) {
    e.addr == f.addr ==>
      && e.gen <= f.gen
      && (e.gen == f.gen ==> e.SendLan? && (f.SendLan? ==> e.msg.serial < f.msg.serial))
  }

  ghost predicate EventsOk(s: State) {
    && (forall p :: 0 <= p < |s.log| ==> s.log[p].gen < |s.tasks| && EventOk(s, s.log[p]))
    && (forall p, q :: 0 <= p < q < |s.log| ==> InOrder(s.log[p], s.log[q]))
  }

  ghost predicate OrderOk(s: State) {
    && ArrivalsOk(s)
    && (forall g :: 0 <= g < |s.tasks| ==> TaskOk(s, g))
    && EventsOk(s)
  }

  /** No message moves, though an inbox may be emptied. */
  ghost predicate SameTraffic(s: State, t: State) {
    && t.arrivals == s.arrivals && t.log == s.log && |t.tasks| == |s.tasks|
    && forall g :: 0 <= g < |s.tasks| ==>
         && t.tasks[g].addr == s.tasks[g].addr
         && (t.tasks[g].inbox == s.tasks[g].inbox || t.tasks[g].inbox == [])
         && (!t.tasks[g].Open() ==> !s.tasks[g].Open() || t.tasks[g].inbox == [])
         && (t.tasks[g].phase.Sending? ==> t.tasks[g].phase == s.tasks[g].phase)
  }

  lemma OrderFrame(s: State, t: State)
    requires OrderOk(s) && SameTraffic(s, t)
    ensures OrderOk(t)
  {
    forall g | 0 <= g < |t.tasks| ensures TaskOk(t, g) {
      assert TaskOk(s, g);
    }
    forall p | 0 <= p < |t.log| ensures EventOk(t, t.log[p]) {
      assert EventOk(s, s.log[p]);
    }
  }

  lemma QuietSameTraffic(s: State, step: Step)
    requires Enabled(s, step) && OrderOk(s)
    requires step.Tick? || step.GiveUp? || step.DropInbox? || step.Start? || step.Remove? || step.Route? || step.Finish?
    ensures SameTraffic(s, Apply(s, step))
  {
    assert forall g :: 0 <= g < |s.tasks| ==> TaskOk(s, g);
  }

  /** A new task starts with nothing to send. */
  lemma OrderAfterSpawn(s: State, addr: SocketAddr)
    requires OrderOk(s)
    ensures OrderOk(Spawn(s, addr))
  {
    var t := Spawn(s, addr);
    assert forall g :: 0 <= g < |s.tasks| ==> t.tasks[g] == s.tasks[g];
    forall g | 0 <= g < |t.tasks| ensures TaskOk(t, g) {
      if g < |s.tasks| { assert TaskOk(s, g); }
    }
    forall p | 0 <= p < |t.log| ensures EventOk(t, t.log[p]) {
      assert EventOk(s, s.log[p]);
    }
  }

  /** An arrival may grow the history without growing an inbox. */
  lemma OrderAfterArrival(s: State, t: State, a: Arrival)
    requires OrderOk(s) && TasksOk(s) && t == s.(arrivals := s.arrivals + [a])
    requires a.addr in s.cache && a.gen == s.cache[a.addr].gen && ReachesPeer(a.bytes)
    ensures OrderOk(t)
  {
    assert forall i :: 0 <= i < |s.arrivals| ==> t.arrivals[i] == s.arrivals[i];
    forall g | 0 <= g < |t.tasks| ensures TaskOk(t, g) {
      assert TaskOk(s, g);
    }
    forall p | 0 <= p < |t.log| ensures EventOk(t, t.log[p]) {
      assert EventOk(s, s.log[p]);
    }
  }

  lemma TaskKept(s: State, t: State, h: nat)
    requires h < |s.tasks| && h < |t.tasks| && t.tasks[h] == s.tasks[h] && s.arrivals <= t.arrivals && TaskOk(s, h)
    ensures TaskOk(t, h)
  {
  }

  lemma TaskAfterPush(s: State, t: State, g: nat, m: Msg)
    requires g < |s.tasks| && g < |t.tasks| && TaskOk(s, g) && TakesMore(s.tasks[g]) && t.arrivals == s.arrivals
    requires Genuine(s, m, s.tasks[g].addr, g)
    requires forall k :: 0 <= k < |s.tasks[g].inbox| ==> s.tasks[g].inbox[k].serial < m.serial
    requires s.tasks[g].phase.Sending? ==> s.tasks[g].phase.msg.serial < m.serial
    requires t.tasks[g] == s.tasks[g].(inbox := s.tasks[g].inbox + [m])
    ensures TaskOk(t, g)
  {
  }

  /** The newest arrival joins the inbox of its task. */
  lemma OrderAfterPush(s: State, t: State, g: nat, m: Msg)
    requires OrderOk(s) && g < |s.tasks| && TakesMore(s.tasks[g])
    requires m.serial == |s.arrivals| - 1 && Genuine(s, m, s.tasks[g].addr, g)
    requires forall k :: 0 <= k < |s.tasks[g].inbox| ==> s.tasks[g].inbox[k].serial < m.serial
    requires s.tasks[g].phase.Sending? ==> s.tasks[g].phase.msg.serial < m.serial
    requires forall p :: 0 <= p < |s.log| && s.log[p].SendLan? ==> s.log[p].msg.serial < m.serial
    requires t == s.(tasks := s.tasks[g := s.tasks[g].(inbox := s.tasks[g].inbox + [m])])
    ensures OrderOk(t)
  {
    TaskAfterPush(s, t, g, m);
    forall h | 0 <= h < |t.tasks| ensures TaskOk(t, h) {
      if h != g { TaskKept(s, t, h); }
    }
    forall p | 0 <= p < |t.log| ensures EventOk(t, t.log[p]) {
      assert EventOk(s, s.log[p]);
    }
  }

  lemma OrderAfterPacket(s: State, addr: SocketAddr, bytes: Packet)
    requires OrderOk(s) && TasksOk(s) && addr in s.cache && ReachesPeer(bytes)
    ensures OrderOk(OnPacket(s, addr, bytes))
  {
    var g, a := s.cache[addr].gen, Arrival(addr, bytes, s.now, s.cache[addr].gen);
    var u := s.(arrivals := s.arrivals + [a]);
    OrderAfterArrival(s, u, a);
    assert TaskOk(s, g);
    var t := OnPacket(s, addr, bytes);
    if TakesMore(s.tasks[g]) {
      var m := Msg(|s.arrivals|, bytes);
      var v := u.(tasks := u.tasks[g := u.tasks[g].(inbox := u.tasks[g].inbox + [m])]);
      assert forall p :: 0 <= p < |s.log| ==> EventOk(s, s.log[p]);
      OrderAfterPush(u, v, g, m);
      OrderFrame(v, t);
    } else {
      OrderFrame(u, t);
    }
  }

  /** A task takes the head of its inbox, and keeps it only to send it on. */
  ghost predicate TakesHead(s: State, t: State, g: nat) {
    && g < |s.tasks| && s.tasks[g].inbox != []
    && t.arrivals == s.arrivals && t.log == s.log && |t.tasks| == |s.tasks|
    && (forall h :: 0 <= h < |s.tasks| && h != g ==> t.tasks[h] == s.tasks[h])
    && t.tasks[g].addr == s.tasks[g].addr && t.tasks[g].inbox == s.tasks[g].inbox[1..] && t.tasks[g].Open()
    && (t.tasks[g].phase.Sending? ==>
          t.tasks[g].phase.msg == s.tasks[g].inbox[0] && IsTraffic(t.tasks[g].phase.msg, t.tasks[g].phase.out))
  }

  lemma DequeueTakesHead(s: State, g: nat)
    requires Enabled(s, Dequeue(g))
    ensures TakesHead(s, Apply(s, Dequeue(g)), g)
  {
  }

  lemma TaskAfterHead(s: State, t: State, g: nat)
    requires TakesHead(s, t, g) && TaskOk(s, g)
    ensures TaskOk(t, g)
  {
    assert forall k :: 0 <= k < |t.tasks[g].inbox| ==> t.tasks[g].inbox[k] == s.tasks[g].inbox[k + 1];
  }

  lemma EventAfterHead(s: State, t: State, g: nat, e: Event)
    requires TakesHead(s, t, g) && e.gen < |s.tasks| && EventOk(s, e)
    ensures EventOk(t, e)
  {
    assert forall k :: 0 <= k < |t.tasks[g].inbox| ==> t.tasks[g].inbox[k] == s.tasks[g].inbox[k + 1];
  }

  lemma OrderAfterHead(s: State, t: State, g: nat)
    requires OrderOk(s) && TakesHead(s, t, g)
    ensures OrderOk(t)
  {
    forall h | 0 <= h < |t.tasks| ensures TaskOk(t, h) {
      if h == g { TaskAfterHead(s, t, g); } else { TaskKept(s, t, h); }
    }
    forall p | 0 <= p < |t.log| ensures EventOk(t, t.log[p]) {
      EventAfterHead(s, t, g, s.log[p]);
    }
  }

  /** A live task's event may go to the end of the log. */
  lemma AppendsInOrder(s: State, g: nat, e: Event)
    requires LifeOk(s) && OrderOk(s) && g < |s.tasks| && !s.tasks[g].phase.Exited?
    requires e.gen == g && e.addr == s.tasks[g].addr
    requires e.SendLan? ==> forall p :: 0 <= p < |s.log| && s.log[p].SendLan? && s.log[p].gen == g ==>
                              s.log[p].msg.serial < e.msg.serial
    ensures forall p :: 0 <= p < |s.log| ==> InOrder(s.log[p], e)
  {
    assert Alive(s, g) && s.Current(g);
  }

  /** A task appends one event and then neither sends nor holds anything. */
  ghost predicate Appends(s: State, t: State, g: nat, e: Event) {
    && g < |s.tasks| && e.gen == g && e.addr == s.tasks[g].addr
    && t.arrivals == s.arrivals && t.log == s.log + [e] && |t.tasks| == |s.tasks|
    && (forall h :: 0 <= h < |s.tasks| && h != g ==> t.tasks[h] == s.tasks[h])
    && t.tasks[g].addr == s.tasks[g].addr && t.tasks[g].inbox == s.tasks[g].inbox && !t.tasks[g].phase.Sending?
    && (!t.tasks[g].Open() ==> !s.tasks[g].Open())
    && (e.SendLan? ==> s.tasks[g].phase == Sending(e.msg, e.out))
  }

  lemma EventAfterAppend(s: State, t: State, g: nat, e: Event, f: Event)
    requires Appends(s, t, g, e) && f.gen < |s.tasks| && EventOk(s, f)
    ensures EventOk(t, f)
  {
  }

  lemma NewEventOk(s: State, t: State, g: nat, e: Event)
    requires Appends(s, t, g, e) && TaskOk(s, g)
    ensures EventOk(t, e) && TaskOk(t, g)
  {
  }

  lemma EventsAfterAppend(s: State, t: State, g: nat, e: Event)
    requires LifeOk(s) && OrderOk(s) && Appends(s, t, g, e) && !s.tasks[g].phase.Exited?
    ensures EventsOk(t)
  {
    assert forall p :: 0 <= p < |s.log| ==> EventOk(s, s.log[p]);
    AppendsInOrder(s, g, e);
    assert TaskOk(s, g);
    NewEventOk(s, t, g, e);
    forall p | 0 <= p < |s.log| ensures EventOk(t, s.log[p]) {
      EventAfterAppend(s, t, g, e, s.log[p]);
    }
  }

  lemma OrderAfterAppend(s: State, t: State, g: nat, e: Event)
    requires LifeOk(s) && OrderOk(s) && Appends(s, t, g, e) && !s.tasks[g].phase.Exited?
    ensures OrderOk(t)
  {
    EventsAfterAppend(s, t, g, e);
    forall h | 0 <= h < |t.tasks| ensures TaskOk(t, h) {
      if h == g { NewEventOk(s, t, g, e); } else { TaskKept(s, t, h); }
    }
  }

  lemma EnqueueAppends(s: State, g: nat)
    requires Enabled(s, Enqueue(g))
    ensures var phase := s.tasks[g].phase;
            Appends(s, Apply(s, Enqueue(g)), g, SendLan(s.tasks[g].addr, g, phase.msg, phase.out))
  {
  }

  lemma SendCloseAppends(s: State, g: nat)
    requires Enabled(s, SendClose(g))
    ensures Appends(s, Apply(s, SendClose(g)), g, Close(s.tasks[g].addr, g))
  {
  }

  lemma OrderAfterReceive(s: State, addr: SocketAddr, bytes: Packet)
    requires LifeOk(s) && OrderOk(s) && Enabled(s, Receive(addr, bytes))
    ensures OrderOk(Apply(s, Receive(addr, bytes)))
  {
    if ReachesPeer(bytes) {
      OrderAfterSpawn(s, addr);
      LifeAfterSpawn(s, addr);
      OrderAfterPacket(Spawn(s, addr), addr, bytes);
    }
  }

  /** Every step keeps messages genuine and in order. */
  lemma OrderKept(s: State, step: Step)
    requires LifeOk(s) && OrderOk(s) && Enabled(s, step)
    ensures OrderOk(Apply(s, step))
  {
    var t := Apply(s, step);
    match step
    case Receive(addr, bytes) => OrderAfterReceive(s, addr, bytes);
    case Dequeue(g) =>
      DequeueTakesHead(s, g);
      OrderAfterHead(s, t, g);
    case Enqueue(g) =>
      EnqueueAppends(s, g);
      OrderAfterAppend(s, t, g, SendLan(s.tasks[g].addr, g, s.tasks[g].phase.msg, s.tasks[g].phase.out));
    case SendClose(g) =>
      SendCloseAppends(s, g);
      OrderAfterAppend(s, t, g, Close(s.tasks[g].addr, g));
    case _ =>
      QuietSameTraffic(s, step);
      OrderFrame(s, t);
  }
}
