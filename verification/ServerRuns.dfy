/** What holds in every state the server can reach under any schedule. */
module ServerRuns {
  import opened Basics
  import opened Frame
  import opened Protocol
  import opened Lifecycle
  import opened Ordering
  import opened Accounting
  import opened PeerTimes
  import opened Routing
  import opened Addressing

  ghost predicate Inv(s: State) {
    && LifeOk(s) && OrderOk(s) && PlacesOk(s) && TimesOk(s) && RoutesOk(s) && DeliveredOk(s) && KindsOk(s)
    && AddressesOk(s)
  }

  lemma InvInit(ignoreIdle: bool, now: Instant)
    ensures Inv(Init(ignoreIdle, now))
  {
    var s := Init(ignoreIdle, now);
    assert forall p :: ContentsOf(s, p) == {};
  }

  lemma InvStep(s: State, step: Step)
    requires Inv(s) && Enabled(s, step)
    ensures Inv(Apply(s, step))
  {
    LifeKept(s, step);
    OrderKept(s, step);
    PlacesKept(s, step);
    TimesKept(s, step);
    RoutesKept(s, step);
    DeliveredKept(s, step);
    KindsKept(s, step);
    AddressesKept(s, step);
  }

  lemma {:induction false} InvRun(s: State, steps: seq<Step>)
    requires Inv(s)
    ensures Inv(Run(s, steps))
  {
    if steps == [] {
    } else {
      var prev, step := Run(s, steps[..|steps| - 1]), steps[|steps| - 1];
      InvRun(s, steps[..|steps| - 1]);
      if Enabled(prev, step) {
        InvStep(prev, step);
      }
    }
  }

  /** The states some schedule leads to. */
  ghost predicate Reachable(s: State) {
    exists ignoreIdle, now, steps :: s == Run(Init(ignoreIdle, now), steps)
  }

  /** Every cached handle leads to a task. */
  ghost predicate HandlesLead(s: State) {
    forall a :: a in s.cache ==> s.cache[a].gen < |s.tasks|
  }

  lemma ReachableInit(ignoreIdle: bool, now: Instant)
    ensures Reachable(Init(ignoreIdle, now))
  {
    assert Run(Init(ignoreIdle, now), []) == Init(ignoreIdle, now);
  }

  lemma ReachableStep(s: State, step: Step)
    requires Reachable(s) && Enabled(s, step)
    ensures Reachable(Apply(s, step)) && HandlesLead(Apply(s, step))
  {
    var ignoreIdle, now, steps :| s == Run(Init(ignoreIdle, now), steps);
    assert (steps + [step])[..|steps|] == steps;
    assert Apply(s, step) == Run(Init(ignoreIdle, now), steps + [step]);
    ReachableInv(Apply(s, step));
  }

  lemma ReachableInv(s: State)
    requires Reachable(s)
    ensures Inv(s)
  {
    var ignoreIdle, now, steps :| s == Run(Init(ignoreIdle, now), steps);
    InvInit(ignoreIdle, now);
    InvRun(Init(ignoreIdle, now), steps);
  }

  // ---- Lifecycle ----

  /** Generation g of address a is alive. */
  ghost predicate AliveAt(s: State, a: SocketAddr, g: nat) {
    g < |s.tasks| && s.tasks[g].addr == a && Alive(s, g)
  }

  /** An address is cached if and only if a generation of it is running, about to send
      its Close, or has its Close queued or in flight; and then exactly one is. */
  lemma CachedIffOneAlive(s: State, a: SocketAddr)
    requires Reachable(s)
    ensures a in s.cache <==> exists g: nat :: AliveAt(s, a, g)
    ensures forall g: nat, h: nat :: AliveAt(s, a, g) && AliveAt(s, a, h) ==> g == h
  {
    ReachableInv(s);
    if a in s.cache {
      assert s.Current(s.cache[a].gen) && AliveAt(s, a, s.cache[a].gen);
    }
    forall g: nat | AliveAt(s, a, g) ensures a in s.cache && s.cache[a].gen == g {
      assert s.Current(g);
    }
  }

  /** A Close removes the peer it was sent for, never a newer one. */
  lemma CloseRemovesItsOwn(s: State, j: nat)
    requires Reachable(s) && Enabled(s, Remove(j))
    ensures var e := s.flight[j].event;
            e.addr in s.cache && s.cache[e.addr].gen == e.gen && e.addr !in Apply(s, Remove(j)).cache
  {
    ReachableInv(s);
    LifeAfterRemove(s, j);
  }

  /** While a Close is queued or being worked on, no later event of its address exists. */
  lemma CloseIsLast(s: State, p: nat, q: nat)
    requires Reachable(s) && p < q < |s.log| && s.log[p].Close? && s.log[q].addr == s.log[p].addr
    ensures p < s.started && !InTheAir(s, p)
  {
    ReachableInv(s);
    var g, h := s.log[p].gen, s.log[q].gen;
    assert InOrder(s.log[p], s.log[q]);
    assert s.tasks[g].phase == Exited(p) && g < h;
    assert s.Current(g) ==> h <= g;
  }

  // ---- Order ----

  /** What the peers of address a have put into the first n events. */
  ghost function SentBy(log: seq<Event>, n: nat, a: SocketAddr): seq<Packet>
    requires n <= |log|
  {
    if n == 0 then []
    else if log[n - 1].SendLan? && log[n - 1].addr == a then SentBy(log, n - 1, a) + [log[n - 1].msg.bytes]
    else SentBy(log, n - 1, a)
  }

  /** The virtual LAN traffic among the first m arrivals from address a. */
  ghost function TrafficOf(arrivals: seq<Arrival>, m: nat, a: SocketAddr): seq<Packet>
    requires m <= |arrivals|
  {
    if m == 0 then []
    else
      var x := arrivals[m - 1];
      if x.addr == a && IsDataDatagram(x.bytes) then TrafficOf(arrivals, m - 1, a) + [x.bytes]
      else TrafficOf(arrivals, m - 1, a)
  }

  ghost predicate Subsequence(xs: seq<Packet>, ys: seq<Packet>) {
    if xs == [] then true
    else if ys == [] then false
    else
      var x, y := xs[|xs| - 1], ys[|ys| - 1];
      (x == y && Subsequence(xs[..|xs| - 1], ys[..|ys| - 1])) || Subsequence(xs, ys[..|ys| - 1])
  }

  lemma {:induction false} SubsequenceGrows(xs: seq<Packet>, ys: seq<Packet>, y: Packet)
    requires Subsequence(xs, ys)
    ensures Subsequence(xs, ys + [y]) && Subsequence(xs + [y], ys + [y])
  {
    assert (ys + [y])[..|ys|] == ys && (xs + [y])[..|xs|] == xs;
  }

  ghost predicate AllBelow(log: seq<Event>, n: nat, a: SocketAddr, m: nat)
    requires n <= |log|
  {
    forall p :: 0 <= p < n && log[p].SendLan? && log[p].addr == a ==> log[p].msg.serial < m
  }

  /** Across generations, too, packets of one source are queued in arrival order. */
  lemma SameSourceInOrder(s: State, p: nat, q: nat)
    requires OrderOk(s) && p < q < |s.log| && s.log[p].SendLan? && s.log[q].SendLan? && s.log[p].addr == s.log[q].addr
    ensures s.log[p].msg.serial < s.log[q].msg.serial
  {
    var e, f := s.log[p], s.log[q];
    assert InOrder(e, f) && EventOk(s, e) && EventOk(s, f);
    if e.gen < f.gen {
      OlderGenerationEarlier(s, e.msg.serial, f.msg.serial);
    }
  }

  lemma OlderGenerationEarlier(s: State, i: nat, j: nat)
    requires ArrivalsOk(s) && i < |s.arrivals| && j < |s.arrivals|
    requires s.arrivals[i].addr == s.arrivals[j].addr && s.arrivals[i].gen < s.arrivals[j].gen
    ensures i < j
  {
  }

  /** The other packets of the source before event n were received before it. */
  lemma EarlierBelow(s: State, n: nat, a: SocketAddr)
    requires OrderOk(s) && n < |s.log| && s.log[n].SendLan? && s.log[n].addr == a
    ensures AllBelow(s.log, n, a, s.log[n].msg.serial)
    ensures AllBelow(s.log, n + 1, a, s.log[n].msg.serial + 1)
  {
    forall p | 0 <= p < n && s.log[p].SendLan? && s.log[p].addr == a ensures s.log[p].msg.serial < s.log[n].msg.serial {
      SameSourceInOrder(s, p, n);
    }
  }

  lemma EventIsArrival(s: State, p: nat)
    requires OrderOk(s) && p < |s.log| && s.log[p].SendLan?
    ensures var m := s.log[p].msg;
            && m.serial < |s.arrivals| && s.arrivals[m.serial].addr == s.log[p].addr
            && s.arrivals[m.serial].bytes == m.bytes && IsDataDatagram(m.bytes)
  {
    assert EventOk(s, s.log[p]);
  }

  lemma TrafficGrows(arrivals: seq<Arrival>, m: nat, a: SocketAddr, xs: seq<Packet>)
    requires 0 < m <= |arrivals| && Subsequence(xs, TrafficOf(arrivals, m - 1, a))
    ensures Subsequence(xs, TrafficOf(arrivals, m, a))
  {
    SubsequenceGrows(xs, TrafficOf(arrivals, m - 1, a), arrivals[m - 1].bytes);
  }

  lemma TrafficTaken(arrivals: seq<Arrival>, m: nat, a: SocketAddr, xs: seq<Packet>)
    requires 0 < m <= |arrivals| && Subsequence(xs, TrafficOf(arrivals, m - 1, a))
    requires arrivals[m - 1].addr == a && IsDataDatagram(arrivals[m - 1].bytes)
    ensures Subsequence(xs + [arrivals[m - 1].bytes], TrafficOf(arrivals, m, a))
  {
    SubsequenceGrows(xs, TrafficOf(arrivals, m - 1, a), arrivals[m - 1].bytes);
  }

  lemma {:induction false} SentSkips(s: State, n: nat, a: SocketAddr)
    requires 0 < n <= |s.log| && !(s.log[n - 1].SendLan? && s.log[n - 1].addr == a)
    ensures SentBy(s.log, n, a) == SentBy(s.log, n - 1, a)
  {
  }

  /** The last event of the source is the last arrival looked at. */
  lemma {:induction false} SentIsTaken(s: State, n: nat, m: nat, a: SocketAddr)
    requires OrderOk(s) && 0 < n <= |s.log| && 0 < m <= |s.arrivals|
    requires s.log[n - 1].SendLan? && s.log[n - 1].addr == a && s.log[n - 1].msg.serial == m - 1
    requires Subsequence(SentBy(s.log, n - 1, a), TrafficOf(s.arrivals, m - 1, a))
    ensures Subsequence(SentBy(s.log, n, a), TrafficOf(s.arrivals, m, a))
  {
    EventIsArrival(s, n - 1);
    TrafficTaken(s.arrivals, m, a, SentBy(s.log, n - 1, a));
  }

  lemma {:induction false} SentWithin(s: State, n: nat, m: nat, a: SocketAddr)
    requires OrderOk(s) && n <= |s.log| && m <= |s.arrivals| && AllBelow(s.log, n, a, m)
    ensures Subsequence(SentBy(s.log, n, a), TrafficOf(s.arrivals, m, a))
    decreases n + m
  {
    if n == 0 {
    } else if !s.log[n - 1].SendLan? || s.log[n - 1].addr != a {
      SentSkips(s, n, a);
      SentWithin(s, n - 1, m, a);
    } else {
      var serial := s.log[n - 1].msg.serial;
      EarlierBelow(s, n - 1, a);
      if serial < m - 1 {
        SentWithin(s, n, m - 1, a);
        TrafficGrows(s.arrivals, m, a, SentBy(s.log, n, a));
      } else {
        SentWithin(s, n - 1, m - 1, a);
        SentIsTaken(s, n, m, a);
      }
    }
  }

  /** Per source, the packets taken from the event queue are, byte for byte, a
      subsequence of the traffic received: nothing is invented, repeated or reordered. */
  lemma {:induction false} PerSourceOrder(s: State, a: SocketAddr)
    requires Reachable(s)
    ensures s.started <= |s.log|
    ensures Subsequence(SentBy(s.log, s.started, a), TrafficOf(s.arrivals, |s.arrivals|, a))
  {
    ReachableInv(s);
    forall p | 0 <= p < |s.log| && s.log[p].SendLan? ensures s.log[p].msg.serial < |s.arrivals| {
      assert EventOk(s, s.log[p]);
    }
    SentWithin(s, s.started, |s.arrivals|, a);
  }

  // ---- Accounting ----

  /** Every datagram that reached a peer is in exactly one place, or met exactly one of
      the four ends and is nowhere. */
  lemma ExactlyOnePlace(s: State, i: nat)
    requires Reachable(s) && i < |s.arrivals|
    ensures |s.places| == |s.arrivals|
    ensures if IsEnd(s.places[i]) then forall p :: i !in ContentsOf(s, p)
            else forall p :: i in ContentsOf(s, p) <==> p == s.places[i]
  {
    ReachableInv(s);
    forall p ensures i in ContentsOf(s, p) ==> !IsEnd(p) {
    }
  }

  /** Traffic is never absorbed: it is refused, waiting, held, queued, in flight, finished
      or thrown away with a dropped inbox. Anything else never gets past an inbox. */
  lemma EndsByKind(s: State, i: nat)
    requires Reachable(s) && i < |s.arrivals|
    ensures |s.places| == |s.arrivals|
    ensures IsDataDatagram(s.arrivals[i].bytes) ==> s.places[i] != Absorbed
    ensures !IsDataDatagram(s.arrivals[i].bytes) ==>
              s.places[i].Refused? || s.places[i].Inbox? || s.places[i].Discarded? || s.places[i].Absorbed?
  {
    ReachableInv(s);
    assert !IsEnd(s.places[i]) ==> i in ContentsOf(s, s.places[i]);
    match s.places[i]
    case Held(g) =>
      assert TaskOk(s, g);
    case Queued =>
      var p :| s.started <= p < |s.log| && s.log[p].SendLan? && s.log[p].msg.serial == i;
      EventIsArrival(s, p);
    case InFlight =>
      var j :| 0 <= j < |s.flight| && s.flight[j].event.SendLan? && s.flight[j].event.msg.serial == i;
      EventIsArrival(s, s.flight[j].at);
    case _ =>
  }

  /** And it is there once: no place holds a datagram twice. */
  lemma NothingTwice(s: State, g: nat, k: nat, l: nat)
    requires Reachable(s) && k < l
    ensures g < |s.tasks| && l < |s.tasks[g].inbox| ==> s.tasks[g].inbox[k].serial != s.tasks[g].inbox[l].serial
    ensures l < |s.log| && s.log[k].SendLan? && s.log[l].SendLan? ==> s.log[k].msg.serial != s.log[l].msg.serial
    ensures l < |s.flight| && s.flight[k].event.SendLan? && s.flight[l].event.SendLan? ==>
              s.flight[k].event.msg.serial != s.flight[l].event.msg.serial
    ensures l < |s.delivered| ==> s.delivered[k].msg.serial != s.delivered[l].msg.serial
  {
    ReachableInv(s);
    if g < |s.tasks| { assert TaskOk(s, g); }
    if l < |s.log| && s.log[k].SendLan? && s.log[l].SendLan? { LogDistinct(s, k, l); }
    if l < |s.flight| && s.flight[k].event.SendLan? && s.flight[l].event.SendLan? { LandingIsAlone(s, k, l); }
  }

  /** The channels never hold more than they were made for. */
  lemma Bounds(s: State)
    requires Reachable(s)
    ensures forall g :: 0 <= g < |s.tasks| ==> |s.tasks[g].inbox| <= 10
    ensures s.started <= |s.log| && |s.Queue()| <= 100
    ensures |s.flight| <= 4
  {
    ReachableInv(s);
    forall g | 0 <= g < |s.tasks| ensures |s.tasks[g].inbox| <= 10 {
      assert TaskOk(s, g);
    }
  }

  /** What a peer task takes from its inbox always parses, so the task never ends on a
      parse error. */
  lemma InboxParses(s: State, g: nat, k: nat)
    requires Reachable(s) && g < |s.tasks| && k < |s.tasks[g].inbox|
    ensures ReachesPeer(s.tasks[g].inbox[k].bytes)
  {
    ReachableInv(s);
    assert TaskOk(s, g);
  }

  // ---- Times, routes, deliveries ----

  /** In every reachable state a connected peer's time is that of its generation's last
      traffic, or its birth; and it is idle exactly if another frame of it came 300
      seconds or more after that, so that much time has passed since. */
  lemma PeerStateTellsTime(s: State, a: SocketAddr)
    requires Reachable(s) && a in s.cache
    ensures s.cache[a].gen < |s.tasks|
    ensures var last := LastData(s.arrivals, s.cache[a].gen, s.tasks[s.cache[a].gen].born);
            && (s.cache[a].state.Connected? ==> s.cache[a].state.since == last)
            && (s.cache[a].state.Idle? <==> WentIdle(s.arrivals, s.cache[a].gen, last))
            && (s.cache[a].state.Idle? ==> s.now >= last + 300_000_000_000)
  {
    ReachableInv(s);
    if s.cache[a].state.Idle? { IdleMeansQuiet(s, a); }
  }

  /** In every reachable state the table maps an address to its last claimant in the
      history of routed packets, who once was a cached peer sending traffic from it. */
  lemma {:induction false} TableIsHistory(s: State, ip: Ipv4Addr)
    requires Reachable(s)
    ensures (if ip in s.table then Some(s.table[ip]) else None) == LastClaim(s.routes, ip)
    ensures ip in s.table ==> Earned(s, ip, s.table[ip])
  {
    ReachableInv(s);
    if ip in s.table { LastClaimIsRoute(s.routes, ip); }
  }

  lemma {:induction false} LastClaimIsRoute(routes: seq<Claim>, ip: Ipv4Addr)
    ensures LastClaim(routes, ip).Some? ==>
              exists r :: 0 <= r < |routes| && routes[r].ip == ip && routes[r].addr == LastClaim(routes, ip).value
  {
    if routes != [] && routes[|routes| - 1].ip != ip {
      LastClaimIsRoute(routes[..|routes| - 1], ip);
    }
  }

  /** Deliveries are of received traffic, unchanged, and each datagram is delivered at most once. */
  lemma DeliveriesGenuine(s: State)
    requires Reachable(s)
    ensures DeliveredOk(s)
  {
    ReachableInv(s);
  }

  /** In every reachable state each delivery went where the routes learned up to its own
      say: to the last claimant of its destination alone, or, had nobody claimed it, to
      exactly the peers cached when it was routed, its sender excepted and, when idle
      peers are ignored, those too. */
  lemma DeliveriesWellAddressed(s: State, n: nat)
    requires Reachable(s) && n < |s.delivered|
    ensures WellDelivered(s, s.delivered[n])
    ensures forall c, a :: c in s.routes && a in c.peers ==> Heard(s.arrivals, a)
  {
    ReachableInv(s);
  }
}
