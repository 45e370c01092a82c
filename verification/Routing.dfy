/** The learned routes and where packets go. */
module Routing {
  import opened Basics
  import opened Frame
  import opened Protocol
  import opened Lifecycle
  import opened Ordering
  import opened Accounting

  /** Who claimed a virtual address last. */
  function LastClaim(routes: seq<Claim>, ip: Ipv4Addr): Option<SocketAddr> {
    if routes == [] then None
    else if routes[|routes| - 1].ip == ip then Some(routes[|routes| - 1].addr)
    else LastClaim(routes[..|routes| - 1], ip)
  }

  /** Address a sent traffic with source ip, so it was a cached peer then. */
  ghost predicate SentFrom(s: State, ip: Ipv4Addr, a: SocketAddr, i: nat) {
    && i < |s.arrivals| && s.arrivals[i].addr == a && IsDataDatagram(s.arrivals[i].bytes)
    && Parse(s.arrivals[i].bytes).value.OutAddrOf().srcIp == ip
  }

  ghost predicate Earned(s: State, ip: Ipv4Addr, a: SocketAddr) {
    exists i: nat :: SentFrom(s, ip, a, i)
  }

  lemma EarnedStays(s: State, t: State, ip: Ipv4Addr, a: SocketAddr)
    requires Earned(s, ip, a) && s.arrivals <= t.arrivals
    ensures Earned(t, ip, a)
  {
    var i: nat :| SentFrom(s, ip, a, i);
    assert SentFrom(t, ip, a, i);
  }

  /** The routing table is the history of routed packets, and each route was earned. */
  ghost predicate RoutesOk(s: State) {
    && (forall ip :: (if ip in s.table then Some(s.table[ip]) else None) == LastClaim(s.routes, ip))
    && (forall r :: 0 <= r < |s.routes| ==> Earned(s, s.routes[r].ip, s.routes[r].addr))
  }

  lemma RoutesFrame(s: State, t: State)
    requires RoutesOk(s) && t.routes == s.routes && t.table == s.table && s.arrivals <= t.arrivals
    ensures RoutesOk(t)
  {
    forall r | 0 <= r < |t.routes| ensures Earned(t, t.routes[r].ip, t.routes[r].addr) {
      EarnedStays(s, t, s.routes[r].ip, s.routes[r].addr);
    }
  }

  lemma {:induction false} TableAfterRoute(s: State, j: nat, ip: Ipv4Addr)
    requires RoutesOk(s) && Enabled(s, Route(j))
    ensures var t := Apply(s, Route(j)); (if ip in t.table then Some(t.table[ip]) else None) == LastClaim(t.routes, ip)
  {
    var t, e := Apply(s, Route(j)), s.flight[j].event;
    assert t.table == s.table[e.out.srcIp := e.addr];
    assert t.routes[..|s.routes|] == s.routes;
    assert (if ip in s.table then Some(s.table[ip]) else None) == LastClaim(s.routes, ip);
  }

  lemma EarnedAfterRoute(s: State, j: nat)
    requires FlightOk(s) && EventsOk(s) && Enabled(s, Route(j))
    ensures Earned(s, s.flight[j].event.out.srcIp, s.flight[j].event.addr)
  {
    var e := s.flight[j].event;
    assert EventOk(s, s.log[s.flight[j].at]);
    assert SentFrom(s, e.out.srcIp, e.addr, e.msg.serial);
  }

  lemma RoutesAfterRoute(s: State, j: nat)
    requires RoutesOk(s) && FlightOk(s) && EventsOk(s) && Enabled(s, Route(j))
    ensures RoutesOk(Apply(s, Route(j)))
  {
    var t, e := Apply(s, Route(j)), s.flight[j].event;
    assert t.arrivals == s.arrivals && t.routes == s.routes + [Claim(e.out.srcIp, e.addr, s.cache)];
    EarnedAfterRoute(s, j);
    forall ip ensures (if ip in t.table then Some(t.table[ip]) else None) == LastClaim(t.routes, ip) {
      TableAfterRoute(s, j, ip);
    }
    forall r | 0 <= r < |t.routes| ensures Earned(t, t.routes[r].ip, t.routes[r].addr) {
      EarnedStays(s, t, t.routes[r].ip, t.routes[r].addr);
    }
  }

  /** Every step keeps the table equal to the history. */
  lemma RoutesKept(s: State, step: Step)
    requires RoutesOk(s) && LifeOk(s) && OrderOk(s) && Enabled(s, step)
    ensures RoutesOk(Apply(s, step))
  {
    if step.Route? {
      RoutesAfterRoute(s, step.index);
    } else {
      OnlyRouteChangesRoutes(s, step);
      RoutesFrame(s, Apply(s, step));
    }
  }

  lemma OnlyRouteChangesRoutes(s: State, step: Step)
    requires Enabled(s, step) && !step.Route?
    ensures Apply(s, step).routes == s.routes && Apply(s, step).table == s.table
    ensures s.arrivals <= Apply(s, step).arrivals
  {
    match step
    case Tick(_) =>
    case Receive(addr, bytes) => ReceiveKeepsRoutes(s, addr, bytes);
    case Dequeue(_) =>
    case Enqueue(_) =>
    case GiveUp(_) =>
    case DropInbox(_) =>
    case SendClose(_) =>
    case Start =>
    case Remove(_) =>
    case Finish(_, _) =>
  }

  lemma ReceiveKeepsRoutes(s: State, addr: SocketAddr, bytes: Packet)
    requires Enabled(s, Receive(addr, bytes))
    ensures var t := Apply(s, Receive(addr, bytes));
            t.routes == s.routes && t.table == s.table && s.arrivals <= t.arrivals
  {
  }

  /** A route once learned never goes away, whatever happens to the peer. */
  lemma RoutesNeverForgotten(s: State, step: Step)
    requires Enabled(s, step)
    ensures s.table.Keys <= Apply(s, step).table.Keys
  {
    if !step.Route? {
      OnlyRouteChangesRoutes(s, step);
    }
  }

  lemma {:induction false} RunKeepsRoutes(s: State, steps: seq<Step>)
    ensures s.table.Keys <= Run(s, steps).table.Keys
  {
    if steps == [] {
    } else {
      var prev, step := Run(s, steps[..|steps| - 1]), steps[|steps| - 1];
      RunKeepsRoutes(s, steps[..|steps| - 1]);
      if Enabled(prev, step) {
        RoutesNeverForgotten(prev, step);
      }
    }
  }

  /** Where a packet goes: to the last claimant of its destination, the sender itself
      included; or, when nobody ever claimed it, to every cached peer but the sender,
      idle ones excepted when they are to be ignored. */
  lemma DestinationSet(s: State, from: SocketAddr, out: OutAddr)
    requires RoutesOk(s)
    ensures match LastClaim(s.routes + [Claim(out.srcIp, from, s.cache)], out.dstIp)
            case Some(a) => Destinations(s, from, out) == {a}
            case None =>
              forall a :: a in Destinations(s, from, out) <==>
                a in s.cache && a != from && (s.ignoreIdle ==> s.cache[a].state.Connected?)
    ensures out.dstIp == out.srcIp ==> Destinations(s, from, out) == {from}
  {
    var routes := s.routes + [Claim(out.srcIp, from, s.cache)];
    assert routes[..|s.routes|] == s.routes;
    assert (if out.dstIp in s.table then Some(s.table[out.dstIp]) else None) == LastClaim(s.routes, out.dstIp);
  }

  /** Once learned, a destination is never flooded again: whatever steps come next,
      a packet to it has exactly one addressee. */
  lemma {:induction false} LearnedIsNotFlooded(s: State, steps: seq<Step>, from: SocketAddr, out: OutAddr)
    requires out.dstIp in s.table
    ensures |Destinations(Run(s, steps), from, out)| == 1
  {
    RunKeepsRoutes(s, steps);
  }

  // ---- Deliveries ----

  /** Each delivery is of a finished datagram, unchanged, and none is delivered twice. */
  ghost predicate DeliveredOk(s: State) {
    && |s.places| == |s.arrivals|
    && (forall d :: 0 <= d < |s.delivered| ==>
          var m := s.delivered[d].msg;
          && m.serial < |s.arrivals| && s.places[m.serial] == Finished
          && m.bytes == s.arrivals[m.serial].bytes && IsDataDatagram(m.bytes))
    && (forall d, e :: 0 <= d < e < |s.delivered| ==> s.delivered[d].msg.serial != s.delivered[e].msg.serial)
  }

  lemma DeliveredFrame(s: State, t: State)
    requires DeliveredOk(s) && t.delivered == s.delivered && s.arrivals <= t.arrivals
    requires EndsStay(s, t) && |t.places| == |t.arrivals|
    ensures DeliveredOk(t)
  {
  }

  lemma OnlyFinishDelivers(s: State, step: Step)
    requires Enabled(s, step) && !step.Finish?
    ensures Apply(s, step).delivered == s.delivered && s.arrivals <= Apply(s, step).arrivals
  {
    if step.Route? {
    } else {
      OnlyRouteChangesRoutes(s, step);
    }
  }

  /** A finished datagram is newly delivered, or vetoed. */
  ghost predicate Delivers(s: State, t: State, d: Delivery) {
    && |s.places| == |s.arrivals| && d.msg.serial < |s.arrivals| && s.places[d.msg.serial] == InFlight
    && d.msg.bytes == s.arrivals[d.msg.serial].bytes && IsDataDatagram(d.msg.bytes)
    && t.arrivals == s.arrivals && t.places == s.places[d.msg.serial := Finished]
    && (t.delivered == s.delivered || t.delivered == s.delivered + [d])
  }

  lemma FinishDelivers(s: State, j: nat, vetoed: bool)
    requires LifeOk(s) && OrderOk(s) && PlacesOk(s) && Enabled(s, Finish(j, vetoed))
    ensures Delivers(s, Apply(s, Finish(j, vetoed)), Delivery(s.flight[j].event.msg, s.flight[j].stage.dests))
  {
    var e := s.flight[j].event;
    assert EventOk(s, s.log[s.flight[j].at]);
    assert e.msg.serial in ContentsOf(s, InFlight);
  }

  lemma DeliveredAfterFinish(s: State, t: State, d: Delivery)
    requires DeliveredOk(s) && Delivers(s, t, d)
    ensures DeliveredOk(t)
  {
  }

  /** Every step keeps deliveries genuine and single. */
  lemma DeliveredKept(s: State, step: Step)
    requires DeliveredOk(s) && LifeOk(s) && OrderOk(s) && PlacesOk(s) && Enabled(s, step)
    requires PlacesOk(Apply(s, step)) && EndsStay(s, Apply(s, step))
    ensures DeliveredOk(Apply(s, step))
  {
    if step.Finish? {
      var f := s.flight[step.index];
      FinishDelivers(s, step.index, step.vetoed);
      DeliveredAfterFinish(s, Apply(s, step), Delivery(f.event.msg, f.stage.dests));
    } else {
      OnlyFinishDelivers(s, step);
      DeliveredFrame(s, Apply(s, step));
    }
  }
}
