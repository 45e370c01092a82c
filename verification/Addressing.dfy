/** Where delivered packets went, told from the histories alone. */
module Addressing {
  import opened Basics
  import opened Frame
  import opened Protocol
  import opened Lifecycle
  import opened Ordering
  import opened Routing

  /** Address a once sent something to a peer of its own. */
  ghost predicate Heard(arrivals: seq<Arrival>, a: SocketAddr) {
    exists i :: 0 <= i < |arrivals| && arrivals[i].addr == a
  }

  /** Everyone a packet without a known destination goes to. */
  function Others(peers: map<SocketAddr, Peer>, ignoreIdle: bool, from: SocketAddr): set<SocketAddr> {
    set a | a in peers && a != from && (ignoreIdle ==> peers[a].state.Connected?)
  }

  /** The packet was routed as number r, and went where the claims up to its own say: to
      the last claimant of its destination, or else to exactly the peers cached at that
      moment but its sender, connected ones only when idle ones are ignored. */
  ghost predicate RoutedAs(s: State, r: nat, from: SocketAddr, out: OutAddr, dests: set<SocketAddr>) {
    && r < |s.routes| && s.routes[r].ip == out.srcIp && s.routes[r].addr == from
    && match LastClaim(s.routes[..r + 1], out.dstIp)
       case Some(a) => dests == {a}
       case None => dests == Others(s.routes[r].peers, s.ignoreIdle, from)
  }

  ghost predicate Addressed(s: State, from: SocketAddr, out: OutAddr, dests: set<SocketAddr>) {
    exists r: nat :: RoutedAs(s, r, from, out, dests)
  }

  /** A delivery went where its own bytes and its own sender say. */
  ghost predicate WellDelivered(s: State, d: Delivery) {
    && d.msg.serial < |s.arrivals| && IsDataDatagram(d.msg.bytes)
    && Addressed(s, s.arrivals[d.msg.serial].addr, Parse(d.msg.bytes).value.OutAddrOf(), d.dests)
  }

  ghost predicate FlightAddressed(s: State, f: Flight) {
    f.event.SendLan? && f.stage.Routed? ==> Addressed(s, f.event.addr, f.event.out, f.stage.dests)
  }

  ghost predicate AddressesOk(s: State) {
    && (forall a :: a in s.cache ==> Heard(s.arrivals, a))
    && (forall c, a :: c in s.routes && a in c.peers ==> Heard(s.arrivals, a))
    && (forall f :: f in s.flight ==> FlightAddressed(s, f))
    && (forall d :: d in s.delivered ==> WellDelivered(s, d))
  }

  ghost predicate Grows(s: State, t: State) {
    s.routes <= t.routes && s.arrivals <= t.arrivals && t.ignoreIdle == s.ignoreIdle
  }

  lemma HeardStays(s: State, t: State, a: SocketAddr)
    requires Heard(s.arrivals, a) && s.arrivals <= t.arrivals
    ensures Heard(t.arrivals, a)
  {
    var i :| 0 <= i < |s.arrivals| && s.arrivals[i].addr == a;
    assert t.arrivals[i].addr == a;
  }

  /** Later claims and arrivals do not change where a packet went. */
  lemma AddressedStays(s: State, t: State, from: SocketAddr, out: OutAddr, dests: set<SocketAddr>)
    requires Addressed(s, from, out, dests) && Grows(s, t)
    ensures Addressed(t, from, out, dests)
  {
    var r: nat :| RoutedAs(s, r, from, out, dests);
    assert t.routes[..r + 1] == s.routes[..r + 1];
    assert RoutedAs(t, r, from, out, dests);
  }

  lemma WellDeliveredStays(s: State, t: State, d: Delivery)
    requires WellDelivered(s, d) && Grows(s, t)
    ensures WellDelivered(t, d)
  {
    AddressedStays(s, t, s.arrivals[d.msg.serial].addr, Parse(d.msg.bytes).value.OutAddrOf(), d.dests);
  }

  lemma FlightAddressedStays(s: State, t: State, f: Flight)
    requires FlightAddressed(s, f) && Grows(s, t)
    ensures FlightAddressed(t, f)
  {
    if f.event.SendLan? && f.stage.Routed? {
      AddressedStays(s, t, f.event.addr, f.event.out, f.stage.dests);
    }
  }

  /** Nothing is newly routed or delivered, and new peers have been heard. */
  ghost predicate NothingAddressed(s: State, t: State) {
    && Grows(s, t) && t.routes == s.routes
    && (forall a :: a in t.cache ==> a in s.cache || Heard(t.arrivals, a))
    && (forall f :: f in t.flight ==> f in s.flight || f.stage.Started?)
    && (forall d :: d in t.delivered ==> d in s.delivered)
  }

  lemma AddressesFrame(s: State, t: State)
    requires AddressesOk(s) && NothingAddressed(s, t)
    ensures AddressesOk(t)
  {
    forall a | a in t.cache ensures Heard(t.arrivals, a) {
      if a in s.cache { HeardStays(s, t, a); }
    }
    forall c, a | c in t.routes && a in c.peers ensures Heard(t.arrivals, a) {
      HeardStays(s, t, a);
    }
    forall f | f in t.flight ensures FlightAddressed(t, f) {
      if f in s.flight { FlightAddressedStays(s, t, f); }
    }
    forall d | d in t.delivered ensures WellDelivered(t, d) {
      WellDeliveredStays(s, t, d);
    }
  }

  lemma ReceiveAddressesNothing(s: State, addr: SocketAddr, bytes: Packet)
    requires Enabled(s, Receive(addr, bytes))
    ensures NothingAddressed(s, Apply(s, Receive(addr, bytes)))
  {
    var t := Apply(s, Receive(addr, bytes));
    if ReachesPeer(bytes) {
      assert t.arrivals[|s.arrivals|].addr == addr;
    }
  }

  lemma QuietStepAddressesNothing(s: State, step: Step)
    requires Enabled(s, step) && !step.Receive? && !step.Route? && !step.Finish?
    ensures NothingAddressed(s, Apply(s, step))
  {
    var t := Apply(s, step);
    assert t.arrivals == s.arrivals && t.routes == s.routes && t.delivered == s.delivered;
    assert t.cache.Keys <= s.cache.Keys && t.ignoreIdle == s.ignoreIdle;
  }

  /** Routing sends a packet where the history, with its own claim, says. */
  lemma RouteAddresses(s: State, j: nat)
    requires RoutesOk(s) && AddressesOk(s) && Enabled(s, Route(j))
    ensures var e := s.flight[j].event; Addressed(Apply(s, Route(j)), e.addr, e.out, Destinations(s, e.addr, e.out))
  {
    var t, e, r := Apply(s, Route(j)), s.flight[j].event, |s.routes|;
    var dests := Destinations(s, e.addr, e.out);
    DestinationSet(s, e.addr, e.out);
    assert t.routes == s.routes + [Claim(e.out.srcIp, e.addr, s.cache)];
    assert t.routes[..r + 1] == t.routes;
    assert RoutedAs(t, r, e.addr, e.out, dests);
  }

  /** The cached peers have been heard, so they may be recorded in a claim. */
  lemma ClaimRecorded(s: State, t: State, c: Claim)
    requires AddressesOk(s) && c.peers == s.cache && t == s.(routes := s.routes + [c], table := t.table)
    ensures AddressesOk(t)
  {
    forall f | f in t.flight ensures FlightAddressed(t, f) {
      FlightAddressedStays(s, t, f);
    }
    forall d | d in t.delivered ensures WellDelivered(t, d) {
      WellDeliveredStays(s, t, d);
    }
  }

  lemma AddressesAfterRoute(s: State, j: nat)
    requires RoutesOk(s) && AddressesOk(s) && Enabled(s, Route(j))
    ensures AddressesOk(Apply(s, Route(j)))
  {
    var t, e := Apply(s, Route(j)), s.flight[j].event;
    var back := t.(flight := s.flight);
    ClaimRecorded(s, back, Claim(e.out.srcIp, e.addr, s.cache));
    RouteAddresses(s, j);
    assert t.flight == s.flight[j := s.flight[j].(stage := Routed(Destinations(s, e.addr, e.out)))];
    FlightsReplaced(back, t, j);
  }

  /** One flight changes and is well addressed. */
  lemma FlightsReplaced(s: State, t: State, j: nat)
    requires AddressesOk(s) && j < |s.flight| && |t.flight| == |s.flight|
    requires t == s.(flight := t.flight) && t.flight == s.flight[j := t.flight[j]] && FlightAddressed(t, t.flight[j])
    ensures AddressesOk(t)
  {
    forall f | f in t.flight ensures FlightAddressed(t, f) {
      if f in s.flight { FlightAddressedStays(s, t, f); }
    }
    forall d | d in t.delivered ensures WellDelivered(t, d) {
      WellDeliveredStays(s, t, d);
    }
  }

  /** A routed flight of a genuine packet may become a delivery. */
  lemma FinishIsWellDelivered(s: State, j: nat)
    requires AddressesOk(s) && FlightOk(s) && OrderOk(s)
    requires j < |s.flight| && s.flight[j].event.SendLan? && s.flight[j].stage.Routed?
    ensures WellDelivered(s, Delivery(s.flight[j].event.msg, s.flight[j].stage.dests))
  {
    assert FlightAddressed(s, s.flight[j]) && EventOk(s, s.log[s.flight[j].at]);
  }

  lemma AddressesAfterDelivery(s: State, t: State, d: Delivery)
    requires AddressesOk(s) && WellDelivered(s, d) && t == s.(delivered := s.delivered + [d])
    ensures AddressesOk(t)
  {
    forall x | x in t.delivered ensures WellDelivered(t, x) {
      WellDeliveredStays(s, t, x);
    }
    forall g | g in t.flight ensures FlightAddressed(t, g) {
      FlightAddressedStays(s, t, g);
    }
  }

  lemma FinishAddressesNothingElse(s: State, j: nat, vetoed: bool)
    requires Enabled(s, Finish(j, vetoed))
    ensures var d := Delivery(s.flight[j].event.msg, s.flight[j].stage.dests);
            NothingAddressed(s.(delivered := s.delivered + [d]), Apply(s, Finish(j, vetoed)))
  {
  }

  lemma AddressesAfterFinish(s: State, j: nat, vetoed: bool)
    requires AddressesOk(s) && FlightOk(s) && OrderOk(s) && Enabled(s, Finish(j, vetoed))
    ensures AddressesOk(Apply(s, Finish(j, vetoed)))
  {
    var d := Delivery(s.flight[j].event.msg, s.flight[j].stage.dests);
    var more := s.(delivered := s.delivered + [d]);
    FinishIsWellDelivered(s, j);
    AddressesAfterDelivery(s, more, d);
    FinishAddressesNothingElse(s, j, vetoed);
    AddressesFrame(more, Apply(s, Finish(j, vetoed)));
  }

  /** Every step keeps packets well addressed. */
  lemma AddressesKept(s: State, step: Step)
    requires AddressesOk(s) && LifeOk(s) && OrderOk(s) && RoutesOk(s) && Enabled(s, step)
    ensures AddressesOk(Apply(s, step))
  {
    match step
    case Receive(addr, bytes) =>
      ReceiveAddressesNothing(s, addr, bytes);
      AddressesFrame(s, Apply(s, step));
    case Route(j) => AddressesAfterRoute(s, j);
    case Finish(j, vetoed) => AddressesAfterFinish(s, j, vetoed);
    case _ =>
      QuietStepAddressesNothing(s, step);
      AddressesFrame(s, Apply(s, step));
  }
}
