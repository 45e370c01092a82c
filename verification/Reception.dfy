/** The receive task with its plugins: each datagram goes through both before the server
    gets it, their verdicts change nothing, and a panic ends the task for good. */
module Reception {
  import opened Basics
  import opened Frame
  import opened Assembly
  import opened FragParser
  import opened FragRuns
  import opened Plugins
  import opened Crashing
  import opened Protocol
  import opened PeerTimes
  import opened Histories
  import opened Server

  /** The task, the server's state and what the plugins keep. */
  datatype Scene = Scene(
    running: bool, server: State,
    blocker: Cache, rules: seq<RuleText.Rule>, ldn: Cache, rooms: RoomTable)

  /** Something that happens: a datagram comes in, with the order the plugins are called in;
      the socket fails; the rules are set; the timer clears the rooms; or another step of
      the server. */
  datatype Act =
    | Datagram(addr: SocketAddr, bytes: Packet, blockerFirst: bool)
    | Fail
    | SetRules(rules: seq<RuleText.Rule>)
    | Sweep
    | Other(step: Step)

  type Peel = Packet -> Option<Packet>

  /** The plugins get the datagram one after the other; a panic ends the task at once. */
  function PluginsCalled(s: Scene, bytes: Packet, blockerFirst: bool, peel: Peel): Scene {
    var (blocker, seen) := Inspect(s.blocker, bytes);
    var (ldn, met) := Inspect(s.ldn, bytes);
    var rooms := RoomUpdate(s.rooms, met, peel);
    if blockerFirst && seen.Crash? then s.(running := false, blocker := blocker)
    else if !blockerFirst && met.Crash? then s.(running := false, ldn := ldn)
    else s.(running := !seen.Crash? && !met.Crash?, blocker := blocker, ldn := ldn, rooms := rooms)
  }

  /** One turn of the receive loop. */
  function Turned(s: Scene, addr: SocketAddr, bytes: Packet, blockerFirst: bool, peel: Peel): Scene {
    var called := PluginsCalled(s, bytes, blockerFirst, peel);
    if !s.running then s
    else if !called.running then called
    else called.(server := Taken(s.server, Receive(addr, bytes)))
  }

  /** A step if it can happen. */
  function Taken(s: State, step: Step): State {
    if Enabled(s, step) then Apply(s, step) else s
  }

  function Done(s: Scene, act: Act, peel: Peel): Scene {
    match act
    case Datagram(addr, bytes, blockerFirst) => Turned(s, addr, bytes, blockerFirst, peel)
    case Fail => s.(running := false)
    case SetRules(rules) => s.(rules := rules)
    case Sweep => s.(rooms := map[])
    case Other(step) => if step.Receive? then s else s.(server := Taken(s.server, step))
  }

  function AllDone(s: Scene, acts: seq<Act>, peel: Peel): Scene {
    if acts == [] then s else Done(AllDone(s, acts[..|acts| - 1], peel), acts[|acts| - 1], peel)
  }

  function Opening(ignoreIdle: bool, now: Instant): Scene {
    Scene(true, Init(ignoreIdle, now), EMPTY, [], EMPTY, map[])
  }

  class ReceiveTask {
    const server: UDPServer
    const blocker: BlockerPlugin
    const ldn: LdnMitmPlugin
    var running: bool

    ghost predicate Valid()
      reads this, server, server.peers, blocker.parser.cache, ldn, ldn.parser.cache
    {
      server.Valid() && blocker.Valid() && ldn.Valid() && blocker.parser.cache != ldn.parser.cache
    }

    ghost function View(): Scene
      reads this, server, server.peers, blocker, blocker.parser.cache, ldn, ldn.parser.cache
    {
      Scene(running, server.View(), blocker.parser.Model(), blocker.rules, ldn.parser.Model(), ldn.roomInfo)
    }

    constructor (ignoreIdle: bool, now: Instant, checked: Packet -> bool, hit: Hit, peel: Peel)
      ensures Valid() && View() == Opening(ignoreIdle, now) && ldn.peel == peel
    {
      running := true;
      server := new UDPServer(ignoreIdle, now);
      blocker := new BlockerPlugin(checked, hit);
      ldn := new LdnMitmPlugin(peel);
    }

    /** The verdicts are not acted on; only a panic is felt. */
    method CallPlugins(bytes: Packet, blockerFirst: bool)
      requires Valid() && running
      modifies this, blocker.parser.cache, ldn, ldn.parser.cache
      ensures Valid() && View() == PluginsCalled(old(View()), bytes, blockerFirst, ldn.peel)
    {
      var first, second := Pass, Pass;
      if blockerFirst {
        first := blocker.InPacket(bytes);
        if first != Panic { second := ldn.InPacket(bytes); }
      } else {
        first := ldn.InPacket(bytes);
        if first != Panic { second := blocker.InPacket(bytes); }
      }
      running := first != Panic && second != Panic;
    }

    /** A datagram comes in. */
    method Turn(addr: SocketAddr, bytes: Packet, blockerFirst: bool) returns (echo: Option<Packet>)
      requires Valid()
      modifies this, server, server.peers, blocker.parser.cache, ldn, ldn.parser.cache
      ensures Valid() && View() == Turned(old(View()), addr, bytes, blockerFirst, ldn.peel)
      ensures echo == if running && Parse(bytes).Ok? && Parse(bytes).value.Ping? then Some(bytes) else None
    {
      echo := None;
      if running {
        CallPlugins(bytes, blockerFirst);
        if running {
          assert Enabled(server.View(), Step.Receive(addr, bytes));
          echo := server.Receive(addr, bytes);
        }
      }
    }

    /** Another step of the server, if it can happen. */
    method Attempt(step: Step)
      requires Valid()
      modifies server, server.peers
      ensures Valid() && View() == old(View()).(server := Taken(old(server.View()), step))
    {
      var can := server.CanHappen(step);
      if can {
        server.Perform(step);
      }
    }

    method Do(act: Act)
      requires Valid()
      modifies this, server, server.peers, blocker, blocker.parser.cache, ldn, ldn.parser.cache
      ensures Valid() && View() == Done(old(View()), act, ldn.peel)
    {
      match act {
        case Datagram(addr, bytes, blockerFirst) => var _ := Turn(addr, bytes, blockerFirst);
        case Fail => running := false;
        case SetRules(rules) => blocker.SetBlockRules(rules);
        case Sweep => ldn.Clear();
        case Other(step) =>
          if !step.Receive? {
            Attempt(step);
          }
      }
    }

    /** Anything at all that happens: the object goes through the scenes of its acts. */
    method Drive(acts: seq<Act>)
      requires Valid()
      modifies this, server, server.peers, blocker, blocker.parser.cache, ldn, ldn.parser.cache
      ensures Valid() && View() == AllDone(old(View()), acts, ldn.peel)
    {
      for k := 0 to |acts|
        invariant Valid() && View() == AllDone(old(View()), acts[..k], ldn.peel)
      {
        assert acts[..k + 1][..k] == acts[..k];
        Do(acts[k]);
      }
      assert acts[..|acts|] == acts;
    }
  }

  // ---- Whole runs ----

  function Datagrams(acts: seq<Act>): seq<Packet> {
    if acts == [] then []
    else
      var prev, act := acts[..|acts| - 1], acts[|acts| - 1];
      if act.Datagram? then Datagrams(prev) + [act.bytes] else Datagrams(prev)
  }

  lemma CacheAfterSnoc(c: Cache, ds: seq<Packet>, d: Packet)
    ensures CacheAfter(c, ds + [d]) == Inspect(CacheAfter(c, ds), d).0
  {
    assert (ds + [d])[..|ds|] == ds;
  }

  /** A turn of a running task whose plugins have the same fragments. */
  lemma OneTurn(s: Scene, addr: SocketAddr, bytes: Packet, blockerFirst: bool, peel: Peel)
    requires s.running && s.blocker == s.ldn
    ensures var t := Turned(s, addr, bytes, blockerFirst, peel);
            && (t.running <==> !Inspect(s.ldn, bytes).1.Crash?)
            && (t.running ==> t.blocker == t.ldn == Inspect(s.ldn, bytes).0)
  {
  }

  lemma EndedStaysEnded(s: Scene, act: Act, peel: Peel)
    requires Done(s, act, peel).running
    ensures s.running
  {
  }

  /** As long as the task runs, both plugins have the fragments of all datagrams. */
  lemma {:induction false} PluginsAgree(ignoreIdle: bool, now: Instant, acts: seq<Act>, peel: Peel)
    requires AllDone(Opening(ignoreIdle, now), acts, peel).running
    ensures var s := AllDone(Opening(ignoreIdle, now), acts, peel);
            s.blocker == s.ldn == CacheAfter(EMPTY, Datagrams(acts))
  {
    if acts == [] {
    } else {
      var prev, act := acts[..|acts| - 1], acts[|acts| - 1];
      var s := AllDone(Opening(ignoreIdle, now), prev, peel);
      EndedStaysEnded(s, act, peel);
      PluginsAgree(ignoreIdle, now, prev, peel);
      if act.Datagram? {
        OneTurn(s, act.addr, act.bytes, act.blockerFirst, peel);
        CacheAfterSnoc(EMPTY, Datagrams(prev), act.bytes);
      }
    }
  }

  /** The rooms announced since the timer last cleared the table. */
  function RoomsOf(acts: seq<Act>, peel: Peel): RoomTable {
    if acts == [] then map[]
    else
      var prev := acts[..|acts| - 1];
      match acts[|acts| - 1]
      case Datagram(_, bytes, _) =>
        RoomUpdate(RoomsOf(prev, peel), Inspect(CacheAfter(EMPTY, Datagrams(prev)), bytes).1, peel)
      case Sweep => map[]
      case _ => RoomsOf(prev, peel)
  }

  lemma TurnAnnounces(s: Scene, addr: SocketAddr, bytes: Packet, blockerFirst: bool, peel: Peel)
    requires Turned(s, addr, bytes, blockerFirst, peel).running
    ensures Turned(s, addr, bytes, blockerFirst, peel).rooms == RoomUpdate(s.rooms, Inspect(s.ldn, bytes).1, peel)
  {
  }

  /** As long as the task runs, the room table holds what the datagrams announced. */
  lemma {:induction false} RoomsAreAnnounced(ignoreIdle: bool, now: Instant, acts: seq<Act>, peel: Peel)
    requires AllDone(Opening(ignoreIdle, now), acts, peel).running
    ensures AllDone(Opening(ignoreIdle, now), acts, peel).rooms == RoomsOf(acts, peel)
  {
    if acts == [] {
    } else {
      var prev, act := acts[..|acts| - 1], acts[|acts| - 1];
      var s := AllDone(Opening(ignoreIdle, now), prev, peel);
      EndedStaysEnded(s, act, peel);
      RoomsAreAnnounced(ignoreIdle, now, prev, peel);
      if act.Datagram? {
        PluginsAgree(ignoreIdle, now, prev, peel);
        TurnAnnounces(s, act.addr, act.bytes, act.blockerFirst, peel);
      }
    }
  }

  /** The task outlives the acts: the socket has not failed, and no fragment that came in
      completed a list on which the copy loop trips. */
  ghost predicate Survives(acts: seq<Act>) {
    Fail !in acts && NoneTrips(Fragments(Datagrams(acts)))
  }

  lemma SurvivesSnoc(prev: seq<Act>, act: Act)
    ensures Survives(prev + [act]) <==>
            Survives(prev) && !act.Fail? && (act.Datagram? ==> !Crashes(Datagrams(prev), act.bytes))
  {
    var acts := prev + [act];
    assert acts[..|prev|] == prev;
    NoneCrashesIff(Datagrams(prev));
    NoneCrashesIff(Datagrams(acts));
    if act.Datagram? { NoneCrashesSnoc(Datagrams(prev), act.bytes); }
  }

  lemma ActSurvived(s: Scene, prev: seq<Act>, act: Act, peel: Peel)
    requires s.running <==> Survives(prev)
    requires s.running ==> s.blocker == s.ldn == CacheAfter(EMPTY, Datagrams(prev))
    ensures Done(s, act, peel).running <==> Survives(prev + [act])
  {
    SurvivesSnoc(prev, act);
    if act.Datagram? && s.running {
      OneTurn(s, act.addr, act.bytes, act.blockerFirst, peel);
    }
  }

  /** Over every run the task is running if and only if it outlives the acts. */
  lemma {:induction false} RunsIff(ignoreIdle: bool, now: Instant, acts: seq<Act>, peel: Peel)
    ensures AllDone(Opening(ignoreIdle, now), acts, peel).running <==> Survives(acts)
  {
    if acts == [] {
    } else {
      var prev, act := acts[..|acts| - 1], acts[|acts| - 1];
      var s := AllDone(Opening(ignoreIdle, now), prev, peel);
      RunsIff(ignoreIdle, now, prev, peel);
      if s.running {
        PluginsAgree(ignoreIdle, now, prev, peel);
      }
      ActSurvived(s, prev, act, peel);
      assert acts == prev + [act];
    }
  }

  /** The steps the server takes: its own, and the datagrams that the task outlives. */
  ghost function Served(acts: seq<Act>): seq<Step> {
    if acts == [] then []
    else Served(acts[..|acts| - 1]) + ServedBy(acts)
  }

  ghost function ServedBy(acts: seq<Act>): seq<Step>
    requires acts != []
  {
    match acts[|acts| - 1]
    case Datagram(addr, bytes, _) => if Survives(acts) then [Receive(addr, bytes)] else []
    case Other(step) => if step.Receive? then [] else [step]
    case _ => []
  }

  lemma RunSnoc(s: State, steps: seq<Step>, step: Step)
    ensures Run(s, steps + [step]) == Taken(Run(s, steps), step)
  {
    assert (steps + [step])[..|steps|] == steps;
  }

  lemma TurnServes(s: Scene, addr: SocketAddr, bytes: Packet, blockerFirst: bool, peel: Peel)
    ensures var t := Turned(s, addr, bytes, blockerFirst, peel);
            t.server == if t.running then Taken(s.server, Receive(addr, bytes)) else s.server
  {
  }

  lemma ActServes(s: Scene, acts: seq<Act>, peel: Peel)
    requires acts != [] && (Done(s, acts[|acts| - 1], peel).running <==> Survives(acts))
    ensures var own := ServedBy(acts);
            Done(s, acts[|acts| - 1], peel).server == if own == [] then s.server else Taken(s.server, own[0])
  {
    var act := acts[|acts| - 1];
    if act.Datagram? {
      TurnServes(s, act.addr, act.bytes, act.blockerFirst, peel);
    }
  }

  /** Whatever happens, the server goes through the run of the steps it is served: plugins,
      rules and the end of the task change nothing but which datagrams are among them. So
      what holds of every reachable state of the server holds here. */
  lemma {:induction false} ServerIsRun(ignoreIdle: bool, now: Instant, acts: seq<Act>, peel: Peel)
    ensures AllDone(Opening(ignoreIdle, now), acts, peel).server == Run(Init(ignoreIdle, now), Served(acts))
  {
    if acts == [] {
    } else {
      var prev := acts[..|acts| - 1];
      ServerIsRun(ignoreIdle, now, prev, peel);
      RunsIff(ignoreIdle, now, acts, peel);
      ActServes(AllDone(Opening(ignoreIdle, now), prev, peel), acts, peel);
      if ServedBy(acts) == [] {
        assert Served(acts) == Served(prev);
      } else {
        assert ServedBy(acts) == [ServedBy(acts)[0]];
        RunSnoc(Init(ignoreIdle, now), Served(prev), ServedBy(acts)[0]);
      }
    }
  }

  /** All that is meant for the server, the datagrams included. */
  function Steps(acts: seq<Act>): seq<Step> {
    if acts == [] then []
    else
      var prev := acts[..|acts| - 1];
      match acts[|acts| - 1]
      case Datagram(addr, bytes, _) => Steps(prev) + [Receive(addr, bytes)]
      case Other(step) => if step.Receive? then Steps(prev) else Steps(prev) + [step]
      case _ => Steps(prev)
  }

  lemma {:induction false} SurvivorServesAll(acts: seq<Act>)
    requires Survives(acts)
    ensures Served(acts) == Steps(acts)
  {
    if acts == [] {
    } else {
      var prev := acts[..|acts| - 1];
      assert acts == prev + [acts[|acts| - 1]];
      SurvivesSnoc(prev, acts[|acts| - 1]);
      SurvivorServesAll(prev);
    }
  }

  /** As long as the task runs, both plugins have the fragments of all datagrams, and the
      server is where it would be without plugins, whatever rules were set. */
  lemma PluginsAreTransparent(ignoreIdle: bool, now: Instant, acts: seq<Act>, peel: Peel)
    requires AllDone(Opening(ignoreIdle, now), acts, peel).running
    ensures var s := AllDone(Opening(ignoreIdle, now), acts, peel);
            && s.blocker == s.ldn == CacheAfter(EMPTY, Datagrams(acts))
            && s.server == Run(Init(ignoreIdle, now), Steps(acts))
  {
    PluginsAgree(ignoreIdle, now, acts, peel);
    RunsIff(ignoreIdle, now, acts, peel);
    ServerIsRun(ignoreIdle, now, acts, peel);
    SurvivorServesAll(acts);
  }

  /** What reaches peers are exactly the datagrams that the task outlives, in order and with
      the times they came at. */
  lemma ArrivalsAreServed(ignoreIdle: bool, now: Instant, acts: seq<Act>, peel: Peel)
    ensures ReceiptsOf(AllDone(Opening(ignoreIdle, now), acts, peel).server.arrivals) == Receipts(now, Served(acts))
  {
    ServerIsRun(ignoreIdle, now, acts, peel);
    ArrivalsAreReceipts(ignoreIdle, now, Served(acts));
  }

  /** The datagram is no fragment, or one of the length it declares. */
  predicate Honest(d: Packet) {
    IsFragment(d) ==> Sized(FromFrame(Parse(d).value.frag))
  }

  lemma {:induction false} FragmentsHonest(ds: seq<Packet>)
    requires forall n :: 0 <= n < |ds| ==> Honest(ds[n])
    ensures AllSized(Fragments(ds))
  {
    if ds == [] {
    } else {
      FragmentsHonest(ds[..|ds| - 1]);
      assert Honest(ds[|ds| - 1]);
    }
  }

  /** While the socket works and all fragments that come in have the lengths they declare,
      the task never ends, and the server goes through the run of all that is meant for it. */
  lemma HonestKeepsRunning(ignoreIdle: bool, now: Instant, acts: seq<Act>, peel: Peel)
    requires Fail !in acts && forall n :: 0 <= n < |Datagrams(acts)| ==> Honest(Datagrams(acts)[n])
    ensures var s := AllDone(Opening(ignoreIdle, now), acts, peel);
            s.running && s.server == Run(Init(ignoreIdle, now), Steps(acts))
  {
    FragmentsHonest(Datagrams(acts));
    HonestNeverTrips(Fragments(Datagrams(acts)));
    RunsIff(ignoreIdle, now, acts, peel);
    PluginsAreTransparent(ignoreIdle, now, acts, peel);
  }

  lemma NothingArrivesAfterCrash(s: Scene, act: Act, peel: Peel)
    requires !s.running
    ensures !Done(s, act, peel).running && Done(s, act, peel).server.arrivals == s.server.arrivals
  {
    if act.Other? && !act.step.Receive? && Enabled(s.server, act.step) {
      OnlyReceiveChangesPeers(s.server, act.step);
    }
  }

  /** After the task has ended nothing arrives any more, whatever else happens. */
  lemma {:induction false} NothingArrivesAfterEnd(s: Scene, acts: seq<Act>, peel: Peel)
    requires !s.running
    ensures !AllDone(s, acts, peel).running && AllDone(s, acts, peel).server.arrivals == s.server.arrivals
  {
    if acts == [] {
    } else {
      NothingArrivesAfterEnd(s, acts[..|acts| - 1], peel);
      NothingArrivesAfterCrash(AllDone(s, acts[..|acts| - 1], peel), acts[|acts| - 1], peel);
    }
  }
}
