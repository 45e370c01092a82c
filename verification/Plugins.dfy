/** The two plugins that look at whole packets: both put fragments back together first. */
module Plugins {
  import opened Basics
  import opened Frame
  import opened Assembly
  import opened FragParser
  import opened FragRuns
  import opened Schedule
  import opened LanProtocol
  import opened Rooms
  import RuleText

  const SERVER_ADDR: Ipv4Addr := Ipv4Addr(10, 13, 37, 0)

  /** What a datagram amounts to after reassembly. */
  datatype Inbound = Nothing | Whole(src: Ipv4Addr, dst: Ipv4Addr, packet: Packet) | Crash

  /** What a plugin call returns, or that it panics. */
  datatype Verdict = Pass | Blocked | Panic

  function Inspect(c: Cache, datagram: Packet): (Cache, Inbound) {
    match Parse(datagram)
    case Ok(Ipv4(p)) => (c, Whole(Ipv4SrcIp(p), Ipv4DstIp(p), p))
    case Ok(Ipv4Frag(p)) =>
      var (d, out) := Step(c, FromFrame(p));
      (d, match out
          case Panicked => Crash
          case Returned(None) => Nothing
          case Returned(Some(packet)) => Whole(FragSrcIp(p), FragDstIp(p), packet))
    case _ => (c, Nothing)
  }

  /** The front half both plugins share. */
  method Receive(parser: FragParser, datagram: Packet) returns (w: Inbound)
    requires parser.Valid()
    modifies parser.cache
    ensures parser.Valid()
    ensures (parser.Model(), w) == Inspect(old(parser.Model()), datagram)
  {
    match Parse(datagram) {
      case Ok(Ipv4(p)) =>
        w := Whole(Ipv4SrcIp(p), Ipv4DstIp(p), p);
      case Ok(Ipv4Frag(p)) =>
        var out := parser.Process(p);
        w := match out
             case Panicked => Crash
             case Returned(None) => Nothing
             case Returned(Some(packet)) => Whole(FragSrcIp(p), FragDstIp(p), packet);
      case _ =>
        w := Nothing;
    }
  }

  // ---- Blocker ----

  type Hit = (RuleText.Rule, Packet) -> bool

  /** The rules' verdict on a whole packet; checking the header and hitting a rule
      are functions of the bytes that this model leaves open. */
  function RuleVerdict(rules: seq<RuleText.Rule>, checked: Packet -> bool, hit: Hit, packet: Packet): Verdict {
    if checked(packet) && exists i :: 0 <= i < |rules| && hit(rules[i], packet) then Blocked else Pass
  }

  function BlockerVerdict(rules: seq<RuleText.Rule>, checked: Packet -> bool, hit: Hit, w: Inbound): Verdict {
    match w
    case Nothing => Pass
    case Crash => Panic
    case Whole(_, _, packet) => RuleVerdict(rules, checked, hit, packet)
  }

  class BlockerPlugin {
    const parser: FragParser
    var rules: seq<RuleText.Rule>
    const checked: Packet -> bool
    const hit: Hit

    ghost predicate Valid()
      reads parser.cache
    {
      parser.Valid()
    }

    constructor (checked: Packet -> bool, hit: Hit)
      ensures Valid() && fresh(parser.cache)
      ensures parser.Model() == EMPTY && rules == []
      ensures this.checked == checked && this.hit == hit
    {
      this.checked, this.hit, rules := checked, hit, [];
      parser := new FragParser();
    }

    method SetBlockRules(rules: seq<RuleText.Rule>)
      modifies this
      ensures this.rules == rules
    {
      this.rules := rules;
    }

    method InPacket(datagram: Packet) returns (v: Verdict)
      requires Valid()
      modifies parser.cache
      ensures Valid()
      ensures parser.Model() == Inspect(old(parser.Model()), datagram).0
      ensures v == BlockerVerdict(rules, checked, hit, Inspect(old(parser.Model()), datagram).1)
    {
      var w := Receive(parser, datagram);
      if w.Crash? {
        return Panic;
      }
      if w.Nothing? {
        return Pass;
      }
      var packet := w.packet;
      if !checked(packet) {
        return Pass;
      }
      for k := 0 to |rules|
        invariant forall i :: 0 <= i < k ==> !hit(rules[i], packet)
      {
        if hit(rules[k], packet) {
          return Blocked;
        }
      }
      v := Pass;
    }
  }

  /** The datagram is the packet in one piece, or the fragment that completes it. */
  ghost predicate Carries(c: Cache, datagram: Packet, packet: Packet) {
    || (20 <= |packet| <= 2047 && datagram == [1] + packet)
    || exists f :: Completing(c, datagram, f, packet)
  }

  ghost predicate Completing(c: Cache, datagram: Packet, f: FragItem, packet: Packet) {
    && |f.data| <= 2031 && datagram == [3] + EncodeFrag(f)
    && Step(c, f).1 == Returned(Some(packet))
  }

  lemma InspectWhole(c: Cache, packet: Packet)
    requires 20 <= |packet| <= 2047
    ensures Inspect(c, [1] + packet).0 == c
    ensures Inspect(c, [1] + packet).1.Whole? && Inspect(c, [1] + packet).1.packet == packet
  {
    WholeDatagramParses(packet);
  }

  lemma InspectFragment(c: Cache, f: FragItem)
    requires |f.data| <= 2031
    ensures var (d, w) := Inspect(c, [3] + EncodeFrag(f));
            && d == Step(c, f).0
            && (w.Whole? <==> exists packet :: Step(c, f).1 == Returned(Some(packet)))
            && (w.Whole? ==> Step(c, f).1 == Returned(Some(w.packet)))
  {
    FragDatagramParses(f);
    DecodeEncode(f);
    if Step(c, f).1.Returned? && Step(c, f).1.packet.Some? {
      assert Step(c, f).1 == Returned(Some(Step(c, f).1.packet.value));
    }
  }

  /** What a plugin sees as a whole packet: what a datagram carries, under the addresses of
      the datagram. */
  lemma WholeIff(c: Cache, datagram: Packet, packet: Packet)
    ensures Inspect(c, datagram).1.Whole? && Inspect(c, datagram).1.packet == packet <==> Carries(c, datagram, packet)
    ensures Inspect(c, datagram).1.Whole? ==>
              && CarriesTraffic(datagram)
              && OutAddr(Inspect(c, datagram).1.src, Inspect(c, datagram).1.dst) == AddressesIn(datagram)
  {
    ParsesIff(datagram);
    var w := Inspect(c, datagram).1;
    if w.Whole? && w.packet == packet {
      if Parse(datagram).value.Ipv4? {
        ParseExact(datagram, Parse(datagram).value);
      } else {
        FragmentCarries(c, datagram, packet);
      }
    }
    if 20 <= |packet| <= 2047 && datagram == [1] + packet { InspectWhole(c, packet); }
    forall f | Completing(c, datagram, f, packet) ensures w.Whole? && w.packet == packet {
      InspectFragment(c, f);
    }
  }

  lemma FragmentCarries(c: Cache, datagram: Packet, packet: Packet)
    requires Parse(datagram).Ok? && Parse(datagram).value.Ipv4Frag?
    requires Inspect(c, datagram).1.Whole? && Inspect(c, datagram).1.packet == packet
    ensures exists f :: Completing(c, datagram, f, packet)
  {
    var p := Parse(datagram).value.frag;
    FragmentOf(datagram);
    assert Step(c, FromFrame(p)).1 == Returned(Some(packet));
    assert Completing(c, datagram, FromFrame(p), packet);
  }

  lemma FragmentOf(datagram: Packet)
    requires Parse(datagram).Ok? && Parse(datagram).value.Ipv4Frag?
    ensures var f := FromFrame(Parse(datagram).value.frag);
            |f.data| <= 2031 && datagram == [3] + EncodeFrag(f)
  {
    var p := Parse(datagram).value.frag;
    ParseExact(datagram, Ipv4Frag(p));
    EncodeDecode(p);
  }

  /** Which datagrams the rules block: those that carry a packet with a sound header that
      some rule hits. */
  lemma BlockedIff(c: Cache, datagram: Packet, rules: seq<RuleText.Rule>, checked: Packet -> bool, hit: Hit)
    ensures BlockerVerdict(rules, checked, hit, Inspect(c, datagram).1) == Blocked <==>
            exists packet :: Carries(c, datagram, packet) && checked(packet) && exists r :: r in rules && hit(r, packet)
  {
    var w := Inspect(c, datagram).1;
    if w.Whole? {
      WholeIff(c, datagram, w.packet);
      assert (exists i :: 0 <= i < |rules| && hit(rules[i], w.packet)) <==> exists r :: r in rules && hit(r, w.packet);
    }
    forall packet | Carries(c, datagram, packet) ensures w.Whole? && w.packet == packet {
      WholeIff(c, datagram, packet);
    }
  }

  // ---- LDN ----

  type RoomTable = map<Ipv4Addr, RoomInfo>

  /** The room announced by a whole packet, if it is one: `peel` takes the UDP payload
      out of an IPv4 packet and stays open. */
  function Announced(src: Ipv4Addr, dst: Ipv4Addr, packet: Packet,
                     peel: Packet -> Option<Packet>): Option<RoomInfo> {
    if dst != SERVER_ADDR || peel(packet).None? then
      None
    else
      match Decoded(peel(packet).value)
      case Err(_) => None
      case Ok(ldn) =>
        if ldn.typ == 1 && |ldn.payload| >= NETWORK_INFO_LENGTH then Some(RoomOf(src, ldn.payload))
        else None
  }

  function RoomUpdate(rooms: RoomTable, w: Inbound, peel: Packet -> Option<Packet>): RoomTable {
    if w.Whole? && Announced(w.src, w.dst, w.packet, peel).Some?
    then rooms[w.src := Announced(w.src, w.dst, w.packet, peel).value]
    else rooms
  }

  class LdnMitmPlugin {
    const parser: FragParser
    var roomInfo: RoomTable
    const peel: Packet -> Option<Packet>

    ghost predicate Valid()
      reads this, parser.cache
    {
      parser.Valid() && RoomsOk(roomInfo)
    }

    constructor (peel: Packet -> Option<Packet>)
      ensures Valid() && fresh(parser.cache)
      ensures parser.Model() == EMPTY && roomInfo == map[]
      ensures this.peel == peel
    {
      this.peel, roomInfo := peel, map[];
      parser := new FragParser();
    }

    /** The timer's step. */
    method Clear()
      requires Valid()
      modifies this
      ensures Valid() && roomInfo == map[]
    {
      roomInfo := map[];
    }

    method InPacket(datagram: Packet) returns (v: Verdict)
      requires Valid()
      modifies this, parser.cache
      ensures Valid()
      ensures parser.Model() == Inspect(old(parser.Model()), datagram).0
      ensures roomInfo == RoomUpdate(old(roomInfo), Inspect(old(parser.Model()), datagram).1, peel)
      ensures v == if Inspect(old(parser.Model()), datagram).1 == Crash then Panic else Pass
    {
      var w := Receive(parser, datagram);
      Announce(w);
      v := if w.Crash? then Panic else Pass;
    }

    /** Puts the room that a whole packet announces into the table. */
    method Announce(w: Inbound)
      requires RoomsOk(roomInfo)
      modifies this
      ensures RoomsOk(roomInfo) && roomInfo == RoomUpdate(old(roomInfo), w, peel)
    {
      if w.Whole? {
        var room := RoomIn(w.src, w.dst, w.packet);
        if room.Some? {
          roomInfo := roomInfo[w.src := room.value];
        }
      }
    }

    /** Peels and decodes a whole packet; a room that results is sound. */
    method RoomIn(src: Ipv4Addr, dst: Ipv4Addr, packet: Packet) returns (room: Option<RoomInfo>)
      ensures room == Announced(src, dst, packet, peel)
      ensures room.Some? ==> RoomOk(room.value) && room.value.ip == Dotted(src)
    {
      var payload := peel(packet);
      if dst != SERVER_ADDR || payload.None? {
        return None;
      }
      var ldn := LanProtocol.New(payload.value);
      if ldn.Err? || ldn.value.typ != 1 || |ldn.value.payload| < NETWORK_INFO_LENGTH {
        return None;
      }
      RoomOfIsOk(src, ldn.value.payload);
      var info := BuildRoom(src, ldn.value.payload);
      room := Some(info);
    }
  }

  // ---- Fragmentation is invisible ----

  /** The fragments among the datagrams, in order. */
  function Fragments(ds: seq<Packet>): seq<FragItem> {
    if ds == [] then []
    else
      var prev, d := ds[..|ds| - 1], ds[|ds| - 1];
      Fragments(prev) + match Parse(d) case Ok(Ipv4Frag(p)) => [FromFrame(p)] case _ => []
  }

  /** The plugin's cache after a sequence of datagrams. */
  function CacheAfter(c: Cache, ds: seq<Packet>): Cache {
    if ds == [] then c else Inspect(CacheAfter(c, ds[..|ds| - 1]), ds[|ds| - 1]).0
  }

  lemma {:induction false} CacheSeesFragments(c: Cache, ds: seq<Packet>)
    ensures CacheAfter(c, ds) == After(c, Fragments(ds))
  {
    if ds == [] {
    } else {
      var prev, d := ds[..|ds| - 1], ds[|ds| - 1];
      CacheSeesFragments(c, prev);
      if Parse(d).Ok? && Parse(d).value.Ipv4Frag? {
        var f := FromFrame(Parse(d).value.frag);
        assert (Fragments(prev) + [f])[..|Fragments(prev)|] == Fragments(prev);
      } else {
        assert Fragments(ds) == Fragments(prev);
      }
    }
  }

  /** Datagram t carries a part of the sending. */
  ghost predicate CarriesPart(ds: seq<Packet>, s: Sending, t: nat) {
    && t < |ds| && Parse(ds[t]).Ok? && Parse(ds[t]).value.Ipv4Frag?
    && KeyOf(FromFrame(Parse(ds[t]).value.frag)) == s.KeyOfAll()
  }

  /** All parts of the sending are among the first t datagrams. */
  ghost predicate Arrived(ds: seq<Packet>, s: Sending, t: nat)
    requires t <= |ds|
  {
    var frames := Fragments(ds[..t]);
    AllSeen(frames, s, |frames|)
  }

  lemma {:induction false} FragmentsOfPrefix(ds: seq<Packet>, t: nat)
    requires t <= |ds|
    ensures Fragments(ds[..t]) <= Fragments(ds)
  {
    if t == |ds| {
      assert ds[..t] == ds;
    } else {
      FragmentsOfPrefix(ds[..|ds| - 1], t);
      assert ds[..|ds| - 1][..t] == ds[..t];
    }
  }

  /** Datagram t is fragment number n of the run. */
  lemma {:induction false} FragmentNumber(ds: seq<Packet>, t: nat, n: nat)
    requires t < |ds| && Parse(ds[t]).Ok? && Parse(ds[t]).value.Ipv4Frag? && n == |Fragments(ds[..t])|
    ensures n < |Fragments(ds)| && Fragments(ds)[n] == FromFrame(Parse(ds[t]).value.frag)
    ensures Fragments(ds[..t]) == Fragments(ds)[..n]
    ensures Fragments(ds[..t + 1]) == Fragments(ds)[..n + 1]
  {
    FragmentsOfPrefix(ds, t);
    FragmentsOfPrefix(ds, t + 1);
    assert ds[..t + 1][..t] == ds[..t];
    assert Fragments(ds[..t + 1]) == Fragments(ds[..t]) + [FromFrame(Parse(ds[t]).value.frag)];
  }

  lemma {:induction false} ArrivedIsSeen(ds: seq<Packet>, s: Sending, t: nat, n: nat)
    requires t <= |ds| && n <= |Fragments(ds)| && Fragments(ds[..t]) == Fragments(ds)[..n]
    ensures Arrived(ds, s, t) <==> AllSeen(Fragments(ds), s, n)
  {
    assert Seen(Fragments(ds)[..n], s.KeyOfAll(), n) == Seen(Fragments(ds), s.KeyOfAll(), n);
  }

  /** Under the schedule condition of the reassembly theorem, a plugin sees nothing
      when a part arrives that does not complete its packet, and the whole packet
      with the addresses of its fragments when one does. */
  lemma {:induction false} FragmentationInvisible(c: Cache, ds: seq<Packet>, s: Sending, t: nat)
    requires c.Valid(CAPACITY) && s.Valid() && s.KeyOfAll() !in c.entries
    requires OnlyParts(Fragments(ds), s) && Spaced(Fragments(ds), s.KeyOfAll())
    requires CarriesPart(ds, s, t) && !Arrived(ds, s, t)
    ensures Inspect(CacheAfter(c, ds[..t]), ds[t]).1 ==
            if Arrived(ds, s, t + 1) then Whole(s.src, s.dst, s.packet) else Nothing
  {
    var frames, n := Fragments(ds), |Fragments(ds[..t])|;
    FragmentNumber(ds, t, n);
    CacheSeesFragments(c, ds[..t]);
    ArrivedIsSeen(ds, s, t, n);
    ArrivedIsSeen(ds, s, t + 1, n + 1);
    Reassembly(c, frames, s, n);
    var p := Parse(ds[t]).value.frag;
    assert FromFrame(p) == s.Part(FromFrame(p).part);
    assert OutcomeAt(c, frames, n) == Step(CacheAfter(c, ds[..t]), FromFrame(p)).1;
  }

  /** Two arrivals are the same to the room table, whatever it holds. */
  ghost predicate SameToRooms(v: Inbound, w: Inbound, peel: Packet -> Option<Packet>) {
    forall rooms: RoomTable :: RoomUpdate(rooms, v, peel) == RoomUpdate(rooms, w, peel)
  }

  /** The packet describes a room to whoever is its receiver. */
  predicate Describes(packet: Packet, peel: Packet -> Option<Packet>) {
    Announced(SERVER_ADDR, SERVER_ADDR, packet, peel).Some?
  }

  /** When the same packet under two pairs of addresses updates the room table alike: if it
      describes no room, or the pairs are equal, or neither is for the server. */
  lemma SameUpdateIff(src: Ipv4Addr, dst: Ipv4Addr, from: Ipv4Addr, to: Ipv4Addr, packet: Packet,
      peel: Packet -> Option<Packet>)
    ensures SameToRooms(Whole(src, dst, packet), Whole(from, to, packet), peel) <==>
            !Describes(packet, peel) || (src == from && dst == to) || (dst != SERVER_ADDR && to != SERVER_ADDR)
  {
    var v, w := Whole(src, dst, packet), Whole(from, to, packet);
    if Describes(packet, peel) {
      var one, two := RoomUpdate(map[], v, peel), RoomUpdate(map[], w, peel);
      assert one.Keys == (if dst == SERVER_ADDR then {src} else {});
      assert two.Keys == (if to == SERVER_ADDR then {from} else {});
    }
  }

  /** A completed packet is to the plugins what the same packet in one datagram is: always
      to the rules; and to the room table if and only if it describes no room, or the
      fragment headers repeat the addresses inside it, or neither are for the server. */
  lemma WholeLikeFragments(c: Cache, s: Sending, rules: seq<RuleText.Rule>, checked: Packet -> bool, hit: Hit,
      peel: Packet -> Option<Packet>)
    requires IPV4_MIN_LENGTH <= |s.packet| < MAX_LENGTH
    ensures var whole, joined := Inspect(c, [IPV4] + s.packet).1, Whole(s.src, s.dst, s.packet);
            && BlockerVerdict(rules, checked, hit, whole) == BlockerVerdict(rules, checked, hit, joined)
            && (SameToRooms(whole, joined, peel) <==>
                  || !Describes(s.packet, peel)
                  || (Ipv4SrcIp(s.packet) == s.src && Ipv4DstIp(s.packet) == s.dst)
                  || (Ipv4DstIp(s.packet) != SERVER_ADDR && s.dst != SERVER_ADDR))
    ensures Inspect(c, [IPV4] + s.packet).0 == c
  {
    WholeDatagramParses(s.packet);
    SameUpdateIff(Ipv4SrcIp(s.packet), Ipv4DstIp(s.packet), s.src, s.dst, s.packet, peel);
  }
}
