/** The room table entries built from network descriptions. */
module Rooms {
  import opened Basics
  import opened Frame
  import opened LanProtocol
  import opened Decimal
  import opened Utf8

  datatype Node = Node(ip: string, nodeId: int, isConnected: bool, playerName: string)

  datatype RoomInfo = RoomInfo(
    ip: string, contentId: string, hostPlayerName: string, sessionId: string,
    nodeCountMax: int, nodeCount: int, nodes: seq<Node>,
    advertiseDataLen: int, advertiseData: string)

  function HexDigit(d: nat): char
    requires d < 16
  {
    "0123456789abcdef"[d]
  }

  /** Two lower-case digits a byte. */
  function Hex(s: Packet): (h: string)
    ensures |h| == 2 * |s|
  {
    if s == [] then [] else [HexDigit(s[0] / 16), HexDigit(s[0] % 16)] + Hex(s[1..])
  }

  /** The text determines the bytes. */
  lemma {:induction false} HexInjective(s: Packet, t: Packet)
    requires Hex(s) == Hex(t)
    ensures s == t
  {
    if s != [] && t != [] {
      assert Hex(s)[0] == Hex(t)[0] && Hex(s)[1] == Hex(t)[1];
      DigitInjective(s[0] / 16, t[0] / 16);
      DigitInjective(s[0] % 16, t[0] % 16);
      assert Hex(s)[2..] == Hex(s[1..]) && Hex(t)[2..] == Hex(t[1..]);
      HexInjective(s[1..], t[1..]);
    }
  }

  lemma DigitInjective(a: nat, b: nat)
    requires a < 16 && b < 16 && HexDigit(a) == HexDigit(b)
    ensures a == b
  {
  }

  /** The dotted text of an address. */
  function Dotted(a: Ipv4Addr): string {
    PrintNat(a.a) + "." + (PrintNat(a.b) + "." + (PrintNat(a.c) + "." + PrintNat(a.d)))
  }

  /** Texts without a dot, each followed by one, are told apart by it. */
  lemma SameUpToDot(p: string, r: string, q: string, s: string)
    requires '.' !in p && '.' !in q && p + "." + r == q + "." + s
    ensures p == q && r == s
  {
    var t := p + "." + r;
    assert t[|p|] == '.' && t[|q|] == '.';
    assert forall i :: 0 <= i < |p| ==> t[i] == p[i] != '.';
    assert forall i :: 0 <= i < |q| ==> t[i] == q[i] != '.';
    assert p == t[..|p|] && q == t[..|q|];
    assert r == t[|p| + 1..] && s == t[|q| + 1..];
  }

  lemma NoDot(n: nat)
    ensures '.' !in PrintNat(n)
  {
    PrintedNumber(n);
  }

  /** The dotted text determines the address. */
  lemma DottedInjective(x: Ipv4Addr, y: Ipv4Addr)
    requires Dotted(x) == Dotted(y)
    ensures x == y
  {
    NoDot(x.a); NoDot(x.b); NoDot(x.c);
    NoDot(y.a); NoDot(y.b); NoDot(y.c);
    var xc, yc := PrintNat(x.c) + "." + PrintNat(x.d), PrintNat(y.c) + "." + PrintNat(y.d);
    var xb, yb := PrintNat(x.b) + "." + xc, PrintNat(y.b) + "." + yc;
    SameUpToDot(PrintNat(x.a), xb, PrintNat(y.a), yb);
    SameUpToDot(PrintNat(x.b), xc, PrintNat(y.b), yc);
    SameUpToDot(PrintNat(x.c), PrintNat(x.d), PrintNat(y.c), PrintNat(y.d));
    PrintInjective(x.a, y.a);
    PrintInjective(x.b, y.b);
    PrintInjective(x.c, y.c);
    PrintInjective(x.d, y.d);
  }

  function NodeView(n: NodeInfo): Node {
    Node(Dotted(NodeIp(n)), NodeId(n), NodeConnected(n), TextOrEmpty(PlayerName(n)))
  }

  /** The entry for a network description announced from src. */
  function RoomOf(src: Ipv4Addr, p: NetworkInfo): RoomInfo {
    RoomInfo(Dotted(src), Hex(ContentId(p)), TextOrEmpty(HostPlayerName(p)), Hex(SessionId(p)),
             NodeCountMax(p), NodeCount(p),
             seq(NodeCount(p), i requires 0 <= i < NodeCount(p) => NodeView(NodeAt(p, i))),
             AdvertiseDataLen(p), Hex(AdvertiseData(p)))
  }

  /** Builds the entry from the decoded fields, node by node. */
  method BuildRoom(src: Ipv4Addr, info: NetworkInfo) returns (r: RoomInfo)
    ensures r == RoomOf(src, info)
  {
    var nodes := Nodes(info);
    var views := seq(|nodes|, i requires 0 <= i < |nodes| => NodeView(nodes[i]));
    r := RoomInfo(Dotted(src), Hex(ContentId(info)), TextOrEmpty(HostPlayerName(info)), Hex(SessionId(info)),
                  NodeCountMax(info), NodeCount(info), views,
                  AdvertiseDataLen(info), Hex(AdvertiseData(info)));
  }

  /** What every entry of the table satisfies. */
  ghost predicate RoomOk(r: RoomInfo) {
    && |r.nodes| == r.nodeCount <= MAX_NODES
    && 0 <= r.nodeCountMax <= MAX_NODES
    && |r.advertiseData| == 2 * r.advertiseDataLen <= 2 * MAX_ADVERTISE
    && |r.contentId| == 16 && |r.sessionId| == 32
  }

  lemma RoomOfIsOk(src: Ipv4Addr, p: NetworkInfo)
    ensures RoomOk(RoomOf(src, p))
    ensures RoomOf(src, p).ip == Dotted(src)
  {
  }

  /** The table announced rooms are kept in: only listed under their own address. */
  ghost predicate RoomsOk(rooms: map<Ipv4Addr, RoomInfo>) {
    forall a :: a in rooms ==> RoomOk(rooms[a]) && rooms[a].ip == Dotted(a)
  }
}
