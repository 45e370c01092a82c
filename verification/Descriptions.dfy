/** How a network description is laid out, and that the room table tells what was laid out. */
module Descriptions {
  import opened Basics
  import opened Frame
  import opened Decimal
  import opened Utf8
  import opened LanProtocol
  import opened Rooms
  import opened Plugins

  // ---- The layout, as its sender writes it (specification only) ----

  /** One slot of the node table; `name` are the bytes of the name, `after` what follows
      them in their field, `gap` and `rest` what nobody reads. */
  datatype Slot = Slot(ip: Ipv4Addr, gap: Packet, id: byte, flag: byte, name: Packet, after: Packet, rest: Packet) {
    ghost predicate Valid() {
      && |gap| == 6 && |name + after| == 32 && |rest| == 20
      && (forall i :: 0 <= i < |name| ==> name[i] != 0)
      && (after != [] ==> after[0] == 0)
    }
  }

  function SlotBytes(n: Slot): Packet {
    [n.ip.d, n.ip.c, n.ip.b, n.ip.a] + n.gap + [n.id, n.flag] + (n.name + n.after) + n.rest
  }

  /** A description: identifiers, how many nodes there may be and are, eight slots, and as
      many of 384 advertised bytes as `length` says. */
  datatype Description = Description(
    content: Packet, session: Packet, nodeMax: byte, nodeCount: byte, slots: seq<Slot>,
    length: u16, advertised: Packet, gaps: (Packet, Packet, Packet), tail: Packet)
  {
    ghost predicate Valid() {
      && |content| == 8 && |session| == 16 && |slots| == 8 && |advertised| == 384
      && |gaps.0| == 8 && |gaps.1| == 70 && |gaps.2| == 2 && |tail| >= 148
      && forall i :: 0 <= i < 8 ==> slots[i].Valid()
    }
  }

  function Backwards(c: Packet): Packet
    requires |c| == 8
  {
    [c[7], c[6], c[5], c[4], c[3], c[2], c[1], c[0]]
  }

  function SlotTable(slots: seq<Slot>): Packet {
    if slots == [] then [] else SlotBytes(slots[0]) + SlotTable(slots[1..])
  }

  ghost function Front(d: Description): (p: Packet)
    requires d.Valid()
    ensures |p| == 104
  {
    Backwards(d.content) + d.gaps.0 + d.session + d.gaps.1 + [d.nodeMax, d.nodeCount]
  }

  ghost function Back(d: Description): (p: Packet)
    requires d.Valid()
    ensures |p| >= 536
  {
    d.gaps.2 + [d.length % 256, d.length / 256] + d.advertised + d.tail
  }

  ghost function Written(d: Description): Packet
    requires d.Valid()
  {
    Front(d) + SlotTable(d.slots) + Back(d)
  }

  // ---- What an entry of the table tells ----

  /** The decimal text of a number, without leading zeros. */
  ghost predicate IsNumeral(s: string, n: nat) {
    && s != "" && AllDigits(s) && Value(s) == n
    && (|s| > 1 ==> s[0] != '0')
  }

  ghost predicate IsDotted(s: string, a: Ipv4Addr) {
    exists p, q, r, t ::
      && IsNumeral(p, a.a) && IsNumeral(q, a.b) && IsNumeral(r, a.c) && IsNumeral(t, a.d)
      && s == Join(p, q, r, t)
  }

  function Join(p: string, q: string, r: string, t: string): string {
    p + "." + q + "." + r + "." + t
  }

  function DigitValue(c: char): int {
    if '0' <= c <= '9' then (c - '0') as int
    else if 'a' <= c <= 'f' then (c - 'a') as int + 10
    else -1
  }

  /** Hexadecimal text read back: two digits a byte, the high one first. */
  function Unhex(h: string): seq<int> {
    if |h| < 2 then [] else [16 * DigitValue(h[0]) + DigitValue(h[1])] + Unhex(h[2..])
  }

  /** The bytes encode the text, or no text at all and the text is empty. */
  ghost predicate ReadsAs(text: string, bytes: Packet) {
    bytes == Encode(text) || (text == "" && forall t :: bytes != Encode(t))
  }

  ghost predicate NodeTells(n: Node, slot: Slot) {
    && IsDotted(n.ip, slot.ip) && n.nodeId == slot.id
    && (n.isConnected <==> slot.flag == 1)
    && ReadsAs(n.playerName, slot.name)
  }

  /** The entry tells the description announced from src. */
  ghost predicate Tells(r: RoomInfo, src: Ipv4Addr, d: Description)
    requires d.Valid()
  {
    && IsDotted(r.ip, src)
    && |r.contentId| == 16 && Unhex(r.contentId) == d.content
    && |r.sessionId| == 32 && Unhex(r.sessionId) == d.session
    && ReadsAs(r.hostPlayerName, d.slots[0].name)
    && r.nodeCountMax == (if d.nodeMax <= 8 then d.nodeMax else 8)
    && r.nodeCount == |r.nodes| == (if d.nodeCount <= 8 then d.nodeCount else 8)
    && (forall i :: 0 <= i < |r.nodes| ==> NodeTells(r.nodes[i], d.slots[i]))
    && r.advertiseDataLen == (if d.length <= 384 then d.length else 384)
    && |r.advertiseData| == 2 * r.advertiseDataLen
    && Unhex(r.advertiseData) == d.advertised[..r.advertiseDataLen]
  }

  // ---- Texts ----

  lemma DigitRead(d: nat)
    requires d < 16
    ensures DigitValue(HexDigit(d)) == d
  {
  }

  lemma {:induction false} UnhexHex(s: Packet)
    ensures Unhex(Hex(s)) == s
  {
    if s == [] {
    } else {
      UnhexHex(s[1..]);
      DigitRead(s[0] / 16);
      DigitRead(s[0] % 16);
      assert Hex(s)[2..] == Hex(s[1..]);
    }
  }

  lemma {:induction false} PrintedIsNumeral(n: nat)
    ensures IsNumeral(PrintNat(n), n)
    ensures n > 0 ==> PrintNat(n)[0] != '0'
  {
    PrintedNumber(n);
    if n < 10 {
    } else {
      PrintedIsNumeral(n / 10);
    }
  }

  lemma DottedTells(a: Ipv4Addr)
    ensures IsDotted(Dotted(a), a)
  {
    PrintedIsNumeral(a.a);
    PrintedIsNumeral(a.b);
    PrintedIsNumeral(a.c);
    PrintedIsNumeral(a.d);
    assert Dotted(a) == Join(PrintNat(a.a), PrintNat(a.b), PrintNat(a.c), PrintNat(a.d));
  }

  lemma TextReads(s: Packet)
    ensures ReadsAs(TextOrEmpty(s), s)
  {
    forall t ensures Decode(s) == Some(t) <==> s == Encode(t) {
      DecodeExact(s, t);
    }
  }

  lemma {:induction false} NameEnds(name: Packet, after: Packet)
    requires forall i :: 0 <= i < |name| ==> name[i] != 0
    requires after != [] ==> after[0] == 0
    ensures NameBytes(name + after) == name
  {
    if name == [] {
      assert name + after == after;
    } else {
      assert (name + after)[1..] == name[1..] + after;
      NameEnds(name[1..], after);
    }
  }

  // ---- Reading what was written ----

  lemma SlotReads(n: Slot)
    requires n.Valid()
    ensures var p := SlotBytes(n);
            && |p| == 64 && NodeIp(p) == n.ip && NodeId(p) == n.id && (NodeConnected(p) <==> n.flag == 1)
            && PlayerName(p) == n.name
  {
    var p := SlotBytes(n);
    assert p[12..44] == n.name + n.after;
    NameEnds(n.name, n.after);
  }

  lemma {:induction false} SlotAt(slots: seq<Slot>, i: nat)
    requires i < |slots| && forall k :: 0 <= k < |slots| ==> slots[k].Valid()
    ensures |SlotTable(slots)| == 64 * |slots|
    ensures SlotTable(slots)[64 * i..64 * i + 64] == SlotBytes(slots[i])
  {
    var rest := slots[1..];
    assert |SlotBytes(slots[0])| == 64;
    TableSize(rest);
    if i > 0 {
      SlotAt(rest, i - 1);
      assert SlotTable(slots)[64 * i..64 * i + 64] == SlotTable(rest)[64 * (i - 1)..64 * (i - 1) + 64];
    } else {
      assert SlotTable(slots)[0..64] == SlotBytes(slots[0]);
    }
  }

  lemma {:induction false} TableSize(slots: seq<Slot>)
    requires forall k :: 0 <= k < |slots| ==> slots[k].Valid()
    ensures |SlotTable(slots)| == 64 * |slots|
  {
    if slots == [] {
    } else {
      TableSize(slots[1..]);
    }
  }

  lemma WrittenSize(d: Description)
    requires d.Valid()
    ensures |SlotTable(d.slots)| == 512 && |Written(d)| >= 0x480
  {
    TableSize(d.slots);
  }

  lemma FrontReads(d: Description)
    requires d.Valid()
    ensures var f := Front(d);
            && f[0..8] == Backwards(d.content) && f[16..32] == d.session
            && f[0x66] == d.nodeMax && f[0x67] == d.nodeCount
  {
  }

  lemma HeadReads(d: Description)
    requires d.Valid() && |Written(d)| >= 0x480
    ensures var p: NetworkInfo := Written(d);
            && ContentId(p) == d.content && SessionId(p) == d.session
            && NodeCountMax(p) == (if d.nodeMax <= 8 then d.nodeMax else 8)
            && NodeCount(p) == (if d.nodeCount <= 8 then d.nodeCount else 8)
  {
    var p: NetworkInfo := Written(d);
    FrontReads(d);
    assert p[..104] == Front(d);
    assert p[0..8] == Front(d)[0..8] && p[16..32] == Front(d)[16..32];
    assert p[0x66] == p[..104][0x66] && p[0x67] == p[..104][0x67];
    assert Reversed(Backwards(d.content)) == d.content;
  }

  lemma NodeReads(d: Description, i: nat)
    requires d.Valid() && |Written(d)| >= 0x480 && i < 8
    ensures NodeAt(Written(d), i) == SlotBytes(d.slots[i])
  {
    SlotAt(d.slots, i);
    var p, table := Written(d), SlotTable(d.slots);
    assert p[104..616] == table;
    assert p[104 + 64 * i..104 + 64 * i + 64] == table[64 * i..64 * i + 64];
  }

  lemma BackReads(d: Description)
    requires d.Valid()
    ensures var b := Back(d); b[2] == d.length % 256 && b[3] == d.length / 256 && b[4..388] == d.advertised
  {
  }

  lemma TailReads(d: Description)
    requires d.Valid() && |Written(d)| >= 0x480
    ensures var p: NetworkInfo := Written(d);
            && AdvertiseDataLen(p) == (if d.length <= 384 then d.length else 384)
            && AdvertiseData(p) == d.advertised[..AdvertiseDataLen(p)]
  {
    var p: NetworkInfo := Written(d);
    WrittenSize(d);
    BackReads(d);
    assert p[616..] == Back(d);
    assert p[0x26A] == p[616..][2] && p[0x26B] == p[616..][3];
    assert p[0x26C..0x26C + 384] == p[616..][4..388];
    assert AdvertiseData(p) == p[0x26C..0x26C + 384][..AdvertiseDataLen(p)];
  }

  lemma HostReads(d: Description)
    requires d.Valid() && |Written(d)| >= 0x480
    ensures HostPlayerName(Written(d)) == d.slots[0].name
  {
    var p: NetworkInfo := Written(d);
    NodeReads(d, 0);
    SlotReads(d.slots[0]);
    assert p[0x74..0x94] == NodeAt(p, 0)[12..44];
  }

  lemma NodeIsTold(d: Description, i: nat)
    requires d.Valid() && |Written(d)| >= 0x480 && i < 8
    ensures NodeTells(NodeView(NodeAt(Written(d), i)), d.slots[i])
  {
    NodeReads(d, i);
    SlotReads(d.slots[i]);
    DottedTells(d.slots[i].ip);
    TextReads(d.slots[i].name);
  }

  /** What the entry tells apart from its nodes. */
  lemma FieldsTell(src: Ipv4Addr, d: Description)
    requires d.Valid() && |Written(d)| >= 0x480
    ensures var r := RoomOf(src, Written(d));
            && IsDotted(r.ip, src)
            && |r.contentId| == 16 && Unhex(r.contentId) == d.content
            && |r.sessionId| == 32 && Unhex(r.sessionId) == d.session
            && ReadsAs(r.hostPlayerName, d.slots[0].name)
            && |r.advertiseData| == 2 * r.advertiseDataLen
            && 0 <= r.advertiseDataLen <= 384
            && Unhex(r.advertiseData) == d.advertised[..r.advertiseDataLen]
  {
    var p: NetworkInfo := Written(d);
    HeadReads(d);
    TailReads(d);
    HostReads(d);
    DottedTells(src);
    UnhexHex(ContentId(p));
    UnhexHex(SessionId(p));
    UnhexHex(AdvertiseData(p));
    TextReads(HostPlayerName(p));
  }

  /** The entry made of a description tells what its sender wrote. */
  lemma RoomTells(src: Ipv4Addr, d: Description)
    requires d.Valid()
    ensures |Written(d)| >= 0x480 && Tells(RoomOf(src, Written(d)), src, d)
  {
    WrittenSize(d);
    var p: NetworkInfo := Written(d);
    HeadReads(d);
    TailReads(d);
    FieldsTell(src, d);
    forall i | 0 <= i < NodeCount(p) ensures NodeTells(RoomOf(src, p).nodes[i], d.slots[i]) {
      NodeIsTold(d, i);
    }
  }

  // ---- From the packet to the table ----

  lemma EntryIsRoomOf(rooms: RoomTable, src: Ipv4Addr, packet: Packet, peel: Packet -> Option<Packet>,
      info: NetworkInfo)
    requires peel(packet).Some? && Decoded(peel(packet).value) == Ok(LdnPacket(1, info))
    ensures RoomUpdate(rooms, Whole(src, Ipv4Addr(10, 13, 37, 0), packet), peel) == rooms[src := RoomOf(src, info)]
  {
  }

  /** A decoded packet of type 1 for 10.13.37.0 with a description puts it into the table
      under its sender's address, and changes nothing else. */
  lemma DescriptionIsListed(rooms: RoomTable, src: Ipv4Addr, packet: Packet, peel: Packet -> Option<Packet>,
      d: Description)
    requires d.Valid() && peel(packet).Some?
    requires Decoded(peel(packet).value) == Ok(LdnPacket(1, Written(d)))
    ensures var after := RoomUpdate(rooms, Whole(src, Ipv4Addr(10, 13, 37, 0), packet), peel);
            && src in after && Tells(after[src], src, d)
            && after == rooms[src := after[src]]
  {
    RoomTells(src, d);
    EntryIsRoomOf(rooms, src, packet, peel, Written(d));
  }

  /** On the wire: uncompressed, with any header fields that leave the length in order. */
  lemma PlainDescriptionIsListed(rooms: RoomTable, src: Ipv4Addr, packet: Packet, peel: Packet -> Option<Packet>,
      d: Description, compressed: byte, len: u16, original: u16, reserved: u16)
    requires d.Valid() && compressed != 1 && len <= |Written(d)|
    requires peel(packet) == Some(Header(1, compressed, len, original, reserved) + Written(d))
    ensures var after := RoomUpdate(rooms, Whole(src, Ipv4Addr(10, 13, 37, 0), packet), peel);
            && src in after && Tells(after[src], src, d)
            && after == rooms[src := after[src]]
  {
    PlainRoundTrip(1, compressed, len, Written(d), original, reserved);
    DescriptionIsListed(rooms, src, packet, peel, d);
  }

  /** The packet cannot announce a room: it is for another address, holds no decodable
      payload, one of another type, or one too short. */
  ghost predicate Silent(dst: Ipv4Addr, packet: Packet, peel: Packet -> Option<Packet>) {
    || dst != Ipv4Addr(10, 13, 37, 0)
    || peel(packet) == None
    || Decoded(peel(packet).value).Err?
    || Decoded(peel(packet).value).value.typ != 1
    || |Decoded(peel(packet).value).value.payload| < 1152
  }

  /** Only packets that can announce a room change the table. */
  lemma TableChangesIff(rooms: RoomTable, w: Inbound, peel: Packet -> Option<Packet>)
    ensures !w.Whole? || Silent(w.dst, w.packet, peel) ==> RoomUpdate(rooms, w, peel) == rooms
    ensures w.Whole? && !Silent(w.dst, w.packet, peel) ==>
              && w.src in RoomUpdate(rooms, w, peel)
              && RoomUpdate(rooms, w, peel).Keys == rooms.Keys + {w.src}
              && (forall a :: a in rooms && a != w.src ==> RoomUpdate(rooms, w, peel)[a] == rooms[a])
  {
  }

  /** A packet in one datagram is seen with the addresses of its header; the parser's cache
      is not touched. */
  lemma WholeIsSeen(c: FragParser.Cache, head: Packet, src: Ipv4Addr, dst: Ipv4Addr, tail: Packet)
    requires |head| == 12 && |tail| <= 2027
    ensures var packet := head + AddrBytes(src) + AddrBytes(dst) + tail;
            Inspect(c, [1] + packet) == (c, Whole(src, dst, packet))
  {
    WholeRoutedBy(head, src, dst, tail);
  }
}
