/** The forwarder's datagram format: one type byte, then a body whose length
    bounds depend on the type. */
module Frame {
  import opened Basics

  datatype Ipv4Addr = Ipv4Addr(a: byte, b: byte, c: byte, d: byte)

  /** Source and destination inside the virtual LAN. */
  datatype OutAddr = OutAddr(srcIp: Ipv4Addr, dstIp: Ipv4Addr)

  datatype ParseError = NotParseable

  const KEEPALIVE: byte := 0
  const IPV4: byte := 1
  const PING: byte := 2
  const IPV4_FRAG: byte := 3
  const AUTH_ME: byte := 4
  const INFO: byte := 0x10

  const MAX_LENGTH: nat := 2048
  const IPV4_MIN_LENGTH: nat := 20
  const FRAG_MIN_LENGTH: nat := 16
  const PING_LENGTH: nat := 4

  /** Bodies that passed the parser's lower length bound. */
  type Ipv4Body = p: Packet | IPV4_MIN_LENGTH <= |p| witness Zeros(IPV4_MIN_LENGTH)
  type FragBody = p: Packet | FRAG_MIN_LENGTH <= |p| witness Zeros(FRAG_MIN_LENGTH)
  type PingBody = p: Packet | |p| == PING_LENGTH witness Zeros(PING_LENGTH)

  datatype ForwarderFrame =
    | Keepalive
    | Ipv4(ipv4: Ipv4Body)
    | Ping(echo: PingBody)
    | Ipv4Frag(frag: FragBody)
    | AuthMe
    | Info
  {
    /** The two kinds of frame that carry virtual LAN traffic. */
    predicate IsData() {
      Ipv4? || Ipv4Frag?
    }

    /** The addresses the two data frames are routed by. */
    function OutAddrOf(): OutAddr
      requires IsData()
    {
      match this
      case Ipv4(p) => OutAddr(Ipv4SrcIp(p), Ipv4DstIp(p))
      case Ipv4Frag(p) => OutAddr(FragSrcIp(p), FragDstIp(p))
    }
  }

  function AddrAt(p: Packet, at: nat): Ipv4Addr
    requires at + 4 <= |p|
  {
    Ipv4Addr(p[at], p[at + 1], p[at + 2], p[at + 3])
  }

  function Ipv4SrcIp(p: Ipv4Body): Ipv4Addr { AddrAt(p, 12) }

  function Ipv4DstIp(p: Ipv4Body): Ipv4Addr { AddrAt(p, 16) }

  function FragSrcIp(p: FragBody): Ipv4Addr { AddrAt(p, 0) }

  function FragDstIp(p: FragBody): Ipv4Addr { AddrAt(p, 4) }

  /** ForwarderFrame::parse: the outer bounds, then the type byte, then the bounds of the body. */
  function Parse(bytes: Packet): Result<ForwarderFrame, ParseError> {
    if !(1 <= |bytes| <= MAX_LENGTH) then
      Err(NotParseable)
    else
      var rest := bytes[1..];
      if bytes[0] == KEEPALIVE then
        Ok(Keepalive)
      else if bytes[0] == IPV4 then
        if IPV4_MIN_LENGTH <= |rest| <= MAX_LENGTH then Ok(Ipv4(rest)) else Err(NotParseable)
      else if bytes[0] == PING then
        if |rest| == PING_LENGTH then Ok(Ping(rest)) else Err(NotParseable)
      else if bytes[0] == IPV4_FRAG then
        if FRAG_MIN_LENGTH <= |rest| <= MAX_LENGTH then Ok(Ipv4Frag(rest)) else Err(NotParseable)
      else if bytes[0] == AUTH_ME then
        Ok(AuthMe)
      else if bytes[0] == INFO then
        Ok(Info)
      else
        Err(NotParseable)
  }

  /** Ping::build: the reply to a ping. */
  function PingReply(p: PingBody): Packet { [PING] + p[0..4] }

  /** One fragment with its header fields decoded. */
  datatype FragItem = FragItem(
    srcIp: Ipv4Addr, dstIp: Ipv4Addr, id: u16, part: byte, totalPart: byte,
    len: u16, pmtu: u16, data: Packet)

  function FromFrame(p: FragBody): FragItem {
    FragItem(FragSrcIp(p), FragDstIp(p), BigEndian(p[8], p[9]), p[10], p[11],
             BigEndian(p[12], p[13]), BigEndian(p[14], p[15]), p[16..])
  }

  function AddrBytes(a: Ipv4Addr): Packet { [a.a, a.b, a.c, a.d] }

  function WordBytes(w: u16): Packet { [HighByte(w), LowByte(w)] }

  /** What a client puts on the wire for a fragment (specification only: the
      server never builds one). */
  function FragHeader(i: FragItem): (p: Packet)
    ensures |p| == FRAG_MIN_LENGTH
  {
    AddrBytes(i.srcIp) + AddrBytes(i.dstIp) + WordBytes(i.id) + [i.part, i.totalPart]
    + WordBytes(i.len) + WordBytes(i.pmtu)
  }

  function EncodeFrag(i: FragItem): FragBody { FragHeader(i) + i.data }

  lemma WordBytesRead(w: u16)
    ensures BigEndian(WordBytes(w)[0], WordBytes(w)[1]) == w
  {
  }

  lemma WordReadBytes(hi: byte, lo: byte)
    ensures WordBytes(BigEndian(hi, lo)) == [hi, lo]
  {
  }

  /** Decoding a fragment as a client lays it out gives the fragment back. */
  lemma DecodeEncode(i: FragItem)
    ensures FromFrame(EncodeFrag(i)) == i
  {
    var e, h := EncodeFrag(i), FragHeader(i);
    assert e[16..] == i.data;
    assert forall k :: 0 <= k < 16 ==> e[k] == h[k];
    WordBytesRead(i.id);
    WordBytesRead(i.len);
    WordBytesRead(i.pmtu);
  }

  /** Every fragment body is the layout of what it decodes to, so body and decoded
      item carry the same information. */
  lemma EncodeDecode(p: FragBody)
    ensures EncodeFrag(FromFrame(p)) == p
  {
    var h := FragHeader(FromFrame(p));
    WordReadBytes(p[8], p[9]);
    WordReadBytes(p[12], p[13]);
    WordReadBytes(p[14], p[15]);
    assert h == [p[0], p[1], p[2], p[3]] + [p[4], p[5], p[6], p[7]] + [p[8], p[9]] + [p[10], p[11]]
                + [p[12], p[13]] + [p[14], p[15]];
    assert h == p[..16];
    assert p == p[..16] + p[16..];
  }

  /** The datagram that spells a frame. Bodies of the three kinds without content are
      not looked at. */
  ghost predicate Spells(bytes: Packet, f: ForwarderFrame) {
    && 1 <= |bytes| <= 2048
    && match f
       case Keepalive => bytes[0] == 0
       case Ipv4(p) => bytes == [1] + p && |p| >= 20
       case Ping(p) => bytes == [2] + p && |p| == 4
       case Ipv4Frag(p) => bytes == [3] + p && |p| >= 16
       case AuthMe => bytes[0] == 4
       case Info => bytes[0] == 0x10
  }

  /** Exactly which datagrams are read as which frame; so none is read as two, and what
      spells no frame is refused. */
  lemma ParseExact(bytes: Packet, f: ForwarderFrame)
    ensures Parse(bytes) == Ok(f) <==> Spells(bytes, f)
  {
    if bytes != [] {
      assert bytes == [bytes[0]] + bytes[1..];
    }
    if f.Ipv4? { assert ([1] + f.ipv4)[1..] == f.ipv4; }
    if f.Ping? { assert ([2] + f.echo)[1..] == f.echo; }
    if f.Ipv4Frag? { assert ([3] + f.frag)[1..] == f.frag; }
  }

  /** The reply to a ping is the datagram that asked for it. */
  lemma PingEchoes(bytes: Packet, p: PingBody)
    requires Parse(bytes) == Ok(Ping(p))
    ensures PingReply(p) == bytes
  {
    ParseExact(bytes, Ping(p));
    assert p[0..4] == p;
  }

  /** A fragment survives its trip as a datagram exactly when type byte, header
      and data together stay within the outer bound: 2031 data bytes at most. */
  lemma FragDatagramParses(i: FragItem)
    ensures Parse([IPV4_FRAG] + EncodeFrag(i)) ==
            if |i.data| <= 2031 then Ok(Ipv4Frag(EncodeFrag(i)))
            else Err(NotParseable)
  {
    assert ([IPV4_FRAG] + EncodeFrag(i))[1..] == EncodeFrag(i);
  }

  /** A whole packet survives as a datagram exactly when it has an IPv4 header
      and stays within the outer bound. */
  lemma WholeDatagramParses(p: Packet)
    ensures Parse([IPV4] + p).Ok? <==> 20 <= |p| <= 2047
    ensures Parse([IPV4] + p).Ok? ==> Parse([IPV4] + p) == Ok(Ipv4(p))
  {
    assert ([IPV4] + p)[1..] == p;
  }

  // ---- What a datagram is, told of its bytes ----

  /** Virtual LAN traffic: a whole packet, or a part of one. */
  predicate CarriesTraffic(bytes: Packet) {
    || (21 <= |bytes| <= 2048 && bytes[0] == 1)
    || (17 <= |bytes| <= 2048 && bytes[0] == 3)
  }

  /** The addresses of traffic: those of the IPv4 header, or of the fragment header. */
  function AddressesIn(bytes: Packet): OutAddr
    requires CarriesTraffic(bytes)
  {
    if bytes[0] == 1 then
      OutAddr(Ipv4Addr(bytes[13], bytes[14], bytes[15], bytes[16]),
              Ipv4Addr(bytes[17], bytes[18], bytes[19], bytes[20]))
    else
      OutAddr(Ipv4Addr(bytes[1], bytes[2], bytes[3], bytes[4]), Ipv4Addr(bytes[5], bytes[6], bytes[7], bytes[8]))
  }

  predicate IsPing(bytes: Packet) {
    |bytes| == 5 && bytes[0] == 2
  }

  /** A frame that is only its type: keepalive, authentication, information. */
  predicate IsSignal(bytes: Packet) {
    1 <= |bytes| <= 2048 && (bytes[0] == 0 || bytes[0] == 4 || bytes[0] == 0x10)
  }

  /** Which datagrams parse, and as what. */
  lemma ParsesIff(bytes: Packet)
    ensures Parse(bytes).Ok? <==> CarriesTraffic(bytes) || IsPing(bytes) || IsSignal(bytes)
    ensures IsPing(bytes) <==> Parse(bytes).Ok? && Parse(bytes).value.Ping?
    ensures CarriesTraffic(bytes) <==> Parse(bytes).Ok? && Parse(bytes).value.IsData()
    ensures CarriesTraffic(bytes) ==> Parse(bytes).value.OutAddrOf() == AddressesIn(bytes)
  {
  }

  /** A whole packet is routed by bytes 12 to 15 and 16 to 19 of its header. */
  lemma WholeRoutedBy(head: Packet, src: Ipv4Addr, dst: Ipv4Addr, tail: Packet)
    requires |head| == 12 && |tail| <= 2027
    ensures var packet := head + AddrBytes(src) + AddrBytes(dst) + tail;
            && Parse([1] + packet) == Ok(Ipv4(packet))
            && Ipv4(packet).OutAddrOf() == OutAddr(src, dst)
  {
    var packet := head + AddrBytes(src) + AddrBytes(dst) + tail;
    WholeDatagramParses(packet);
    assert packet[12..16] == AddrBytes(src) && packet[16..20] == AddrBytes(dst);
    assert forall i :: 0 <= i < 4 ==> packet[12 + i] == packet[12..16][i] && packet[16 + i] == packet[16..20][i];
  }

  /** A fragment is routed by the addresses of its header. */
  lemma FragRoutedBy(i: FragItem)
    requires |i.data| <= 2031
    ensures Parse([3] + EncodeFrag(i)) == Ok(Ipv4Frag(EncodeFrag(i)))
    ensures Ipv4Frag(EncodeFrag(i)).OutAddrOf() == OutAddr(i.srcIp, i.dstIp)
  {
    FragDatagramParses(i);
    DecodeEncode(i);
  }
}
