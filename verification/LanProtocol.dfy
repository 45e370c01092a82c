/** Decoder of the LAN play discovery packets: a 12-byte header, a possibly
    compressed payload, and the network description inside it. */
module LanProtocol {
  import opened Basics
  import opened Frame
  import opened ZeroRunCodec

  datatype Error = Truncated | Invalid | DecompressFailed

  const MAGIC: nat := 0x1145_1400
  const HEADER_LENGTH: nat := 12
  const NETWORK_INFO_LENGTH: nat := 0x480
  const NODE_LENGTH: nat := 0x40
  const MAX_NODES: nat := 8
  const MAX_ADVERTISE: nat := 384

  datatype LdnPacket = LdnPacket(typ: byte, payload: Packet)

  function LittleEndian(lo: byte, hi: byte): u16 { lo + hi * 0x100 }

  function LittleEndian32(p: Packet): nat
    requires |p| == 4
  {
    p[0] as int + p[1] as int * 0x100 + p[2] as int * 0x1_0000 + p[3] as int * 0x100_0000
  }

  function Magic(p: Packet): nat
    requires |p| >= HEADER_LENGTH
  {
    LittleEndian32(p[0..4])
  }

  function DeclaredLen(p: Packet): u16
    requires |p| >= HEADER_LENGTH
  {
    LittleEndian(p[6], p[7])
  }

  function DecompressLen(p: Packet): u16
    requires |p| >= HEADER_LENGTH
  {
    LittleEndian(p[8], p[9])
  }

  /** LdnHeader::check. */
  function Check(p: Packet): Result<(), Error> {
    if |p| < HEADER_LENGTH then Err(Truncated)
    else if Magic(p) != MAGIC then Err(Truncated)
    else if |p| < DeclaredLen(p) + HEADER_LENGTH then Err(Truncated)
    else Ok(())
  }

  /** What the bytes of a packet stand for. */
  function Decoded(p: Packet): Result<LdnPacket, Error> {
    if Check(p).Err? then
      Err(Check(p).error)
    else
      var body := p[HEADER_LENGTH..];
      if p[5] != 1 then
        Ok(LdnPacket(p[4], body))
      else if Accepted(body, DecompressLen(p)) && |Emitted(body)| == DecompressLen(p) then
        Ok(LdnPacket(p[4], Emitted(body)))
      else
        Err(DecompressFailed)
  }

  method New(payload: Packet) returns (r: Result<LdnPacket, Error>)
    ensures r == Decoded(payload)
  {
    var header := Check(payload);
    if header.Err? {
      return Err(header.error);
    }
    var body := payload[HEADER_LENGTH..];
    if payload[5] == 1 {
      var buf := new byte[DecompressLen(payload)](_ => 0);
      ghost var before := buf[..];
      var size := Decompress(body, buf);
      assert Promise(body, before, size, buf[..]);
      if size.None? {
        return Err(DecompressFailed);
      }
      if size.value != buf.Length {
        return Err(DecompressFailed);
      }
      assert body[..|body|] == body;
      assert buf[..] == Emitted(body);
      return Ok(LdnPacket(payload[4], buf[..]));
    }
    r := Ok(LdnPacket(payload[4], body));
  }

  /** What a client sends (specification only). */
  function Header(typ: byte, compressed: byte, len: u16, original: u16, reserved: u16): (h: Packet)
    ensures |h| == HEADER_LENGTH
  {
    [0x00, 0x14, 0x45, 0x11, typ, compressed, LowByte(len), HighByte(len),
     LowByte(original), HighByte(original), LowByte(reserved), HighByte(reserved)]
  }

  lemma HeaderChecks(typ: byte, compressed: byte, len: u16, body: Packet, original: u16, reserved: u16)
    ensures var p := Header(typ, compressed, len, original, reserved) + body;
            && Check(p) == (if len <= |body| then Ok(()) else Err(Truncated))
            && DecompressLen(p) == original
            && p[4] == typ && p[5] == compressed && p[HEADER_LENGTH..] == body
  {
    var p := Header(typ, compressed, len, original, reserved) + body;
    assert p[0..4] == [0x00, 0x14, 0x45, 0x11];
    WordRead(len);
    WordRead(original);
  }

  /** The packet is a header with these fields and a body at least as long as declared. */
  ghost predicate Framed(p: Packet, typ: byte, compressed: byte, len: u16, body: Packet, original: u16, reserved: u16) {
    p == Header(typ, compressed, len, original, reserved) + body && len <= |body|
  }

  lemma MagicBytes(p: Packet)
    requires |p| >= HEADER_LENGTH && Magic(p) == MAGIC
    ensures p[0] == 0x00 && p[1] == 0x14 && p[2] == 0x45 && p[3] == 0x11
  {
    assert p[0..4] == [p[0], p[1], p[2], p[3]];
  }

  lemma WordWritten(lo: byte, hi: byte)
    ensures LowByte(LittleEndian(lo, hi)) == lo && HighByte(LittleEndian(lo, hi)) == hi
  {
  }

  lemma TwelveBytes(p: Packet, h: Packet)
    requires |p| >= 12 && |h| == 12
    requires p[0] == h[0] && p[1] == h[1] && p[2] == h[2] && p[3] == h[3] && p[4] == h[4] && p[5] == h[5]
    requires p[6] == h[6] && p[7] == h[7] && p[8] == h[8] && p[9] == h[9] && p[10] == h[10] && p[11] == h[11]
    ensures p == h + p[12..]
  {
  }

  lemma HeaderOf(p: Packet)
    requires |p| >= HEADER_LENGTH && Magic(p) == MAGIC
    ensures p == Header(p[4], p[5], DeclaredLen(p), DecompressLen(p), LittleEndian(p[10], p[11])) + p[HEADER_LENGTH..]
  {
    MagicBytes(p);
    WordWritten(p[6], p[7]);
    WordWritten(p[8], p[9]);
    WordWritten(p[10], p[11]);
    TwelveBytes(p, Header(p[4], p[5], DeclaredLen(p), DecompressLen(p), LittleEndian(p[10], p[11])));
  }

  /** The check passes exactly the packets that a header and a long enough body make up;
      all others are refused in the same way. */
  lemma CheckExact(p: Packet)
    ensures Check(p) == Ok(()) <==>
            exists typ, compressed, len, body, original, reserved ::
              Framed(p, typ, compressed, len, body, original, reserved)
    ensures Check(p) == Ok(()) || Check(p) == Err(Truncated)
  {
    if Check(p).Ok? {
      HeaderOf(p);
      assert Framed(p, p[4], p[5], DeclaredLen(p), p[HEADER_LENGTH..], DecompressLen(p), LittleEndian(p[10], p[11]));
    }
    forall typ, compressed, len, body, original, reserved | Framed(p, typ, compressed, len, body, original, reserved)
      ensures Check(p).Ok?
    {
      HeaderChecks(typ, compressed, len, body, original, reserved);
    }
  }

  lemma WordRead(w: u16)
    ensures LittleEndian(LowByte(w), HighByte(w)) == w
  {
  }

  /** An uncompressed packet is received as everything after its header, which is
      what was sent but is not cut to the declared length. */
  lemma PlainRoundTrip(typ: byte, compressed: byte, len: u16, body: Packet, original: u16, reserved: u16)
    requires compressed != 1 && len <= |body|
    ensures Decoded(Header(typ, compressed, len, original, reserved) + body) == Ok(LdnPacket(typ, body))
  {
    HeaderChecks(typ, compressed, len, body, original, reserved);
  }

  /** Exactly which payload a compressed packet brings: the one that its body is a text of,
      if that has the announced length and the decoder's last position rule is met. */
  lemma CompressedExact(typ: byte, len: u16, body: Packet, original: u16, reserved: u16, x: Packet)
    requires len <= |body|
    ensures Decoded(Header(typ, 1, len, original, reserved) + body) == Ok(LdnPacket(typ, x)) <==>
            |x| == original && exists ts :: Decodes(body, original, ts) && Expand(ts) == x
    ensures (forall y :: Decoded(Header(typ, 1, len, original, reserved) + body) != Ok(LdnPacket(typ, y))) ==>
              Decoded(Header(typ, 1, len, original, reserved) + body) == Err(DecompressFailed)
  {
    HeaderChecks(typ, 1, len, body, original, reserved);
    AcceptedIffDecodes(body, original);
    var r := Decoded(Header(typ, 1, len, original, reserved) + body);
    if r.Ok? {
      assert r == Ok(LdnPacket(typ, r.value.payload));
    }
  }

  /** A payload sent with the greedy zero-run encoding and its true length is received
      as it was if and only if its trailing zero run is not of length 1 modulo 256;
      otherwise the packet is refused. */
  lemma {:induction false} CompressedRoundTrip(typ: byte, x: Packet, body: Packet, len: u16, reserved: u16)
    requires |x| < 0x1_0000 && body == Serial(Compress(x)) && len <= |body|
    ensures Decoded(Header(typ, 1, len, |x|, reserved) + body) ==
            if TrailingZeros(x) % 256 != 1 then Ok(LdnPacket(typ, x)) else Err(DecompressFailed)
  {
    HeaderChecks(typ, 1, len, body, |x|, reserved);
    RoundTrip(x, |x|);
  }

  /** A compressed packet brings payload x. */
  ghost predicate Brings(typ: byte, body: Packet, x: Packet, reserved: u16)
    requires |x| < 0x1_0000
  {
    Decoded(Header(typ, 1, 0, |x|, reserved) + body) == Ok(LdnPacket(typ, x))
  }

  lemma {:induction false} BringsWhatItEmits(typ: byte, body: Packet, x: Packet, reserved: u16)
    requires |x| < 0x1_0000
    ensures Brings(typ, body, x, reserved) <==> Accepted(body, |x|) && Emitted(body) == x
  {
    HeaderChecks(typ, 1, 0, body, |x|, reserved);
  }

  lemma BroughtHasTokens(typ: byte, body: Packet, x: Packet, reserved: u16)
    requires |x| < 0x1_0000 && Brings(typ, body, x, reserved)
    ensures exists ts :: Decodes(Serial(ts), |x|, ts) && Expand(ts) == x
  {
    BringsWhatItEmits(typ, body, x, reserved);
    AcceptedIffDecodes(body, |x|);
    var ts :| Decodes(body, |x|, ts);
    assert Decodes(Serial(ts), |x|, ts) && Expand(ts) == x;
  }

  lemma {:induction false} TokensAreBrought(typ: byte, ts: seq<Token>, x: Packet, reserved: u16)
    requires |x| < 0x1_0000 && Decodes(Serial(ts), |x|, ts) && Expand(ts) == x
    ensures Brings(typ, Serial(ts), x, reserved)
  {
    AcceptedIffDecodes(Serial(ts), |x|);
    BringsWhatItEmits(typ, Serial(ts), x, reserved);
  }

  /** Whatever text its sender chooses, a compressed payload that ends in exactly one zero
      never arrives, and every other payload has a text that does. */
  lemma {:induction false} CompressedReceivable(typ: byte, x: Packet, reserved: u16)
    requires |x| < 0x1_0000
    ensures (exists body :: Brings(typ, body, x, reserved)) <==> TrailingZeros(x) != 1
  {
    SomeTextDecodes(x);
    if body :| Brings(typ, body, x, reserved) {
      BroughtHasTokens(typ, body, x, reserved);
    }
    if TrailingZeros(x) != 1 {
      var ts :| Decodes(Serial(ts), |x|, ts) && Expand(ts) == x;
      TokensAreBrought(typ, ts, x, reserved);
    }
  }

  /** The smallest payload the compressed format cannot carry: a single zero byte. */
  lemma SingleZeroIsRefused(typ: byte, reserved: u16)
    ensures Compress([0]) == [ZeroRun(0)] && Serial([ZeroRun(0)]) == [0, 0]
    ensures Decoded(Header(typ, 1, 2, 1, reserved) + [0, 0]) == Err(DecompressFailed)
  {
    assert Compress([0]) == [ZeroRun(0)] by {
      assert [0][1..] == [];
    }
    var ts := [ZeroRun(0)];
    assert ts[1..] == [] && Serial(ts) == Wire(ts[0]) + Serial(ts[1..]);
    assert TrailingZeros([0]) == 1 by {
      assert [0][..0] == [];
    }
    CompressedRoundTrip(typ, [0], [0, 0], 2, reserved);
  }

  // ---- The network description ----

  type NetworkInfo = p: Packet | NETWORK_INFO_LENGTH <= |p| witness Zeros(NETWORK_INFO_LENGTH)
  type NodeInfo = p: Packet | NODE_LENGTH <= |p| witness Zeros(NODE_LENGTH)

  function NodeCountMax(p: NetworkInfo): nat { Min(p[0x66], MAX_NODES) }

  function NodeCount(p: NetworkInfo): nat { Min(p[0x67], MAX_NODES) }

  function AdvertiseDataLen(p: NetworkInfo): nat {
    Min(LittleEndian(p[0x26A], p[0x26B]), MAX_ADVERTISE)
  }

  function AdvertiseData(p: NetworkInfo): Packet {
    p[0x26C..0x26C + AdvertiseDataLen(p)]
  }

  function Reversed(s: Packet): (r: Packet)
    ensures |r| == |s|
  {
    seq(|s|, i requires 0 <= i < |s| => s[|s| - 1 - i])
  }

  function ContentId(p: NetworkInfo): Packet { Reversed(p[0..8]) }

  function SessionId(p: NetworkInfo): Packet { p[16..32] }

  function NodeIp(n: NodeInfo): Ipv4Addr {
    Ipv4Addr(n[3], n[2], n[1], n[0])
  }

  function NodeId(n: NodeInfo): byte { n[0xA] }

  predicate NodeConnected(n: NodeInfo) { n[0xB] == 1 }

  /** The bytes before the first zero. */
  function NameBytes(s: Packet): Packet {
    if s == [] || s[0] == 0 then [] else [s[0]] + NameBytes(s[1..])
  }

  function HostPlayerName(p: NetworkInfo): Packet { NameBytes(p[0x74..0x74 + 0x20]) }

  function PlayerName(n: NodeInfo): Packet { NameBytes(n[0xC..0xC + 0x20]) }

  /** Node number i occupies 64 bytes from 0x68 on. */
  function NodeAt(p: NetworkInfo, i: nat): NodeInfo
    requires i < MAX_NODES
  {
    p[0x68 + NODE_LENGTH * i..0x68 + NODE_LENGTH * i + NODE_LENGTH]
  }

  method Nodes(p: NetworkInfo) returns (out: seq<NodeInfo>)
    ensures |out| == NodeCount(p) <= MAX_NODES
    ensures forall i :: 0 <= i < |out| ==> out[i] == NodeAt(p, i)
  {
    out := [];
    for i := 0 to NodeCount(p)
      invariant |out| == i
      invariant forall j :: 0 <= j < i ==> out[j] == NodeAt(p, j)
    {
      var start := 0x68 + 0x40 * i;
      out := out + [p[start..start + 0x40]];
    }
  }
}
