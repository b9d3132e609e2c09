/** `packetLoop` itself: it reads and rewrites the packet buffer and the static connection fields, and
    takes exactly the steps of `Gateway` and `TcpClient` (tcpip.cpp). */
module PacketLoop {
  import opened Bytes
  import opened Checksum
  import opened Packet
  import opened TcpSegment
  import opened TcpServer
  import opened Gateway
  import opened TcpClient
  import HttpReply

  const ARP_OPCODE_H_P := 20
  const ARP_OPCODE_L_P := 21
  const ARP_SRC_MAC_P := 22
  const ARP_SRC_IP_P := 28
  const ARP_DST_MAC_P := 32
  const ARP_DST_IP_P := 38
  const CLIENT_PORT_H: byte := 11

  // ---- what the buffer says

  /** The segment in the buffer, as the client sees it. */
  function SegmentOf(b: seq<byte>, hisip: Ip, plen: u16, fillLen: u16): Segment
    requires |b| >= TCP_DATA_P
  {
    var f := b[TCP_FLAGS_P];
    Segment(b[IP_SRC_P..IP_DST_P] == hisip, HasFlag(f, SYN), HasFlag(f, FIN), HasFlag(f, RST), HasFlag(f, ACK),
            TcpDataLen(b), TcpDataStart(b), plen, b[TCP_DST_PORT_L_P], fillLen)
  }

  predicate IsArpForUs(b: seq<byte>, plen: u16, myip: Ip)
    requires |b| >= TCP_DATA_P
  {
    plen >= 41 && b[ETH_TYPE_H_P] == 8 && b[ETH_TYPE_L_P] == 6 && b[ARP_DST_IP_P..ARP_DST_IP_P + 4] == myip
  }

  predicate IsIpForUs(b: seq<byte>, plen: u16, myip: Ip, broadcast: Ip)
    requires |b| >= TCP_DATA_P
  {
    && plen >= 42 && b[ETH_TYPE_H_P] == 8 && b[ETH_TYPE_L_P] == 0 && b[IP_P] == 0x45
    && b[IP_DST_P..34] in {myip, broadcast, [0xff, 0xff, 0xff, 0xff]}
  }

  datatype Kind = Nothing | ArpForUs | Echo | Listened | ForClient | ForServer | Ignored

  /** Which branch of `packetLoop` a frame takes. `taken` says whether some UDP listener would take it. */
  function Classify(b: seq<byte>, plen: u16, own: Own, broadcast: Ip, taken: bool): Kind
    requires |b| >= TCP_DATA_P
  {
    if plen == 0 then Nothing
    else if IsArpForUs(b, plen, own.ip) then ArpForUs
    else if !IsIpForUs(b, plen, own.ip, broadcast) then Ignored
    else if b[IP_PROTO_P] == 1 && b[ICMP_TYPE_P] == 8 then Echo
    else if taken && b[IP_PROTO_P] == 17 then Listened
    else if plen < 54 && b[IP_PROTO_P] != 6 then Ignored
    else if b[TCP_DST_PORT_H_P] == CLIENT_PORT_H then ForClient
    else ForServer
  }

  function GwAfter(kind: Kind, gw: Gw, log: seq<GwEvent>, b: seq<byte>, own: Own, linkUp: bool): (Gw, seq<GwEvent>)
    requires |b| >= TCP_DATA_P
  {
    var (g, es) :=
      if kind.Nothing? then Gateway.Idle(gw, own, linkUp)
      else if kind.ArpForUs? then
        Arp(gw, own, b[ARP_OPCODE_L_P], b[ARP_SRC_IP_P..ARP_DST_MAC_P], b[ARP_SRC_MAC_P..ARP_SRC_IP_P])
      else (gw, []);
    (g, log + es)
  }

  function ConnAfter(kind: Kind, conn: Conn, log: seq<TcpClient.Event>, gw: Gw, b: seq<byte>, plen: u16, fillLen: u16,
                     linkUp: bool): (Conn, seq<TcpClient.Event>)
    requires |b| >= TCP_DATA_P && conn.fd < 8 && (kind.ForClient? ==> 8 <= plen)
  {
    var (c, es) :=
      if kind.Nothing? then TcpClient.Idle(conn, AskGateway(gw, linkUp).0.wait.have)
      else if kind.ForClient? then Receive(conn, SegmentOf(b, gw.hisip, plen, fillLen))
      else (conn, []);
    (c, log + es)
  }

  // ---- frames sent, as they stand at the start of the buffer

  /** A who-has for `ip`: addressed to everybody, naming us as the sender. */
  ghost predicate WhoHasFrame(b: seq<byte>, own: Own, ip: Ip)
    requires |b| >= 42
  {
    && b[..6] == [0xff, 0xff, 0xff, 0xff, 0xff, 0xff] && b[6..12] == own.mac
    && b[ETH_TYPE_H_P..ARP_SRC_MAC_P] == [8, 6, 0, 1, 8, 0, 6, 4, 0, REQUEST]
    && b[ARP_SRC_MAC_P..ARP_SRC_IP_P] == own.mac && b[ARP_SRC_IP_P..ARP_DST_MAC_P] == own.ip
    && b[ARP_DST_MAC_P..ARP_DST_IP_P] == [0, 0, 0, 0, 0, 0] && b[ARP_DST_IP_P..42] == ip
  }

  /** The answer to the request `o`. */
  ghost predicate ArpAnswer(b: seq<byte>, o: seq<byte>, own: Own)
    requires |b| == |o| >= TCP_DATA_P
  {
    && b[..6] == o[6..12] && b[6..12] == own.mac
    && b[ETH_TYPE_H_P..ARP_OPCODE_H_P] == o[ETH_TYPE_H_P..ARP_OPCODE_H_P] && b[ARP_OPCODE_H_P..ARP_SRC_MAC_P] == [0, REPLY]
    && b[ARP_SRC_MAC_P..ARP_SRC_IP_P] == own.mac && b[ARP_SRC_IP_P..ARP_DST_MAC_P] == own.ip
    && b[ARP_DST_MAC_P..ARP_DST_IP_P] == o[ARP_SRC_MAC_P..ARP_SRC_IP_P]
    && b[ARP_DST_IP_P..42] == o[ARP_SRC_IP_P..ARP_DST_MAC_P]
  }

  /** The data segment sent when the peer has accepted: next in both streams, both checksums right. */
  ghost predicate DataReply(b: seq<byte>, o: seq<byte>, data: seq<byte>, own: Own)
    requires |b| == |o| >= TCP_DATA_P
  {
    && TCP_DATA_P + |data| <= |b| && b[TCP_DATA_P..TCP_DATA_P + |data|] == data
    && b[..6] == o[6..12] && b[6..12] == own.mac && b[12..16] == o[12..16] && b[IP_PROTO_P] == o[IP_PROTO_P]
    && b[IP_SRC_P..IP_DST_P] == own.ip && b[IP_DST_P..34] == o[IP_SRC_P..IP_DST_P]
    && b[34..36] == o[36..38] && b[36..38] == o[34..36]
    && Field32(b, TCP_SEQ_H_P) == Field32(o, TCP_SEQACK_H_P)
    && Field32(b, TCP_SEQACK_H_P) == (Field32(o, TCP_SEQ_H_P) + 1) % 0x1_0000_0000
    && b[TCP_FLAGS_P] == ACK + PUSH && b[TCP_HEADER_LEN_P] == 0x50
    && 256 * (b[IP_TOTLEN_H_P] as int) + b[IP_TOTLEN_L_P] as int == 40 + |data|
    && IpOk(b) && TcpOk(b, |data|)
  }

  /** The frame that stands in the buffer after the events `es` of a step on the segment `o`: the last one
      sent, or the segment itself. */
  ghost predicate Left(b: seq<byte>, o: seq<byte>, es: seq<TcpClient.Event>, fill: seq<byte>, own: Own)
    requires |b| == |o| >= TCP_DATA_P
  {
    if es == [] then b == o
    else match es[|es| - 1]
      case Acked(count, f) => f < ACK && Acknowledges(b, o, AckCount(count, f), f, own.mac, own.ip)
      case DataSent(len) => len in {0, |fill|} && DataReply(b, o, fill[..len], own)
      case _ => b == o
  }

  lemma NothingSent(o: seq<byte>, fill: seq<byte>, own: Own, fd: byte)
    requires |o| >= TCP_DATA_P
    ensures Left(o, o, [], fill, own) && Left(o, o, [Result(fd, 3, 0, 0)], fill, own)
  {
  }

  lemma AckLeft(b: seq<byte>, o: seq<byte>, es: seq<TcpClient.Event>, count: u16, f: byte, fill: seq<byte>, own: Own)
    requires |b| == |o| >= TCP_DATA_P && f < ACK && Acknowledges(b, o, AckCount(count, f), f, own.mac, own.ip)
    requires es != [] && es[|es| - 1] == Acked(count, f)
    ensures Left(b, o, es, fill, own)
  {
  }

  lemma DataLeft(b: seq<byte>, o: seq<byte>, es: seq<TcpClient.Event>, hasFill: bool, fill: seq<byte>, own: Own)
    requires |b| == |o| >= TCP_DATA_P && |fill| < 0x1_0000 && DataReply(b, o, if hasFill then fill else [], own)
    requires es != [] && es[|es| - 1] == DataSent(if hasFill then |fill| else 0)
    ensures Left(b, o, es, fill, own)
  {
    assert fill[..|fill|] == fill && fill[..0] == [];
  }

  /** A SYN from the client port named by `srcPort`, with a segment size option and both checksums right. */
  ghost predicate SynFrame(b: seq<byte>, own: Own, mac: Mac, ip: Ip, srcPort: byte, dstPort: u16, seqnum: byte)
    requires |b| >= 58
  {
    && b[..6] == mac && b[6..12] == own.mac && b[IP_SRC_P..IP_DST_P] == own.ip && b[IP_DST_P..34] == ip
    && b[ETH_TYPE_H_P..IP_TOTLEN_H_P] == [8, 0, 0x45, 0]
    && b[IP_TOTLEN_H_P] == 0 && b[IP_TOTLEN_L_P] == 44 && b[IP_PROTO_P] == 6
    && b[TCP_SRC_PORT_H_P] == CLIENT_PORT_H && b[TCP_SRC_PORT_L_P] == srcPort
    && 256 * (b[TCP_DST_PORT_H_P] as int) + b[TCP_DST_PORT_L_P] as int == dstPort
    && Field32(b, TCP_SEQ_H_P) == 256 * seqnum && Field32(b, TCP_SEQACK_H_P) == 0
    && b[TCP_HEADER_LEN_P] == 0x60 && b[TCP_FLAGS_P] == SYN && b[TCP_WIN_SIZE] == 3 && b[TCP_WIN_SIZE + 1] == 0
    && b[TCP_DATA_P..58] == [2, 4, 550 / 256, 550 % 256]
    && IpOk(b) && Verifies(6 + 24, b[IP_SRC_P..58])
  }

  /** A frame that a round without a packet sends. */
  datatype Outgoing = AskFor(ip: Ip) | Syn(mac: Mac, ip: Ip, srcPort: byte, dstPort: u16, seqnum: byte)

  ghost predicate IsFrame(f: seq<byte>, x: Outgoing, own: Own) {
    match x
    case AskFor(ip) => |f| == 42 && WhoHasFrame(f, own, ip)
    case Syn(mac, ip, srcPort, dstPort, seqnum) => |f| == 58 && SynFrame(f, own, mac, ip, srcPort, dstPort, seqnum)
  }

  /** From buffer `o` to buffer `b` the frames `xs`, and no others, have been added to those sent; the last
      one stands in the buffer. */
  ghost predicate Sends(o: seq<byte>, b: seq<byte>, before: seq<seq<byte>>, after: seq<seq<byte>>, xs: seq<Outgoing>,
                        own: Own)
  {
    && |after| == |before| + |xs| && after[..|before|] == before
    && (forall k :: 0 <= k < |xs| ==> IsFrame(after[|before| + k], xs[k], own))
    && if xs == [] then b == o else after[|after| - 1] <= b
  }

  lemma SendsOne(o: seq<byte>, b: seq<byte>, before: seq<seq<byte>>, f: seq<byte>, x: Outgoing, own: Own)
    requires f <= b && IsFrame(f, x, own)
    ensures Sends(o, b, before, before + [f], [x], own)
  {
  }

  lemma SendsTogether(o: seq<byte>, b: seq<byte>, c: seq<byte>, s0: seq<seq<byte>>, s1: seq<seq<byte>>, s2: seq<seq<byte>>,
                      xs: seq<Outgoing>, ys: seq<Outgoing>, own: Own)
    requires Sends(o, b, s0, s1, xs, own) && Sends(b, c, s1, s2, ys, own)
    ensures Sends(o, c, s0, s2, xs + ys, own)
  {
    hide IsFrame;
    assert s2[..|s0|] == s1[..|s0|];
    forall k | 0 <= k < |xs + ys| ensures IsFrame(s2[|s0| + k], (xs + ys)[k], own) {
      if k < |xs| {
        assert s2[..|s1|][|s0| + k] == s1[|s0| + k];
      } else {
        assert s2[|s1| + (k - |xs|)] == s2[|s0| + k];
      }
    }
  }

  lemma WhoHasPrefix(b: seq<byte>, own: Own, ip: Ip)
    requires |b| >= 42 && WhoHasFrame(b, own, ip)
    ensures IsFrame(b[..42], AskFor(ip), own)
  {
    var f := b[..42];
    assert f[..6] == b[..6] && f[6..12] == b[6..12] && f[12..22] == b[12..22] && f[22..28] == b[22..28];
    assert f[28..32] == b[28..32] && f[32..38] == b[32..38] && f[38..42] == b[38..42];
  }

  lemma SynPrefix(b: seq<byte>, own: Own, mac: Mac, ip: Ip, srcPort: byte, dstPort: u16, seqnum: byte)
    requires |b| >= 58 && SynFrame(b, own, mac, ip, srcPort, dstPort, seqnum)
    ensures IsFrame(b[..58], Syn(mac, ip, srcPort, dstPort, seqnum), own)
  {
    var f := b[..58];
    assert f[..6] == b[..6] && f[6..12] == b[6..12] && f[12..16] == b[12..16] && f[26..30] == b[26..30];
    assert f[30..34] == b[30..34] && f[54..58] == b[54..58] && f[26..58] == b[26..58] && f[14..34] == b[14..34];
  }

  /** The who-has frames that events of address resolution stand for. */
  function AskedFor(es: seq<GwEvent>): seq<Outgoing> { seq(|es|, k requires 0 <= k < |es| => AskFor(es[k].ip)) }

  /** The SYN of a pending request: to the peer on the LAN or through the gateway. */
  function SynsFor(conn: Conn, gw: Gw, own: Own, dstPort: u16, seqnum: byte): seq<Outgoing>
    requires conn.fd < 8
  {
    if conn.state == SEND_SYN && gw.wait.have then
      [Syn(if IsLan(own, gw.hisip) then gw.destmac else gw.gwmac, gw.hisip,
           SourcePortL(conn.fd, (conn.portL as int + 1) % 256), dstPort, seqnum)]
    else []
  }

  /** All that a round without a packet sends, in order. */
  function IdleSends(gw: Gw, conn: Conn, own: Own, linkUp: bool, dstPort: u16, seqnum: byte): seq<Outgoing>
    requires conn.fd < 8
  {
    var g := AskGateway(gw, linkUp).0;
    AskedFor(AskGateway(gw, linkUp).1) + SynsFor(conn, g, own, dstPort, seqnum) + AskedFor(AskPeers(g, own).1)
  }

  /** The number for the next SYN or SYN-ACK of ours. */
  function SeqnumAfter(seqnum: byte, stepped: bool): byte { if stepped then (seqnum as int + 3) % 256 else seqnum }

  /** The reply to the echo request `o`: sent back, and verifying unless the second carry is lost. */
  ghost predicate EchoAnswer(b: seq<byte>, o: seq<byte>, plen: u16, own: Own)
    requires |b| == |o| >= TCP_DATA_P && 42 <= plen <= |b|
  {
    && IpOk(b) && b[ICMP_TYPE_P..plen] == EchoReply(o[ICMP_TYPE_P..plen]) && b[plen..] == o[plen..]
    && b[..6] == o[6..12] && b[6..12] == own.mac
    && b[IP_SRC_P..IP_DST_P] == own.ip && b[IP_DST_P..34] == o[IP_SRC_P..IP_DST_P]
    && (Verifies(0, o[ICMP_TYPE_P..plen]) ==>
          (Verifies(0, b[ICMP_TYPE_P..plen]) <==> !(o[ICMP_CHECKSUM_P] > 0xF7 && o[ICMP_CHECKSUM_P + 1] == 0xFF)))
  }

  /** Whatever arrives, a gateway MAC in use stays a solicited one. */
  lemma LoopKeepsGateway(kind: Kind, gw: Gw, log: seq<GwEvent>, b: seq<byte>, own: Own, linkUp: bool)
    requires |b| >= TCP_DATA_P && Solicited(log, gw) && FlagsApart(gw)
    requires kind.ArpForUs? ==> !OwnAnswer(gw, own, b[ARP_OPCODE_L_P])
    ensures var (g, log') := GwAfter(kind, gw, log, b, own, linkUp); Solicited(log', g) && FlagsApart(g)
  {
    hide Solicited;
    if kind.Nothing? {
      IdleKeeps(gw, own, linkUp, log);
    } else if kind.ArpForUs? {
      ArpKeeps(gw, own, b[ARP_OPCODE_L_P], b[ARP_SRC_IP_P..ARP_DST_MAC_P], b[ARP_SRC_MAC_P..ARP_SRC_IP_P], log);
    } else {
      assert log + [] == log;
    }
  }

  /** Whatever arrives, the request made when the log was `start` long is served at most once. */
  lemma LoopServesOnce(kind: Kind, conn: Conn, log: seq<TcpClient.Event>, start: nat, gw: Gw, b: seq<byte>, plen: u16,
                       fillLen: u16, linkUp: bool)
    requires |b| >= TCP_DATA_P && conn.fd < 8 && (kind.ForClient? ==> 8 <= plen)
    requires start <= |log| && !conn.persist && AtMostOnce(log[start..], conn)
    ensures var (c, log') := ConnAfter(kind, conn, log, gw, b, plen, fillLen, linkUp);
            start <= |log'| && !c.persist && AtMostOnce(log'[start..], c)
  {
    hide AtMostOnce;
    hide Receive;
    var (c, log') := ConnAfter(kind, conn, log, gw, b, plen, fillLen, linkUp);
    var es := log'[|log|..];
    assert log'[start..] == log[start..] + es;
    if kind.Nothing? {
      StepAtMostOnce(conn, TcpClient.NoPacket(AskGateway(gw, linkUp).0.wait.have), log[start..]);
    } else if kind.ForClient? {
      StepAtMostOnce(conn, TcpClient.Packet(SegmentOf(b, gw.hisip, plen, fillLen)), log[start..]);
      PersistKept(conn, SegmentOf(b, gw.hisip, plen, fillLen));
    } else {
      assert log'[start..] == log[start..];
    }
  }

  lemma PersistKept(c: Conn, p: Segment)
    requires 8 <= p.plen
    ensures Receive(c, p).0.persist == c.persist
  {
  }

  /** The data segment is the acknowledgement `a` of `o`, with flags, length and data of its own. */
  lemma ReplyAssembled(b: seq<byte>, a: seq<byte>, o: seq<byte>, data: seq<byte>, own: Own)
    requires |b| == |a| == |o| >= TCP_DATA_P + |data| && Acknowledges(a, o, 1, 0, own.mac, own.ip)
    requires forall k :: 0 <= k < TCP_DATA_P && (k < 16 || 18 <= k < 20 || k == 23 || 26 <= k < 47 || 48 <= k < 50) ==>
               b[k] == a[k]
    requires forall k :: 0 <= k < |data| ==> b[TCP_DATA_P + k] == data[k]
    requires b[TCP_FLAGS_P] == ACK + PUSH && IpOk(b) && TcpOk(b, |data|)
    requires 256 * (b[IP_TOTLEN_H_P] as int) + b[IP_TOTLEN_L_P] as int == 40 + |data|
    ensures DataReply(b, o, data, own)
  {
    hide IpOk;
    hide TcpOk;
    hide Stepped;
    hide Field32;
    SteppedIff(Field32(o, TCP_SEQ_H_P), 1);
    FieldFrame(a, b);
    assert b[TCP_DATA_P..TCP_DATA_P + |data|] == data;
    assert b[..6] == a[..6] && b[6..12] == a[6..12] && b[26..30] == a[26..30] && b[30..34] == a[30..34];
    assert b[12..16] == a[12..16] && b[34..36] == a[34..36] && b[36..38] == a[36..38];
  }

  /** The buffer and the statics; those of address resolution and of the client connection are grouped
      into the records `gw` and `conn`. */
  class NetStack {
    const buf: array<byte>
    var own: Own
    const broadcast: Ip
    var hisport: u16
    const web: HttpReply.HttpServer
    var gw: Gw
    var conn: Conn
    var dstPort: u16
    var seqnum: byte
    ghost var gwLog: seq<GwEvent>
    ghost var tcpLog: seq<TcpClient.Event>
    ghost var start: nat      // the length of `tcpLog` at the last request
    ghost var idleSent: seq<seq<byte>>   // the frames of rounds without a packet

    ghost predicate Ready()
      reads this
    {
      100 <= buf.Length && buf as object != this && conn.fd < 8 && web.buf == buf && web.Ready()
    }

    /** What every run keeps: the gateway MAC is a solicited one, and the last request is served at most once. */
    ghost predicate Serving()
      reads this
    {
      && Solicited(gwLog, gw) && FlagsApart(gw)
      && start <= |tcpLog| && !conn.persist && AtMostOnce(tcpLog[start..], conn)
    }

    constructor (b: array<byte>, o: Own, bc: Ip)
      requires b.Length >= 100
      ensures Ready() && buf == b && own == o && broadcast == bc && gwLog == [] && tcpLog == [] && idleSent == []
      ensures fresh(web)
      ensures !gw.wait.have && !gw.wait.accept && FlagsApart(gw) && conn.state == IDLE && Serving()
    {
      buf, own, broadcast := b, o, bc;
      gw := Gw([0, 0, 0, 0], [0, 0, 0, 0], [0, 0, 0, 0], Wait(false, false, false, false),
               [0, 0, 0, 0, 0, 0], [0, 0, 0, 0, 0, 0], 0, false, false, false, false);
      conn := Conn(0, 0, 1, false, false, false);
      dstPort, seqnum, gwLog, tcpLog, start, idleSent := 0, 0xa, [], [], 0, [];
      hisport := 80;
      web := new HttpReply.HttpServer(b);
    }

    method SetGwIp(ip: Ip)
      requires Ready()
      modifies this`gw, this`gwLog
      ensures gw == Gateway.SetGwIp(old(gw), ip) && gwLog == old(gwLog) + [SetGw(ip)]
      ensures old(Serving()) ==> Serving()
    {
      gw := gw.(delaycnt := 0);
      gw := gw.(wait := Wait(true, false, false, false));
      gw := gw.(gwip := ip);
      gwLog := gwLog + [SetGw(ip)];
    }

    method ClientTcpReq(result: bool, fill: bool, port: u16) returns (fd: byte)
      requires Ready()
      modifies this`conn, this`dstPort, this`start
      ensures Ready() && conn == Request(old(conn), result, fill) && fd == conn.fd && dstPort == port
      ensures start == |tcpLog| && (old(Serving()) ==> Serving())
    {
      start := |tcpLog|;
      conn := conn.(hasResult := result, hasFill := fill);
      dstPort := port;
      conn := conn.(state := SEND_SYN);
      conn := conn.(fd := (conn.fd + 1) % 8);
      fd := conn.fd;
    }

    method ArpHeader()
      requires Ready()
      modifies buf
      ensures buf[ETH_TYPE_H_P..ARP_SRC_MAC_P] == [8, 6, 0, 1, 8, 0, 6, 4, 0, REQUEST]
      ensures forall i :: 0 <= i < buf.Length && !(ETH_TYPE_H_P <= i < ARP_SRC_MAC_P) ==> buf[i] == old(buf[i])
    {
      buf[ETH_TYPE_H_P] := 8;
      buf[ETH_TYPE_L_P] := 6;
      var arpreqhdr: seq<byte> := [0, 1, 8, 0, 6, 4, 0, 1];
      forall i | 0 <= i < 8 { buf[IP_P + i] := arpreqhdr[i]; }
      assert buf[ETH_TYPE_H_P..ARP_SRC_MAC_P] == [8, 6] + arpreqhdr;
    }

    method ClientArpWhohas(ip: Ip)
      requires Ready()
      modifies buf, this`gwLog, this`idleSent
      ensures WhoHasFrame(buf[..], own, ip) && gwLog == old(gwLog) + [WhoHas(ip)]
      ensures Sends(old(buf[..]), buf[..], old(idleSent), idleSent, [AskFor(ip)], own)
    {
      CopyMac(buf, ETH_DST_MAC, [0xff, 0xff, 0xff, 0xff, 0xff, 0xff]);
      CopyMac(buf, ETH_SRC_MAC, own.mac);
      ghost var e := buf[..];
      assert e[..6] == [0xff, 0xff, 0xff, 0xff, 0xff, 0xff] && e[6..12] == own.mac;
      ArpHeader();
      ghost var h := buf[..];
      assert h[..6] == e[..6] && h[6..12] == e[6..12] && h[12..22] == buf[12..22];
      CopyMac(buf, ARP_DST_MAC_P, [0, 0, 0, 0, 0, 0]);
      CopyMac(buf, ARP_SRC_MAC_P, own.mac);
      CopyIp(buf, ARP_DST_IP_P, ip);
      CopyIp(buf, ARP_SRC_IP_P, own.ip);
      ghost var b := buf[..];
      assert b[..6] == h[..6] && b[6..12] == h[6..12] && b[12..22] == h[12..22];
      assert b[ARP_SRC_MAC_P..ARP_SRC_IP_P] == own.mac && b[ARP_SRC_IP_P..ARP_DST_MAC_P] == own.ip;
      assert b[ARP_DST_MAC_P..ARP_DST_IP_P] == [0, 0, 0, 0, 0, 0] && b[ARP_DST_IP_P..42] == ip;
      gwLog := gwLog + [WhoHas(ip)];
      WhoHasPrefix(b, own, ip);
      SendsOne(old(buf[..]), b, idleSent, b[..42], AskFor(ip), own);
      idleSent := idleSent + [buf[..42]];
      assert buf[..42] == b[..42];
    }

    method MakeArpAnswerFromRequest()
      requires Ready()
      modifies buf
      ensures ArpAnswer(buf[..], old(buf[..]), own)
    {
      ghost var (mac, ip) := (buf[ARP_SRC_MAC_P..ARP_SRC_IP_P], buf[ARP_SRC_IP_P..ARP_DST_MAC_P]);
      CopyMac(buf, ETH_DST_MAC, buf[6..12]);
      CopyMac(buf, ETH_SRC_MAC, own.mac);
      buf[ARP_OPCODE_H_P] := 0;
      buf[ARP_OPCODE_L_P] := REPLY;
      assert buf[ARP_SRC_MAC_P..ARP_SRC_IP_P] == mac && buf[ARP_SRC_IP_P..ARP_DST_MAC_P] == ip;
      CopyMac(buf, ARP_DST_MAC_P, buf[ARP_SRC_MAC_P..ARP_SRC_IP_P]);
      CopyMac(buf, ARP_SRC_MAC_P, own.mac);
      assert buf[ARP_SRC_IP_P..ARP_DST_MAC_P] == ip;
      CopyIp(buf, ARP_DST_IP_P, buf[ARP_SRC_IP_P..ARP_DST_MAC_P]);
      CopyIp(buf, ARP_SRC_IP_P, own.ip);
      assert buf[ARP_SRC_MAC_P..ARP_SRC_IP_P] == own.mac && buf[ARP_SRC_IP_P..ARP_DST_MAC_P] == own.ip;
      assert buf[ARP_DST_MAC_P..ARP_DST_IP_P] == mac && buf[ARP_DST_IP_P..42] == ip;
    }

    /** Answer the frame in the buffer if it is a request, then read opcode and sender back from it. */
    method AnswerArp() returns (shown: byte, ip: Ip, mac: Mac)
      requires Ready()
      modifies buf
      ensures (shown, ip, mac) == Shown(own, old(buf[ARP_OPCODE_L_P]),
                                        old(buf[ARP_SRC_IP_P..ARP_DST_MAC_P]), old(buf[ARP_SRC_MAC_P..ARP_SRC_IP_P]))
      ensures if old(buf[ARP_OPCODE_L_P]) == REQUEST then ArpAnswer(buf[..], old(buf[..]), own) else buf[..] == old(buf[..])
    {
      if buf[ARP_OPCODE_L_P] == REQUEST {
        MakeArpAnswerFromRequest();
      }
      shown, ip, mac := buf[ARP_OPCODE_L_P], buf[ARP_SRC_IP_P..ARP_DST_MAC_P], buf[ARP_SRC_MAC_P..ARP_SRC_IP_P];
    }

    /** What the sender's address and MAC tell us. */
    method Learn(shown: byte, ip: Ip, mac: Mac)
      requires Ready()
      modifies this`gw
      ensures gw == LearnDest(LearnDns(LearnGateway(old(gw), shown, ip, mac), ip, mac), ip, mac)
    {
      if gw.wait.accept && shown == REPLY && ip == gw.gwip {
        gw := gw.(gwmac := mac);
        gw := gw.(wait := Wait(false, true, false, false));
      }
      assert gw == LearnGateway(old(gw), shown, ip, mac);
      if !gw.hasDns && gw.waitingDns && ip == gw.dnsip {
        gw := gw.(destmac := mac);
        gw := gw.(hasDns := true, waitingDns := false);
      }
      if !gw.hasDest && gw.waitingDest && ip == gw.hisip {
        gw := gw.(destmac := mac);
        gw := gw.(hasDest := true, waitingDest := false);
      }
    }

    /** An ARP frame for us. */
    method OnArp()
      requires Ready()
      modifies this`gw, this`gwLog, buf
      ensures if old(buf[ARP_OPCODE_L_P]) == REQUEST then ArpAnswer(buf[..], old(buf[..]), own) else buf[..] == old(buf[..])
      ensures var (g, es) := Arp(old(gw), own, old(buf[ARP_OPCODE_L_P]),
                                 old(buf[ARP_SRC_IP_P..ARP_DST_MAC_P]), old(buf[ARP_SRC_MAC_P..ARP_SRC_IP_P]));
              gw == g && gwLog == old(gwLog) + es
    {
      hide Shown;
      hide LearnGateway;
      hide LearnDns;
      hide LearnDest;
      ghost var (op, ip0, mac0) := (buf[ARP_OPCODE_L_P], buf[ARP_SRC_IP_P..ARP_DST_MAC_P], buf[ARP_SRC_MAC_P..ARP_SRC_IP_P]);
      var shown, ip, mac := AnswerArp();
      Learn(shown, ip, mac);
      gwLog := gwLog + if op == REPLY then [Heard(ip0, mac0)] else [];
    }

    method AskForGateway(linkUp: bool)
      requires Ready()
      modifies this`gw, this`gwLog, this`idleSent, buf
      ensures (gw, gwLog) == (AskGateway(old(gw), linkUp).0, old(gwLog) + AskGateway(old(gw), linkUp).1)
      ensures Sends(old(buf[..]), buf[..], old(idleSent), idleSent, AskedFor(AskGateway(old(gw), linkUp).1), own)
    {
      hide IsFrame;
      hide WhoHasFrame;
      if (gw.wait.initial || gw.wait.refreshing) && gw.delaycnt == 0 && linkUp {
        ClientArpWhohas(gw.gwip);
        gw := gw.(wait := gw.wait.(accept := true));
        assert AskedFor([WhoHas(gw.gwip)]) == [AskFor(gw.gwip)];
      }
      gw := gw.(delaycnt := Next16(gw.delaycnt));
      assert old(gwLog) + [] == old(gwLog);
    }

    /** Ask for one LAN peer, once. */
    method AskForPeer(ask: bool, ip: Ip)
      requires Ready()
      modifies this`gwLog, this`idleSent, buf
      ensures var es := if ask then [WhoHas(ip)] else [];
              && gwLog == old(gwLog) + es
              && Sends(old(buf[..]), buf[..], old(idleSent), idleSent, AskedFor(es), own)
    {
      hide IsFrame;
      hide WhoHasFrame;
      if ask {
        ClientArpWhohas(ip);
        assert AskedFor([WhoHas(ip)]) == [AskFor(ip)];
      }
    }

    method AskForPeers()
      requires Ready()
      modifies this`gw, this`gwLog, this`idleSent, buf
      ensures (gw, gwLog) == (AskPeers(old(gw), own).0, old(gwLog) + AskPeers(old(gw), own).1)
      ensures Sends(old(buf[..]), buf[..], old(idleSent), idleSent, AskedFor(AskPeers(old(gw), own).1), own)
    {
      hide IsLan;
      hide IsFrame;
      hide Sends;
      ghost var (o, s0) := (buf[..], idleSent);
      var dns := IsLan(own, gw.dnsip) && !gw.hasDns && !gw.waitingDns;
      AskForPeer(dns, gw.dnsip);
      if dns {
        gw := gw.(waitingDns := true);
      }
      ghost var (b, s1) := (buf[..], idleSent);
      var dest := IsLan(own, gw.hisip) && !gw.hasDest && !gw.waitingDest;
      AskForPeer(dest, gw.hisip);
      if dest {
        gw := gw.(waitingDest := true);
      }
      ghost var (es, fs) := (if dns then [WhoHas(gw.dnsip)] else [], if dest then [WhoHas(gw.hisip)] else []);
      SendsTogether(o, b, buf[..], s0, s1, idleSent, AskedFor(es), AskedFor(fs), own);
      assert AskedFor(es) + AskedFor(fs) == AskedFor(es + fs) == AskedFor(AskPeers(old(gw), own).1);
      assert gwLog == old(gwLog) + AskPeers(old(gw), own).1;
    }

    method SendPendingSyn()
      requires Ready()
      modifies this`conn, this`tcpLog, this`seqnum, this`idleSent, buf
      ensures var (c, es) := TcpClient.Idle(old(conn), gw.wait.have); Ready() && conn == c && tcpLog == old(tcpLog) + es
      ensures var xs := SynsFor(old(conn), gw, own, dstPort, old(seqnum));
              && Sends(old(buf[..]), buf[..], old(idleSent), idleSent, xs, own)
              && seqnum == SeqnumAfter(old(seqnum), xs != [])
    {
      hide IsLan;
      hide IsFrame;
      hide SynFrame;
      if conn.state == SEND_SYN && gw.wait.have {
        conn := conn.(state := SYN_SENT);
        conn := conn.(portL := (conn.portL as int + 1) % 256);
        ClientSyn(SourcePortL(conn.fd, conn.portL));
      }
    }

    /** A round without a packet. */
    method OnIdle(linkUp: bool)
      requires Ready()
      modifies this`gw, this`gwLog, this`conn, this`tcpLog, this`seqnum, this`idleSent, buf
      ensures Ready()
      ensures (gw, gwLog) == (Gateway.Idle(old(gw), own, linkUp).0, old(gwLog) + Gateway.Idle(old(gw), own, linkUp).1)
      ensures var haveGw := AskGateway(old(gw), linkUp).0.wait.have;
              (conn, tcpLog) == (TcpClient.Idle(old(conn), haveGw).0, old(tcpLog) + TcpClient.Idle(old(conn), haveGw).1)
      ensures Sends(old(buf[..]), buf[..], old(idleSent), idleSent,
                    IdleSends(old(gw), old(conn), own, linkUp, dstPort, old(seqnum)), own)
      ensures var syns := SynsFor(old(conn), AskGateway(old(gw), linkUp).0, own, dstPort, old(seqnum));
              seqnum == SeqnumAfter(old(seqnum), syns != [])
    {
      hide AskGateway;
      hide AskPeers;
      hide SynsFor;
      hide Sends;
      ghost var (b0, s0) := (buf[..], idleSent);
      AskForGateway(linkUp);
      ghost var (g, b1, s1) := (gw, buf[..], idleSent);
      SendPendingSyn();
      ghost var (b2, s2) := (buf[..], idleSent);
      ghost var (xs, ys) := (AskedFor(AskGateway(old(gw), linkUp).1), SynsFor(old(conn), g, own, dstPort, old(seqnum)));
      SendsTogether(b0, b1, b2, s0, s1, s2, xs, ys, own);
      AskForPeers();
      SendsTogether(b0, b2, buf[..], s0, s2, idleSent, xs + ys, AskedFor(AskPeers(g, own).1), own);
      assert (old(gwLog) + AskGateway(old(gw), linkUp).1) + AskPeers(AskGateway(old(gw), linkUp).0, own).1
          == old(gwLog) + Gateway.Idle(old(gw), own, linkUp).1;
    }

    /** `client_syn`. */
    method ClientSyn(srcPort: byte)
      requires Ready()
      modifies buf, this`seqnum, this`tcpLog, this`idleSent
      ensures SynFrame(buf[..], own, if IsLan(own, gw.hisip) then gw.destmac else gw.gwmac, gw.hisip,
                       srcPort, dstPort, old(seqnum))
      ensures Sends(old(buf[..]), buf[..], old(idleSent), idleSent,
                    [Syn(if IsLan(own, gw.hisip) then gw.destmac else gw.gwmac, gw.hisip, srcPort, dstPort, old(seqnum))],
                    own)
      ensures seqnum == (old(seqnum) as int + 3) % 256 && tcpLog == old(tcpLog) + [SynSent(srcPort)]
    {
      hide IpOk;
      hide Verifies;
      hide IsLan;
      hide Sends;
      hide IsFrame;
      SetMacAndIps(buf, own.mac, own.ip, if IsLan(own, gw.hisip) then gw.destmac else gw.gwmac, gw.hisip);
      ghost var t := buf[..];
      SynIpHeader();
      ghost var h := buf[..];
      SynBody(srcPort);
      KeepsIpOk(h, buf[..]);
      ghost var b := buf[..];
      assert b[..6] == t[..6] && b[6..12] == t[6..12];
      assert b[IP_SRC_P..IP_DST_P] == t[IP_SRC_P..IP_DST_P] && b[IP_DST_P..34] == t[IP_DST_P..34];
      assert b[ETH_TYPE_H_P..IP_TOTLEN_H_P] == h[ETH_TYPE_H_P..IP_TOTLEN_H_P];
      assert b[IP_SRC_P..58] == buf[IP_SRC_P..58];
      tcpLog := tcpLog + [SynSent(srcPort)];
      ghost var mac := if IsLan(own, gw.hisip) then gw.destmac else gw.gwmac;
      SynPrefix(b, own, mac, gw.hisip, srcPort, dstPort, old(seqnum));
      SendsOne(old(buf[..]), b, idleSent, b[..58], Syn(mac, gw.hisip, srcPort, dstPort, old(seqnum)), own);
      idleSent := idleSent + [buf[..58]];
      assert buf[..58] == b[..58];
    }

    method SynIpHeader()
      requires Ready()
      modifies buf
      ensures IpOk(buf[..]) && buf[IP_TOTLEN_H_P] == 0 && buf[IP_TOTLEN_L_P] == 44 && buf[IP_PROTO_P] == 6
      ensures buf[ETH_TYPE_H_P..IP_TOTLEN_H_P] == [8, 0, 0x45, 0]
      ensures forall i :: 0 <= i < buf.Length && (i < 12 || 26 <= i) ==> buf[i] == old(buf[i])
    {
      hide IpOk;
      buf[ETH_TYPE_H_P] := 8;
      buf[ETH_TYPE_L_P] := 0;
      var iphdr: seq<byte> := [0x45, 0, 0, 0x82, 0, 0, 0x40, 0, 0x20];
      forall i | 0 <= i < 9 { buf[IP_P + i] := iphdr[i]; }
      buf[IP_TOTLEN_L_P] := 44;
      buf[IP_PROTO_P] := 6;
      FillIpHdrChecksum(buf);
    }

    method SynBody(srcPort: byte)
      requires Ready()
      modifies buf, this`seqnum
      ensures buf[TCP_SRC_PORT_H_P] == CLIENT_PORT_H && buf[TCP_SRC_PORT_L_P] == srcPort
      ensures 256 * (buf[TCP_DST_PORT_H_P] as int) + buf[TCP_DST_PORT_L_P] as int == dstPort
      ensures Field32(buf[..], TCP_SEQ_H_P) == 256 * old(seqnum) && Field32(buf[..], TCP_SEQACK_H_P) == 0
      ensures buf[TCP_HEADER_LEN_P] == 0x60 && buf[TCP_FLAGS_P] == SYN
      ensures buf[TCP_WIN_SIZE] == 3 && buf[TCP_WIN_SIZE + 1] == 0
      ensures buf[TCP_DATA_P..58] == [2, 4, 550 / 256, 550 % 256] && seqnum == (old(seqnum) as int + 3) % 256
      ensures Verifies(6 + 24, buf[IP_SRC_P..58])
      ensures forall i :: 0 <= i < 34 ==> buf[i] == old(buf[i])
    {
      hide Verifies;
      buf[TCP_DST_PORT_H_P] := dstPort / 256;
      buf[TCP_DST_PORT_L_P] := dstPort % 256;
      buf[TCP_SRC_PORT_H_P] := CLIENT_PORT_H;
      buf[TCP_SRC_PORT_L_P] := srcPort;
      forall i | TCP_SEQ_H_P <= i < TCP_HEADER_LEN_P { buf[i] := if i == TCP_SEQ_H_P + 2 then seqnum else 0; }
      seqnum := (seqnum as int + 3) % 256;
      SynOptions();
      ghost var b := buf[..];
      assert b[IP_SRC_P..IP_SRC_P + 32] == buf[IP_SRC_P..IP_SRC_P + 32];
      FillChecksum(buf, TCP_CHECKSUM_H_P, IP_SRC_P, 8 + 20 + 4, TCP);
      RegionVerifies(b, buf[..], TCP_CHECKSUM_H_P, IP_SRC_P, 32, TCP);
    }

    method SynOptions()
      requires Ready()
      modifies buf
      ensures buf[TCP_HEADER_LEN_P] == 0x60 && buf[TCP_FLAGS_P] == SYN
      ensures buf[TCP_WIN_SIZE] == 3 && buf[TCP_WIN_SIZE + 1] == 0
      ensures buf[TCP_CHECKSUM_H_P] == 0 && buf[TCP_CHECKSUM_L_P] == 0
      ensures buf[TCP_DATA_P..58] == [2, 4, 550 / 256, 550 % 256]
      ensures forall i :: 0 <= i < buf.Length && (i < TCP_HEADER_LEN_P || 58 <= i) ==> buf[i] == old(buf[i])
    {
      buf[TCP_HEADER_LEN_P] := 0x60;
      buf[TCP_FLAGS_P] := SYN;
      buf[TCP_WIN_SIZE] := 0x3;
      buf[TCP_WIN_SIZE + 1] := 0x0;
      forall i | TCP_CHECKSUM_H_P <= i < TCP_DATA_P { buf[i] := 0; }
      buf[TCP_DATA_P] := 2;
      buf[TCP_DATA_P + 1] := 4;
      buf[TCP_DATA_P + 2] := 550 / 256;
      buf[TCP_DATA_P + 3] := 550 % 256;
    }

    /** A segment for a client port. `fill` is what the fill callback would write. */
    method OnClientSegment(plen: u16, fill: seq<byte>)
      requires Ready() && 42 <= plen && TCP_DATA_P + |fill| <= buf.Length && 40 + |fill| < 0x1_0000
      modifies this`conn, this`tcpLog, buf
      ensures var (c, es) := Receive(old(conn), SegmentOf(old(buf[..]), gw.hisip, plen, |fill|));
              Ready() && conn == c && tcpLog == old(tcpLog) + es && Left(buf[..], old(buf[..]), es, fill, own)
    {
      hide Left;
      hide DataReply;
      hide Acknowledges;
      var flags := buf[TCP_FLAGS_P];
      var fd := FdOf(buf[TCP_DST_PORT_L_P]);
      NothingSent(buf[..], fill, own, fd);
      if buf[IP_SRC_P..IP_DST_P] != gw.hisip {
        return;
      }
      if HasFlag(flags, RST) {
        if conn.hasResult {
          tcpLog := tcpLog + [Result(fd, 3, 0, 0)];
        }
        conn := conn.(state := CLOSING);
        return;
      }
      var len := TcpDataLen(buf[..]);
      if conn.state == SYN_SENT {
        if HasFlag(flags, SYN) && HasFlag(flags, ACK) {
          OnSynAck(fill);
        } else {
          conn := conn.(state := SEND_SYN);
          len := (len + 1) % 0x1_0000;
          if HasFlag(flags, ACK) {
            len := 0;
          }
          SendAck(len, RST, [Acked(len, RST)], fill);
        }
        return;
      }
      if conn.state == ESTABLISHED && len > 0 && conn.hasResult {
        OnData(plen, len, fill);
        return;
      }
      if conn.state != CLOSING {
        if HasFlag(flags, FIN) {
          if conn.state == ESTABLISHED {
            return;
          }
          SendAck((len + 1) % 0x1_0000, PUSH + FIN, [Acked((len + 1) % 0x1_0000, PUSH + FIN)], fill);
          conn := conn.(state := CLOSED);
        } else if len > 0 {
          SendAck(len, 0, [Acked(len, 0)], fill);
        }
      }
    }

    /** One acknowledgement, the last of the events `es` of a step. */
    method SendAck(count: u16, addflags: byte, ghost es: seq<TcpClient.Event>, ghost fill: seq<byte>)
      requires Ready() && addflags < ACK && es != [] && es[|es| - 1] == Acked(count, addflags)
      modifies this`tcpLog, buf
      ensures tcpLog == old(tcpLog) + [Acked(count, addflags)]
      ensures Acknowledges(buf[..], old(buf[..]), AckCount(count, addflags), addflags, own.mac, own.ip)
      ensures Left(buf[..], old(buf[..]), es, fill, own)
    {
      hide Acknowledges;
      MakeTcpAckFromAny(buf, count, addflags, own.mac, own.ip);
      AckLeft(buf[..], old(buf[..]), es, count, addflags, fill, own);
      tcpLog := tcpLog + [Acked(count, addflags)];
    }

    lemma AckPort(b: seq<byte>, o: seq<byte>, count: u16, us: Own)
      requires |b| == |o| >= TCP_DATA_P && Acknowledges(b, o, count, 0, us.mac, us.ip)
      ensures b[TCP_SRC_PORT_L_P] == o[TCP_DST_PORT_L_P]
    {
      assert b[34..36][1] == o[36..38][1];
    }

    /** The peer accepted the connection: acknowledge, let the callback fill in the request, send it. */
    method OnSynAck(fill: seq<byte>)
      requires Ready() && TCP_DATA_P + |fill| <= buf.Length && 40 + |fill| < 0x1_0000
      modifies this`conn, this`tcpLog, buf
      ensures Ready() && conn == old(conn).(state := ESTABLISHED)
      ensures var es := if conn.hasFill
                then [Acked(0, 0), Fill(FdOf(old(buf[TCP_DST_PORT_L_P]))), DataSent(|fill|)] else [Acked(0, 0), DataSent(0)];
              tcpLog == old(tcpLog) + es && Left(buf[..], old(buf[..]), es, fill, own)
      ensures DataReply(buf[..], old(buf[..]), if conn.hasFill then fill else [], own)
    {
      hide IpOk;
      hide TcpOk;
      hide Left;
      hide DataReply;
      hide Acknowledges;
      hide Field32;
      hide Stepped;
      ghost var fd := FdOf(buf[TCP_DST_PORT_L_P]);
      ghost var o := buf[..];
      SendAck(0, 0, [Acked(0, 0)], fill);
      AckPort(buf[..], o, 1, own);
      ghost var a := buf[..];
      buf[TCP_FLAGS_P] := ACK + PUSH;
      var len := 0;
      if conn.hasFill {
        assert fd == FdOf(buf[TCP_SRC_PORT_L_P]);
        tcpLog := tcpLog + [Fill(FdOf(buf[TCP_SRC_PORT_L_P]))];
        forall i | 0 <= i < |fill| { buf[TCP_DATA_P + i] := fill[i]; }
        len := |fill|;
      }
      conn := conn.(state := ESTABLISHED);
      MakeTcpAckWithDataNoflags(buf, len);
      ReplyAssembled(buf[..], a, o, if conn.hasFill then fill else [], own);
      tcpLog := tcpLog + [DataSent(len)];
      DataLeft(buf[..], o, if conn.hasFill then [Acked(0, 0), Fill(fd), DataSent(len)] else [Acked(0, 0), DataSent(len)],
               conn.hasFill, fill, own);
    }

    /** Data for the result callback: what lies inside the frame. */
    method OnData(plen: u16, len: u16, ghost fill: seq<byte>)
      requires Ready() && 42 <= plen && len == TcpDataLen(buf[..]) && len > 0 && conn.hasResult
      modifies this`conn, this`tcpLog, buf
      ensures Ready() && conn == if conn.persist then old(conn) else old(conn).(state := CLOSED)
      ensures var (pos, fd) := (old(TcpDataStart(buf[..])), FdOf(old(buf[TCP_DST_PORT_L_P])));
              var es := [Result(fd, 0, DataPos(pos, plen), DataLen(pos, len, plen)),
                         Acked(len, if conn.persist then PUSH else PUSH + FIN)];
              tcpLog == old(tcpLog) + es && Left(buf[..], old(buf[..]), es, fill, own)
    {
      hide Left;
      hide Acknowledges;
      var tcpstart: u16 := TCP_SRC_PORT_H_P + buf[TCP_HEADER_LEN_P] / 16 * 4;
      if tcpstart > plen - 8 {
        tcpstart := plen - 8;
      }
      var saveLen := len;
      if tcpstart + len > plen {
        saveLen := plen - tcpstart;
      }
      var fd := FdOf(buf[TCP_DST_PORT_L_P]);
      tcpLog := tcpLog + [Result(fd, 0, tcpstart, saveLen)];
      if conn.persist {
        SendAck(len, PUSH, [Result(fd, 0, tcpstart, saveLen), Acked(len, PUSH)], fill);
      } else {
        SendAck(len, PUSH + FIN, [Result(fd, 0, tcpstart, saveLen), Acked(len, PUSH + FIN)], fill);
        conn := conn.(state := CLOSED);
      }
    }

    /** What one call of `packetLoop` leaves in the buffer when there was a frame in it. */
    ghost predicate FrameLeft(b: seq<byte>, o: seq<byte>, kind: Kind, plen: u16, fill: seq<byte>, c0: Conn, hisip: Ip,
                              seqnum0: byte)
      requires |b| == |o| >= 100 && c0.fd < 8 && |fill| < 0x1_0000
      requires kind.Echo? || kind.ForClient? || kind.ForServer? ==> 42 <= plen <= |b|
      reads this`own, this`hisport
    {
      match kind
      case Nothing => true
      case ArpForUs => if o[ARP_OPCODE_L_P] == REQUEST then ArpAnswer(b, o, own) else b == o
      case Echo => EchoAnswer(b, o, plen, own)
      case ForClient => Left(b, o, Receive(c0, SegmentOf(o, hisip, plen, |fill|)).1, fill, own)
      case ForServer => Answered(b, o, AnswerTo(o, hisport, plen), own.mac, own.ip, seqnum0)
      case _ => b == o
    }

    /** One call of `packetLoop` on a frame, or on none. Returns where a request to the web server starts,
        or 0. */
    method PacketLoop(plen: u16, linkUp: bool, taken: bool, fill: seq<byte>) returns (pos: u16)
      requires Ready() && plen <= buf.Length && TCP_DATA_P + |fill| <= buf.Length && 40 + |fill| < 0x1_0000
      modifies this`gw, this`gwLog, this`conn, this`tcpLog, this`seqnum, this`idleSent, web`infoDataLen, buf
      ensures Ready()
      ensures var kind := Classify(old(buf[..]), plen, own, broadcast, taken);
              && (gw, gwLog) == GwAfter(kind, old(gw), old(gwLog), old(buf[..]), own, linkUp)
              && (conn, tcpLog) == ConnAfter(kind, old(conn), old(tcpLog), old(gw), old(buf[..]), plen, |fill|, linkUp)
              && FrameLeft(buf[..], old(buf[..]), kind, plen, fill, old(conn), old(gw.hisip), old(seqnum))
              && (if kind.Nothing?
                  then Sends(old(buf[..]), buf[..], old(idleSent), idleSent,
                             IdleSends(old(gw), old(conn), own, linkUp, dstPort, old(seqnum)), own)
                  else idleSent == old(idleSent))
      ensures var kind := Classify(old(buf[..]), plen, own, broadcast, taken);
              var a := if kind.ForServer? then AnswerTo(old(buf[..]), hisport, plen) else Silent;
              && pos == (if a.Data? then a.pos else 0)
              && seqnum == SeqnumAfter(old(seqnum), a.SynAck? || (kind.Nothing? &&
                   SynsFor(old(conn), AskGateway(old(gw), linkUp).0, own, dstPort, old(seqnum)) != []))
              && web.infoDataLen == if kind.ForServer? then SeenLength(old(buf[..]), hisport, old(web.infoDataLen))
                                    else old(web.infoDataLen)
    {
      hide Left;
      hide Answered;
      hide ArpAnswer;
      hide IpOk;
      hide Sends;
      hide IdleSends;
      hide SynsFor;
      hide EchoAnswer;
      hide AskGateway;
      hide AskPeers;
      hide Arp;
      hide Receive;
      hide AnswerTo;
      hide SeenLength;
      hide SegmentOf;
      pos := 0;
      ghost var (g0, c0) := (gwLog + [], tcpLog + []);
      assert g0 == gwLog && c0 == tcpLog;
      if plen == 0 {
        OnIdle(linkUp);
        return;
      }
      if IsArpForUs(buf[..], plen, own.ip) {
        OnArp();
        return;
      }
      if !IsIpForUs(buf[..], plen, own.ip, broadcast) {
        return;
      }
      if buf[IP_PROTO_P] == 1 && buf[ICMP_TYPE_P] == 8 {
        OnEcho(plen);
        return;
      }
      if taken && buf[IP_PROTO_P] == 17 {
        return;
      }
      if plen < 54 && buf[IP_PROTO_P] != 6 {
        return;
      }
      if buf[TCP_DST_PORT_H_P] == CLIENT_PORT_H {
        OnClientSegment(plen, fill);
        return;
      }
      var len;
      pos, seqnum, len := Accept(buf, hisport, plen, own.mac, own.ip, seqnum, web.infoDataLen);
      web.infoDataLen := len;
    }

    method OnEcho(plen: u16)
      requires Ready() && 42 <= plen <= buf.Length && buf[ICMP_TYPE_P] == 8
      modifies buf
      ensures EchoAnswer(buf[..], old(buf[..]), plen, own)
    {
      hide IpOk;
      hide Verifies;
      ghost var o := buf[..];
      assert o[ICMP_TYPE_P..plen] == buf[ICMP_TYPE_P..plen];
      MakeEchoReplyFromRequest(buf, plen, own.mac, own.ip);
      ghost var b := buf[..];
      assert b[ICMP_TYPE_P..plen] == buf[ICMP_TYPE_P..plen] && b[plen..] == buf[plen..] && o[plen..] == old(buf[plen..]);
      assert b[..6] == buf[..6] && b[6..12] == buf[6..12] && b[26..30] == buf[26..30] && b[30..34] == buf[30..34];
      assert o[6..12] == old(buf[6..12]) && o[26..30] == old(buf[26..30]);
    }

    /** `packetLoop`, and if it returns the data of a request, the reply to it: the acknowledgement covers
        exactly the request's data, and the reply starts where its sender expects it. */
    method Serve(plen: u16, linkUp: bool, taken: bool, fill: seq<byte>, chunks: seq<seq<byte>>, flags: seq<byte>)
      returns (pos: u16, ghost segments: seq<seq<byte>>)
      requires Ready() && plen <= buf.Length && TCP_DATA_P + |fill| <= buf.Length && 40 + |fill| < 0x1_0000
      requires |flags| == |chunks|
      requires forall k :: 0 <= k < |chunks| ==> TCP_DATA_P + |chunks[k]| <= buf.Length && 40 + |chunks[k]| < 0x1_0000
      modifies this`gw, this`gwLog, this`conn, this`tcpLog, this`seqnum, this`idleSent, web, buf
      ensures Ready()
      ensures var o := old(buf[..]);
              if Classify(o, plen, own, broadcast, taken).ForServer? && AnswerTo(o, hisport, plen).Data? then
                && |web.sent| == |old(web.sent)| + 1 + |chunks|
                && pos == 34 + 4 * (o[46] as int / 16) && web.sent == old(web.sent) + [web.sent[|old(web.sent)|]] + segments
                && 0 < Remaining(o) < 0x8000
                && HttpReply.AckFrame(web.sent[|old(web.sent)|], o, Remaining(o), own.mac, own.ip)
                && HttpReply.Stream(segments, chunks, flags, Field32(o, TCP_SEQACK_H_P))
              else pos == 0 && web.sent == old(web.sent)
    {
      hide HttpReply.AckFrame;
      hide HttpReply.Stream;
      hide Sends;
      hide Left;
      hide IdleSends;
      hide Receive;
      segments := [];
      DataLengthIs(buf[..]);
      hide Remaining;
      pos := PacketLoop(plen, linkUp, taken, fill);
      if pos != 0 {
        segments := web.Respond(own.mac, own.ip, chunks, flags);
      }
    }

    /** A call of `packetLoop` in a run: the invariant goes on, unless we answer from the gateway's address. */
    method Poll(plen: u16, linkUp: bool, taken: bool, fill: seq<byte>) returns (pos: u16)
      requires Ready() && plen <= buf.Length && TCP_DATA_P + |fill| <= buf.Length && 40 + |fill| < 0x1_0000
      requires Serving()
      requires Classify(buf[..], plen, own, broadcast, taken).ArpForUs? ==> !OwnAnswer(gw, own, buf[ARP_OPCODE_L_P])
      modifies this`gw, this`gwLog, this`conn, this`tcpLog, this`seqnum, this`idleSent, web`infoDataLen, buf
      ensures Ready() && Serving()
    {
      hide Solicited;
      hide AtMostOnce;
      hide GwAfter;
      hide ConnAfter;
      ghost var (b, kind) := (buf[..], Classify(buf[..], plen, own, broadcast, taken));
      LoopKeepsGateway(kind, gw, gwLog, b, own, linkUp);
      LoopServesOnce(kind, conn, tcpLog, start, gw, b, plen, |fill|, linkUp);
      pos := PacketLoop(plen, linkUp, taken, fill);
    }
  }
}
