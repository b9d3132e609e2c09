/** Exchanges between two hosts: what each does with the frames the other builds, byte by byte (tcpip.cpp; the
    flag bits and fields are those of sections 3.1 and 3.4 of RFC 793 and of RFC 826). */
module Sessions {
  import opened Bytes
  import opened Packet
  import opened TcpSegment
  import opened TcpServer
  import opened Gateway
  import opened TcpClient
  import opened PacketLoop
  import HttpReply
  import Udp

  // ---- the client's transitions, from the bytes of the segment in the buffer

  /** The bits of a flag byte. */
  datatype Flags = Flags(fin: bool, syn: bool, rst: bool, ack: bool)

  function FlagsOf(b: seq<byte>): Flags
    requires |b| >= 54
  {
    Flags(b[47] % 2 == 1, b[47] % 4 >= 2, b[47] % 8 >= 4, b[47] % 32 >= 16)
  }

  lemma SegmentIs(b: seq<byte>, hisip: Ip, plen: u16, fillLen: u16)
    requires |b| >= 54
    ensures var (p, f, n) := (SegmentOf(b, hisip, plen, fillLen), FlagsOf(b), Remaining(b));
            && (p.fromPeer <==> b[26..30] == hisip) && p.fin == f.fin && p.syn == f.syn && p.rst == f.rst && p.ack == f.ack
            && p.len == (if 0 <= n < 0x8000 then n else 0) && p.pos == 34 + 4 * (b[46] as int / 16)
            && p.plen == plen && p.dstPortL == b[37] && p.fillLen == fillLen
  {
    FlagBits(b[47]);
    DataLengthIs(b);
  }

  /** Which state follows, exactly. A segment of another host changes nothing. RST always ends the connection.
      From 2, a SYN with ACK leads to 3 and anything else back to 1. From 3, data with a result callback lead to 6
      (to 3 in persistent mode). From 0, 1 and 6 a FIN leads to 6. State 5 is final. */
  lemma NextState(c: Conn, b: seq<byte>, hisip: Ip, plen: u16, fillLen: u16)
    requires |b| >= 54 && 42 <= plen && c.fd < 8 && c.state in {0, 1, 2, 3, 5, 6}
    ensures var (peer, f, some) := (b[26..30] == hisip, FlagsOf(b), 0 < Remaining(b) < 0x8000);
            var c' := Receive(c, SegmentOf(b, hisip, plen, fillLen)).0;
            && c' == c.(state := c'.state)
            && (!peer ==> c' == c) && (peer && f.rst ==> c'.state == 5)
            && (c.state == 2 ==> (c'.state == 3 <==> peer && !f.rst && f.syn && f.ack)
                                 && (c'.state == 1 <==> peer && !f.rst && !(f.syn && f.ack))
                                 && c'.state in {1, 2, 3, 5})
            && (c.state == 3 ==> (c'.state == 6 <==> peer && !f.rst && some && c.hasResult && !c.persist)
                                 && c'.state in {3, 5, 6})
            && (c.state in {0, 1, 6} ==> (c'.state == 6 <==> (c.state == 6 && !(peer && f.rst)) || (peer && !f.rst && f.fin))
                                         && c'.state in {c.state, 5, 6})
            && (c.state == 5 ==> c'.state == 5)
            && (c'.state == 5 <==> c.state == 5 || (peer && f.rst))
  {
    SegmentIs(b, hisip, plen, fillLen);
  }

  /** What is done on the way. */
  lemma Answers(c: Conn, b: seq<byte>, hisip: Ip, plen: u16, fillLen: u16)
    requires |b| >= 54 && 42 <= plen && c.fd < 8 && c.state in {0, 1, 2, 3, 5, 6} && b[26..30] == hisip
    ensures var (f, n, fd) := (FlagsOf(b), Remaining(b), b[37] / 32);
            var (some, start) := (0 < n < 0x8000, 34 + 4 * (b[46] as int / 16));
            var es := Receive(c, SegmentOf(b, hisip, plen, fillLen)).1;
            if f.rst then es == if c.hasResult then [Result(fd, 3, 0, 0)] else []
            else if c.state == 2 && f.syn && f.ack then
              es == [Acked(0, 0)] + if c.hasFill then [Fill(fd), DataSent(fillLen)] else [DataSent(0)]
            else if c.state == 2 then es == [Acked(if f.ack then 0 else if some then n + 1 else 1, 4)]
            else if c.state == 3 && some && c.hasResult then
              var pos := DataPos(start, plen);
              es == [Result(fd, 0, pos, DataLen(start, n, plen)), Acked(n, if c.persist then 8 else 9)]
            else if c.state == 5 || (c.state == 3 && f.fin) then es == []
            else if f.fin then es == [Acked(if some then n + 1 else 1, 9)]
            else es == if some then [Acked(n, 0)] else []
  {
    SegmentIs(b, hisip, plen, fillLen);
    assert b[37] / 32 % 8 == b[37] / 32;
  }

  // ---- address resolution

  /** `a` asks for the address of `b`; `b` answers; `a` learns its MAC, as the gateway's if it awaits that. */
  lemma ArpExchange(q: seq<byte>, r: seq<byte>, a: Own, b: Own, len: u16, bcA: Ip, bcB: Ip, taken: bool, g: Gw)
    requires |q| == |r| >= 54 && 42 <= len && WhoHasFrame(q, a, b.ip) && ArpAnswer(r, q, b)
    ensures q[12..20] == [8, 6, 0, 1, 8, 0, 6, 4] && q[..6] == [255, 255, 255, 255, 255, 255] && r[12..20] == q[12..20]
    ensures Classify(q, len, b, bcB, taken) == ArpForUs && q[21] == 1
    ensures Classify(r, len, a, bcA, taken) == ArpForUs && r[21] == 2 && r[28..32] == b.ip && r[22..28] == b.mac
    ensures g.wait.accept && g.gwip == b.ip ==>
              var g' := Arp(g, a, r[21], r[28..32], r[22..28]).0; g'.wait.have && g'.gwmac == b.mac
  {
    assert q[12] == q[12..22][0] && q[13] == q[12..22][1] && q[21] == q[12..22][9];
    assert r[12] == r[12..20][0] && r[13] == r[12..20][1] && r[21] == r[20..22][1];
    assert q[12] == q[12..20][0] && q[13] == q[12..20][1];
    assert q[12..20] == q[12..22][..8];
  }

  /** A datagram reaches the host it is for, if a listener there takes it. */
  lemma DatagramArrives(u: seq<byte>, a: Own, b: Own, mac: Mac, sport: u16, dport: u16, dlen: nat, plen: u16, bc: Ip)
    requires |u| >= 54 && |u| >= 42 + dlen && Udp.Datagram(u, a, mac, sport, b.ip, dport, dlen) && plen >= 42
    ensures Classify(u, plen, b, bc, true) == Listened
    ensures u[26..30] == a.ip && 256 * (u[34] as int) + u[35] as int == sport && 256 * (u[36] as int) + u[37] as int == dport
    ensures u[20] == 0x40 && u[21] == 0 && u[22] == 64
    ensures 256 * (u[38] as int) + u[39] as int == 8 + dlen && 256 * (u[16] as int) + u[17] as int == 28 + dlen
  {
    assert u[12] == u[12..16][0] && u[13] == u[12..16][1] && u[14] == u[12..16][2];
    assert u[20] == u[18..23][2] && u[21] == u[18..23][3] && u[22] == u[18..23][4];
  }

  // ---- a connection

  /** The SYN of a client is taken for one by a server that listens on its port. */
  lemma SynArrives(s: seq<byte>, a: Own, b: Own, mac: Mac, srcPort: byte, port: u16, n: byte, bc: Ip, taken: bool)
    requires |s| >= 58 && SynFrame(s, a, mac, b.ip, srcPort, port, n) && port / 256 != 11
    ensures Classify(s, 58, b, bc, taken) == ForServer && AnswerTo(s, port, 58) == SynAck
    ensures s[46] == 0x60 && s[54..58] == [2, 4, 2, 38] && Remaining(s) == 0 && 256 * (s[48] as int) + s[49] as int == 768
  {
    assert s[12] == s[12..16][0] && s[13] == s[12..16][1] && s[14] == s[12..16][2];
    AnswersIff(s, port, 58);
  }

  /** The SYN-ACK leads the client to state 3, with the callbacks of the request. */
  lemma SynAckArrives(r: seq<byte>, s: seq<byte>, a: Own, b: Own, mac: Mac, srcPort: byte, port: u16, n: byte, m: byte,
                      bc: Ip, taken: bool, c: Conn, fillLen: u16)
    requires |r| == |s| >= 58 && SynFrame(s, a, mac, b.ip, srcPort, port, n) && SynAckFrame(r, s, b.mac, b.ip, m)
    requires c.state == 2 && c.fd < 8 && c.hasFill
    ensures Classify(r, 58, a, bc, taken) == ForClient && r[46] == 0x60 && r[54..58] == [2, 4, 5, 0]
    ensures Remaining(r) == 0 && 256 * (r[48] as int) + r[49] as int == 1400
    ensures var (c', es) := Receive(c, SegmentOf(r, b.ip, 58, fillLen));
            c'.state == 3 && es == [Acked(0, 0), Fill(srcPort / 32), DataSent(fillLen)]
  {
    assert s[12..16] == [8, 0, 0x45, 0];
    assert r[12] == r[12..16][0] && r[13] == r[12..16][1] && r[14] == r[12..16][2];
    assert r[36] == r[36..38][0] && r[37] == r[36..38][1] && s[34] == s[34..36][0] && s[35] == s[34..36][1];
    NextState(c, r, b.ip, 58, fillLen);
    Answers(c, r, b.ip, 58, fillLen);
  }

  /** What the data segment of the client shows: type, protocol, addressee, ports and lengths. */
  lemma RequestHeader(d: seq<byte>, r: seq<byte>, s: seq<byte>, data: seq<byte>, a: Own, b: Own, mac: Mac, srcPort: byte,
                      port: u16, n: byte, m: byte)
    requires |d| == |r| == |s| >= 58 && SynFrame(s, a, mac, b.ip, srcPort, port, n) && SynAckFrame(r, s, b.mac, b.ip, m)
    requires DataReply(d, r, data, a)
    ensures d[12] == 8 && d[13] == 0 && d[14] == 0x45 && d[23] == 6 && d[30..34] == b.ip
    ensures 256 * (d[36] as int) + d[37] as int == port && d[47] == 0x18 && Remaining(d) == |data| && d[46] == 0x50
    ensures Field32(d, 38) == 256 * n + 1 && Field32(d, 42) == 256 * m + 1
    ensures |d| >= 54 + |data| && d[54..54 + |data|] == data
  {
    hide IpOk;
    hide TcpOk;
    hide Field32;
    assert s[12..16] == [8, 0, 0x45, 0];
    assert d[12] == d[12..16][0] && d[13] == d[12..16][1] && d[14] == d[12..16][2];
    assert d[36] == d[36..38][0] && d[37] == d[36..38][1] && r[34] == r[34..36][0] && r[35] == r[34..36][1];
    assert s[36] == s[36..38][0] && s[37] == s[36..38][1];
  }

  /** The request reaches the server's application: all its bytes, at the place they are, next in the stream. */
  lemma RequestArrives(d: seq<byte>, r: seq<byte>, s: seq<byte>, data: seq<byte>, a: Own, b: Own, mac: Mac, srcPort: byte,
                       port: u16, n: byte, m: byte, bc: Ip, taken: bool, plen: u16)
    requires |d| == |r| == |s| >= 58 && SynFrame(s, a, mac, b.ip, srcPort, port, n) && SynAckFrame(r, s, b.mac, b.ip, m)
    requires DataReply(d, r, data, a) && port / 256 != 11 && 8 <= |data| < 0x8000 && plen == 54 + |data|
    ensures Classify(d, plen, b, bc, taken) == ForServer && AnswerTo(d, port, plen) == Data(54)
    ensures Remaining(d) == |data| && |d| >= 54 + |data| && d[54..54 + |data|] == data && SeenLength(d, port, 0) == |data|
    ensures Field32(d, 38) == 256 * n + 1 && Field32(d, 42) == 256 * m + 1
  {
    RequestHeader(d, r, s, data, a, b, mac, srcPort, port, n, m);
    hide SynFrame;
    hide SynAckFrame;
    hide DataReply;
    AnswersIff(d, port, plen);
    hide AnswerTo;
  }

  /** The bare acknowledgement of the request leaves the client waiting for the response. */
  lemma AckArrives(k: seq<byte>, d: seq<byte>, b: Own, count: u16, c: Conn, plen: u16, fillLen: u16)
    requires |k| == |d| >= 54 && Acknowledges(k, d, count, 0, b.mac, b.ip) && c.state == 3 && c.fd < 8 && 42 <= plen
    ensures Receive(c, SegmentOf(k, b.ip, plen, fillLen)) == (c, [])
  {
    AckIsEmpty(k, d, count, 0, b.mac, b.ip);
    SegmentIs(k, b.ip, plen, fillLen);
  }

  /** The first segment of the response reaches the client's result callback: all its bytes, at the place they are,
      with the fd of the request; the client acknowledges it and closes. */
  lemma ResponseArrives(e: seq<byte>, k: seq<byte>, d: seq<byte>, a: Own, b: Own, count: u16, chunk: seq<byte>, number: int,
                        flags: byte, c: Conn, bc: Ip, taken: bool, fillLen: u16)
    requires |d| >= 54 && HttpReply.AckFrame(k, d, count, b.mac, b.ip) && HttpReply.SameEnds(e, k)
    requires HttpReply.Carries(e, chunk, number, flags) && flags % 8 < 4 && 8 <= |chunk| < 0x8000
    requires d[12..15] == [8, 0, 0x45] && d[23] == 6 && d[26..30] == a.ip && d[34] == 11
    requires c.state == 3 && c.fd < 8 && c.hasResult && !c.persist
    ensures Classify(e, |e|, a, bc, taken) == ForClient && e[54..] == chunk
    ensures Receive(c, SegmentOf(e, b.ip, |e|, fillLen))
         == (c.(state := 6), [Result(d[35] / 32, 0, 54, |chunk|), Acked(|chunk|, 9)])
  {
    ResponseHeader(e, k, d, a, b, count, chunk, number, flags);
    hide HttpReply.AckFrame;
    hide HttpReply.Carries;
    hide HttpReply.SameEnds;
    SegmentIs(e, b.ip, |e|, fillLen);
    assert e[37] / 32 % 8 == e[37] / 32;
  }

  lemma ResponseHeader(e: seq<byte>, k: seq<byte>, d: seq<byte>, a: Own, b: Own, count: u16, chunk: seq<byte>, number: int,
                       flags: byte)
    requires |d| >= 54 && HttpReply.AckFrame(k, d, count, b.mac, b.ip) && HttpReply.SameEnds(e, k)
    requires HttpReply.Carries(e, chunk, number, flags)
    requires d[12..15] == [8, 0, 0x45] && d[23] == 6 && d[26..30] == a.ip && d[34] == 11
    ensures |e| == 54 + |chunk| && e[12] == 8 && e[13] == 0 && e[14] == 0x45 && e[23] == 6
    ensures e[26..30] == b.ip && e[30..34] == a.ip && e[36] == 11 && e[37] == d[35] && e[47] == flags
    ensures Remaining(e) == |chunk| && e[46] == 0x50 && e[54..] == chunk
  {
    var p := d[..54];
    assert p[12..16] == d[12..16] && p[26..30] == d[26..30] && p[34..36] == d[34..36] && p[23] == d[23];
    assert d[12] == d[12..15][0] && d[13] == d[12..15][1] && d[14] == d[12..15][2];
    assert k[12] == k[12..16][0] && k[13] == k[12..16][1] && k[14] == k[12..16][2];
    assert k[36] == k[36..38][0] && k[37] == k[36..38][1] && d[34] == d[34..36][0] && d[35] == d[34..36][1];
    assert e[26..30] == k[26..30] && e[30..34] == k[30..34];
  }

  /** With the gateway's MAC known, the next round without a packet sends the SYN of a pending request: to the peer
      itself on the LAN, through the gateway otherwise. */
  lemma PendingSynSent(g: Gw, c: Conn, own: Own, linkUp: bool, port: u16, n: byte, log: seq<TcpClient.Event>, b: seq<byte>)
    requires |b| >= 54 && c.state == 1 && c.fd < 8 && g.wait.have
    ensures var src := c.fd * 32 + (c.portL + 1) % 256 % 32;
            && Syn(if IsLan(own, g.hisip) then g.destmac else g.gwmac, g.hisip, src, port, n)
               in IdleSends(g, c, own, linkUp, port, n)
            && ConnAfter(Nothing, c, log, g, b, 0, 0, linkUp)
               == (c.(state := 2, portL := (c.portL + 1) % 256), log + [SynSent(src)])
  {
    hide IsLan;
  }

  /** Which frames are whose, by their bytes. */
  lemma FrameKinds(b: seq<byte>, plen: u16, own: Own, bc: Ip, taken: bool)
    requires |b| >= 54
    ensures var ip := plen >= 42 && b[12] == 8 && b[13] == 0 && b[14] == 0x45
                      && b[30..34] in {own.ip, bc, [255, 255, 255, 255]};
            var (kind, echo, udp) := (Classify(b, plen, own, bc, taken), b[23] == 1 && b[34] == 8, taken && b[23] == 17);
            var tcp := ip && !echo && !udp && (plen >= 54 || b[23] == 6);
            && (kind == Nothing <==> plen == 0)
            && (kind == ArpForUs <==> plen >= 41 && b[12] == 8 && b[13] == 6 && b[38..42] == own.ip)
            && (kind == Echo <==> ip && echo) && (kind == Listened <==> ip && !echo && udp)
            && (kind == ForClient <==> tcp && b[36] == 11) && (kind == ForServer <==> tcp && b[36] != 11)
  {
  }
}
