/** The single-connection TCP client of the packet loop (tcpip.cpp). */
module TcpClient {
  import opened Bytes
  import opened Packet

  const IDLE: byte := 0        // before the first request
  const SEND_SYN: byte := 1
  const SYN_SENT: byte := 2
  const ESTABLISHED: byte := 3
  const CLOSING: byte := 5
  const CLOSED: byte := 6

  /** `fd` and `portL` make up the low byte of the source port; the callbacks may be absent. */
  datatype Conn = Conn(state: byte, fd: byte, portL: byte, hasResult: bool, hasFill: bool, persist: bool)

  /** A segment for one of the client ports: its flags, how much data it carries and where, the low
      byte of its destination port, and what the fill callback would return for it. */
  datatype Segment = Segment(
    fromPeer: bool, syn: bool, fin: bool, rst: bool, ack: bool, len: u16, pos: u16, plen: u16, dstPortL: byte, fillLen: u16)

  datatype Event =
    | SynSent(srcPortL: byte)
    | Acked(count: u16, addflags: byte)   // make_tcp_ack_from_any
    | DataSent(len: u16)                  // make_tcp_ack_with_data_noflags
    | Fill(fd: byte)
    | Result(fd: byte, status: byte, pos: u16, len: u16)

  function FdOf(portL: byte): byte { portL / 32 % 8 }

  /** The source port's low byte: the fd in the top three bits, a counter below. */
  function SourcePortL(fd: byte, portL: byte): byte
    requires fd < 8
  {
    fd * 32 + portL % 32
  }

  /** Where the data starts, and how much of it lies inside the frame. */
  function DataPos(pos: u16, plen: u16): int { if pos > plen - 8 then plen - 8 else pos }

  function DataLen(pos: u16, len: u16, plen: u16): int {
    if DataPos(pos, plen) + len > plen then plen - DataPos(pos, plen) else len
  }

  /** `clientTcpReq`. */
  function Request(c: Conn, hasResult: bool, hasFill: bool): Conn {
    c.(state := SEND_SYN, fd := (c.fd + 1) % 8, hasResult := hasResult, hasFill := hasFill)
  }

  /** A round without a packet. */
  function Idle(c: Conn, haveGw: bool): (Conn, seq<Event>)
    requires c.fd < 8
  {
    if c.state == SEND_SYN && haveGw then
      var portL: byte := (c.portL as int + 1) % 256;
      (c.(state := SYN_SENT, portL := portL), [SynSent(SourcePortL(c.fd, portL))])
    else (c, [])
  }

  /** A segment whose destination port is a client port. */
  function Receive(c: Conn, p: Segment): (Conn, seq<Event>)
    requires 8 <= p.plen
  {
    var fd := FdOf(p.dstPortL);
    if !p.fromPeer then (c, [])
    else if p.rst then
      (c.(state := CLOSING), if c.hasResult then [Result(fd, 3, 0, 0)] else [])
    else if c.state == SYN_SENT then
      if p.syn && p.ack then
        (c.(state := ESTABLISHED),
         if c.hasFill then [Acked(0, 0), Fill(fd), DataSent(p.fillLen)] else [Acked(0, 0), DataSent(0)])
      else
        (c.(state := SEND_SYN), [Acked(if p.ack then 0 else (p.len + 1) % 0x1_0000, RST)])
    else if c.state == ESTABLISHED && p.len > 0 && c.hasResult then
      var r := Result(fd, 0, DataPos(p.pos, p.plen), DataLen(p.pos, p.len, p.plen));
      if c.persist then (c, [r, Acked(p.len, PUSH)])
      else (c.(state := CLOSED), [r, Acked(p.len, PUSH + FIN)])
    else if c.state != CLOSING && p.fin then
      if c.state == ESTABLISHED then (c, [])
      else (c.(state := CLOSED), [Acked((p.len + 1) % 0x1_0000, PUSH + FIN)])
    else if c.state != CLOSING && p.len > 0 then (c, [Acked(p.len, 0)])
    else (c, [])
  }

  // ---- runs after one request

  datatype Input = NoPacket(haveGw: bool) | Packet(p: Segment)

  predicate InputOk(i: Input) { i.Packet? ==> 8 <= i.p.plen }

  function Step(c: Conn, i: Input): (Conn, seq<Event>)
    requires c.fd < 8 && InputOk(i)
  {
    match i
    case NoPacket(gw) => Idle(c, gw)
    case Packet(p) => Receive(c, p)
  }

  function Run(c: Conn, ins: seq<Input>): (r: (Conn, seq<Event>))
    requires c.fd < 8 && forall i :: i in ins ==> InputOk(i)
    ensures r.0.fd == c.fd && r.0.hasResult == c.hasResult && r.0.hasFill == c.hasFill && r.0.persist == c.persist
  {
    if ins == [] then (c, [])
    else
      var n := |ins| - 1;
      var (c1, log) := Run(c, ins[..n]);
      var (c2, es) := Step(c1, ins[n]);
      (c2, log + es)
  }

  predicate Fills(log: seq<Event>, i: int) { 0 <= i < |log| && log[i].Fill? }

  predicate Delivers(log: seq<Event>, i: int) { 0 <= i < |log| && log[i].Result? && log[i].status == 0 }

  /** The log of a request so far: how often its callbacks ran, and in which order. */
  ghost predicate AtMostOnce(log: seq<Event>, c: Conn) {
    && (forall i, j :: Fills(log, i) && Fills(log, j) ==> i == j)
    && (forall i, j :: Delivers(log, i) && Delivers(log, j) ==> i == j)
    && (c.hasFill ==> forall j :: Delivers(log, j) ==> exists i :: Fills(log, i) && i < j)
    && (c.state in {IDLE, SEND_SYN, SYN_SENT} ==> forall i :: !Fills(log, i))
    && (c.state in {IDLE, SEND_SYN, SYN_SENT, ESTABLISHED} ==> forall i :: !Delivers(log, i))
    && (c.hasFill && c.state == ESTABLISHED ==> exists i :: Fills(log, i))
    && c.state in {IDLE, SEND_SYN, SYN_SENT, ESTABLISHED, CLOSING, CLOSED}
  }

  /** When the callbacks run, and which states follow which. */
  lemma StepEvents(c: Conn, i: Input)
    requires c.fd < 8 && InputOk(i) && !c.persist && c.state in {IDLE, SEND_SYN, SYN_SENT, ESTABLISHED, CLOSING, CLOSED}
    ensures var (c', es) := Step(c, i);
            && c'.hasFill == c.hasFill && c'.state in {IDLE, SEND_SYN, SYN_SENT, ESTABLISHED, CLOSING, CLOSED}
            && (forall k :: Fills(es, k) ==> k == 1 && c.state == SYN_SENT && c'.state == ESTABLISHED)
            && (forall k :: Delivers(es, k) ==> k == 0 && c.state == ESTABLISHED && c'.state == CLOSED)
            && (c'.state == IDLE ==> c.state == IDLE)
            && (c'.state == SEND_SYN || c'.state == SYN_SENT ==> c.state == SEND_SYN || c.state == SYN_SENT)
            && (c'.state == ESTABLISHED ==> c.state == ESTABLISHED || (c.state == SYN_SENT && (c.hasFill ==> Fills(es, 1))))
  {
  }

  lemma EventsJoined(log: seq<Event>, es: seq<Event>)
    ensures forall i :: Fills(log + es, i) <==> Fills(log, i) || Fills(es, i - |log|)
    ensures forall i :: Delivers(log + es, i) <==> Delivers(log, i) || Delivers(es, i - |log|)
  {
  }

  lemma StepAtMostOnce(c: Conn, i: Input, log: seq<Event>)
    requires c.fd < 8 && InputOk(i) && !c.persist && AtMostOnce(log, c)
    ensures var (c', es) := Step(c, i); AtMostOnce(log + es, c')
  {
    hide Step;
    hide Fills;
    hide Delivers;
    var (c', es) := Step(c, i);
    StepEvents(c, i);
    EventsJoined(log, es);
    FillsInside(log);
    if c'.state == ESTABLISHED && c.state == SYN_SENT && c.hasFill {
      assert Fills(es, (|log| + 1) - |log|);
      assert Fills(log + es, |log| + 1);
    }
  }

  lemma FillsInside(log: seq<Event>)
    ensures forall i :: Fills(log, i) || Delivers(log, i) ==> 0 <= i < |log|
  {
  }

  /** After one request, without persistent mode: the fill callback runs at most once, data is
      delivered at most once and only after it. */
  lemma {:induction false} RequestServedOnce(c: Conn, hasResult: bool, hasFill: bool, ins: seq<Input>)
    requires c.fd < 8 && !c.persist && forall i :: i in ins ==> InputOk(i)
    ensures var (c', log) := Run(Request(c, hasResult, hasFill), ins); AtMostOnce(log, c')
  {
    if ins != [] {
      var n := |ins| - 1;
      RequestServedOnce(c, hasResult, hasFill, ins[..n]);
      var (c1, log) := Run(Request(c, hasResult, hasFill), ins[..n]);
      assert ins[n] in ins;
      StepAtMostOnce(c1, ins[n], log);
    }
  }

  /** Once established, closing or closed, a connection is never tried again. */
  lemma {:induction false} NeverRetried(c: Conn, ins: seq<Input>)
    requires c.fd < 8 && c.state in {ESTABLISHED, CLOSING, CLOSED} && forall i :: i in ins ==> InputOk(i)
    ensures Run(c, ins).0.state in {ESTABLISHED, CLOSING, CLOSED}
  {
    if ins != [] {
      NeverRetried(c, ins[..|ins| - 1]);
      assert ins[|ins| - 1] in ins;
    }
  }

  /** The fd sent in the source port comes back in the destination port of the peer's answer. */
  lemma FdEchoed(fd: byte, portL: byte)
    requires fd < 8
    ensures FdOf(SourcePortL(fd, portL)) == fd
  {
    Top(fd, portL % 32);
  }

  lemma Top(fd: int, low: int)
    requires 0 <= low < 32
    ensures (fd * 32 + low) / 32 == fd
  {
  }

  predicate CallbackFd(e: Event, fd: byte) { (e.Fill? || e.Result?) ==> e.fd == fd }

  /** If every segment is addressed to a port this connection has used, every callback gets the fd
      that `clientTcpReq` returned. */
  lemma {:induction false} CallbacksGetFd(c: Conn, ins: seq<Input>)
    requires c.fd < 8 && forall i :: i in ins ==> InputOk(i)
    requires forall i :: i in ins && i.Packet? ==> exists l: byte :: i.p.dstPortL == SourcePortL(c.fd, l)
    ensures forall e :: e in Run(c, ins).1 ==> CallbackFd(e, c.fd)
  {
    if ins != [] {
      var n := |ins| - 1;
      CallbacksGetFd(c, ins[..n]);
      assert ins[n] in ins;
      if ins[n].Packet? {
        var l: byte :| ins[n].p.dstPortL == SourcePortL(c.fd, l);
        FdEchoed(c.fd, l);
      }
      var (c1, log) := Run(c, ins[..n]);
      forall e | e in Step(c1, ins[n]).1 ensures CallbackFd(e, c.fd) {}
    }
  }

  /** The data handed to the result callback lies inside the frame. It is the segment's own exactly when
      all of it is inside and starts at least eight bytes before the end. */
  lemma DataInside(pos: u16, len: u16, plen: u16)
    requires 42 <= plen
    ensures 0 <= DataPos(pos, plen) <= pos && 0 <= DataLen(pos, len, plen) <= len
    ensures DataPos(pos, plen) + DataLen(pos, len, plen) <= plen
    ensures DataPos(pos, plen) == pos && DataLen(pos, len, plen) == len <==> pos + 8 <= plen && pos + len <= plen
  {
  }

  // ---- a request that is answered

  lemma {:induction false} RunOn(c: Conn, a: seq<Input>, b: seq<Input>)
    requires c.fd < 8 && (forall i :: i in a ==> InputOk(i)) && forall i :: i in b ==> InputOk(i)
    ensures forall i :: i in a + b ==> InputOk(i)
    ensures var (c1, log) := Run(c, a);
            var (c2, es) := Run(c1, b);
            Run(c, a + b) == (c2, log + es)
    decreases |b|
  {
    hide Step;
    var log := Run(c, a).1;
    if b == [] {
      assert a + b == a && log + [] == log;
    } else {
      var n := |b| - 1;
      RunOn(c, a, b[..n]);
      assert (a + b)[..|a| + n] == a + b[..n] && (a + b)[|a| + n] == b[n] && b[n] in b;
      var c1 := Run(c, a).0;
      var (c2, es) := Run(c1, b[..n]);
      assert (log + es) + Step(c2, b[n]).1 == log + (es + Step(c2, b[n]).1);
    }
  }

  /** Rounds without a packet, before a request waiting for the gateway, and segments of other peers. */
  predicate Idles(i: Input, haveGw: bool) { match i case NoPacket(gw) => gw ==> haveGw case Packet(p) => !p.fromPeer }

  predicate AllIdle(ins: seq<Input>, haveGw: bool) { forall i :: i in ins ==> InputOk(i) && Idles(i, haveGw) }

  /** They change nothing, once a SYN is out or while there is no gateway. */
  lemma {:induction false} NothingHappens(c: Conn, ins: seq<Input>, haveGw: bool)
    requires c.fd < 8 && AllIdle(ins, haveGw) && (haveGw ==> c.state != 1)
    ensures Run(c, ins) == (c, [])
  {
    if ins != [] {
      var n := |ins| - 1;
      assert ins[n] in ins && forall i :: i in ins[..n] ==> i in ins;
      NothingHappens(c, ins[..n], haveGw);
      assert Step(c, ins[n]) == (c, []);
      var none: seq<Event> := [];
      assert none + none == none;
    }
  }

  lemma ThenNothing(c: Conn, i: Input, ins: seq<Input>)
    requires c.fd < 8 && InputOk(i) && AllIdle(ins, true) && Step(c, i).0.state != 1 && Step(c, i).0.fd < 8
    ensures forall k :: k in [i] + ins ==> InputOk(k)
    ensures Run(c, [i] + ins) == Step(c, i)
  {
    hide Step;
    assert [i][..0] == [] && [i][0] == i && [] + Step(c, i).1 == Step(c, i).1;
    RunOn(c, [i], ins);
    NothingHappens(Step(c, i).0, ins, true);
    assert Step(c, i).1 + [] == Step(c, i).1;
  }

  /** What an answered request comes to. */
  function Served(port: byte, syn: Segment, data: Segment): seq<Event>
    requires 8 <= data.plen
  {
    [SynSent(port)] + [Acked(0, 0), Fill(FdOf(syn.dstPortL)), DataSent(syn.fillLen)]
    + [Result(FdOf(data.dstPortL), 0, DataPos(data.pos, data.plen), DataLen(data.pos, data.len, data.plen)),
       Acked(data.len, 9)]
  }

  /** A request is sent once the gateway is known, completed when the peer accepts the connection, and answered by
      the first data: SYN, acknowledgement, request, result with status 0, acknowledgement with FIN. Whatever
      other peers send, and however many rounds pass, in between. */
  lemma RequestAnswered(c: Conn, w0: seq<Input>, w1: seq<Input>, syn: Segment, w2: seq<Input>, data: Segment)
    requires c.fd < 8 && !c.persist && AllIdle(w0, false) && AllIdle(w1, true) && AllIdle(w2, true)
    requires 8 <= syn.plen && syn.fromPeer && syn.syn && syn.ack && !syn.rst
    requires 8 <= data.plen && data.fromPeer && !data.rst && data.len > 0
    ensures var ins := w0 + (([NoPacket(true)] + w1) + (([Packet(syn)] + w2) + ([Packet(data)] + [])));
            && (forall i :: i in ins ==> InputOk(i))
            && var (c', log) := Run(Request(c, true, true), ins);
               var port := (c.fd + 1) % 8 * 32 + (c.portL + 1) % 256 % 32;
               c'.state == 6 && log == Served(port, syn, data)
  {
    var c0 := Request(c, true, true);
    var (a, b, d) := ([NoPacket(true)] + w1, [Packet(syn)] + w2, [Packet(data)] + []);
    NothingHappens(c0, w0, false);
    var c1 := Step(c0, NoPacket(true)).0;
    ThenNothing(c0, NoPacket(true), w1);
    var c2 := Step(c1, Packet(syn)).0;
    ThenNothing(c1, Packet(syn), w2);
    ThenNothing(c2, Packet(data), []);
    hide Run;
    RunOn(c1, b, d);
    RunOn(c0, a, b + d);
    RunOn(c0, w0, a + (b + d));
  }
}
