/** The web server's side of a connection: `accept` on a segment for the server port (tcpip.cpp). */
module TcpServer {
  import opened Bytes
  import opened Packet
  import opened TcpSegment

  const SYNACK: byte := 0x12

  /** The answer to the SYN `o`: turned round, numbered `256 * seqnum`, with a segment size option and both
      checksums right. */
  ghost predicate SynAckFrame(b: seq<byte>, o: seq<byte>, mymac: seq<byte>, myip: seq<byte>, seqnum: byte)
    requires |b| == |o| >= 58
  {
    && b[..6] == o[6..12] && b[6..12] == mymac && b[12..16] == o[12..16] && b[IP_PROTO_P] == o[IP_PROTO_P]
    && b[IP_SRC_P..IP_DST_P] == myip && b[IP_DST_P..34] == o[IP_SRC_P..IP_DST_P]
    && b[IP_TOTLEN_H_P] == 0 && b[IP_TOTLEN_L_P] == 44
    && b[34..36] == o[36..38] && b[36..38] == o[34..36]
    && Field32(b, TCP_SEQ_H_P) == 256 * seqnum && Field32(b, TCP_SEQACK_H_P) == (Field32(o, TCP_SEQ_H_P) + 1) % TWO32
    && b[TCP_HEADER_LEN_P] == 0x60 && b[TCP_FLAGS_P] == 0x12 && b[TCP_WIN_SIZE] == 5 && b[TCP_WIN_SIZE + 1] == 0x78
    && b[TCP_DATA_P..58] == [2, 4, 5, 0]
    && IpOk(b) && TcpOk(b, 4)
  }

  /** `make_tcp_synack_from_syn`: the frame sent is `buf[..58]`. */
  method MakeTcpSynackFromSyn(buf: array<byte>, mymac: seq<byte>, myip: seq<byte>, seqnum: byte) returns (next: byte)
    requires buf.Length >= 58 && |mymac| == 6 && |myip| == 4
    modifies buf
    ensures SynAckFrame(buf[..], old(buf[..]), mymac, myip, seqnum) && next == (seqnum as int + 3) % 256
  {
    hide IpOk;
    hide TcpOk;
    hide TurnedAround;
    hide Field32;
    hide Stepped;
    ghost var o := buf[..];
    buf[IP_TOTLEN_H_P] := 0;
    buf[IP_TOTLEN_L_P] := 20 + 20 + 4;
    ghost var t := buf[..];
    MakeEthIp(buf, mymac, myip);
    ghost var h := buf[..];
    TurnedBytes(h, t, mymac, myip);
    FieldFrame(o, h);
    SynAckHead(buf);
    ghost var q := buf[..];
    SteppedIff(Field32(o, TCP_SEQ_H_P), 1);
    SynAckFields(buf, seqnum);
    next := (seqnum as int + 3) % 256;
    ghost var f := buf[..];
    AckKept(q, f);
    KeepsIpOk(h, f);
    FillTcpChecksum(buf, 4);
    FieldFrame(f, buf[..]);
    AddressesKept(buf[..], h, t, o, mymac, myip);
    ghost var b := buf[..];
    assert b[34..36] == o[36..38] && b[36..38] == o[34..36] && b[TCP_DATA_P..58] == f[TCP_DATA_P..58];
  }

  method SynAckHead(buf: array<byte>)
    requires buf.Length >= 58
    modifies buf
    ensures Field32(buf[..], TCP_SEQACK_H_P) == Stepped(old(Field32(buf[..], TCP_SEQ_H_P)), 1)
    ensures buf[34] == old(buf[36]) && buf[35] == old(buf[37]) && buf[36] == old(buf[34]) && buf[37] == old(buf[35])
    ensures buf[TCP_FLAGS_P] == SYNACK && buf[TCP_CHECKSUM_H_P] == 0 && buf[TCP_CHECKSUM_L_P] == 0
    ensures forall i :: 0 <= i < buf.Length && (i < 34 || 52 <= i) ==> buf[i] == old(buf[i])
  {
    hide Field32;
    hide Stepped;
    ghost var o := buf[..];
    buf[TCP_FLAGS_P] := SYNACK;
    FieldFrame(o, buf[..]);
    MakeTcphead(buf, 1, false);
  }

  /** Our own number, the option, header length and window. */
  method SynAckFields(buf: array<byte>, seqnum: byte)
    requires buf.Length >= 58
    modifies buf
    ensures Field32(buf[..], TCP_SEQ_H_P) == 256 * seqnum
    ensures buf[TCP_HEADER_LEN_P] == 0x60 && buf[TCP_WIN_SIZE] == 5 && buf[TCP_WIN_SIZE + 1] == 0x78
    ensures buf[TCP_DATA_P..58] == [2, 4, 5, 0]
    ensures forall i :: 0 <= i < buf.Length && (i < 38 || 42 <= i < 46 || i == 47 || 50 <= i < 54) ==> buf[i] == old(buf[i])
  {
    buf[TCP_SEQ_H_P] := 0;
    buf[TCP_SEQ_H_P + 1] := 0;
    buf[TCP_SEQ_H_P + 2] := seqnum;
    buf[TCP_SEQ_H_P + 3] := 0;
    buf[TCP_DATA_P] := 2;
    buf[TCP_DATA_P + 1] := 4;
    buf[TCP_DATA_P + 2] := 5;
    buf[TCP_DATA_P + 3] := 0;
    buf[TCP_HEADER_LEN_P] := 0x60;
    buf[TCP_WIN_SIZE] := 5;
    buf[TCP_WIN_SIZE + 1] := 0x78;
  }

  lemma AckKept(b: seq<byte>, c: seq<byte>)
    requires |b| == |c| >= TCP_DATA_P && forall k :: TCP_SEQACK_H_P <= k < 46 ==> c[k] == b[k]
    ensures Field32(c, TCP_SEQACK_H_P) == Field32(b, TCP_SEQACK_H_P)
  {
  }

  datatype Answer = SynAck | Data(pos: u16) | Close | Silent

  /** What `accept` makes of a segment. */
  function AnswerTo(b: seq<byte>, port: u16, plen: u16): Answer
    requires |b| >= TCP_DATA_P && 8 <= plen
  {
    var f := b[TCP_FLAGS_P];
    if 256 * (b[TCP_DST_PORT_H_P] as int) + b[TCP_DST_PORT_L_P] as int != port then Silent
    else if HasFlag(f, SYN) then SynAck
    else if !HasFlag(f, ACK) then Silent
    else if TcpDataLen(b) > 0 then (if TcpDataStart(b) <= plen - 8 then Data(TcpDataStart(b)) else Silent)
    else if HasFlag(f, FIN) then Close
    else Silent
  }

  /** The length of the data last seen, which the reply will acknowledge. */
  function SeenLength(b: seq<byte>, port: u16, before: u16): u16
    requires |b| >= TCP_DATA_P
  {
    var f := b[TCP_FLAGS_P];
    if 256 * (b[TCP_DST_PORT_H_P] as int) + b[TCP_DST_PORT_L_P] as int == port && !HasFlag(f, SYN) && HasFlag(f, ACK)
    then TcpDataLen(b) else before
  }

  /** What a segment for the server port is taken for, by its flag byte and its lengths: a SYN, whatever else;
      an ACK with data that start at least eight bytes before the end; a FIN with an ACK and no data. */
  lemma AnswersIff(b: seq<byte>, port: u16, plen: u16)
    requires |b| >= 54 && 8 <= plen
    ensures var (ours, n) := (256 * (b[36] as int) + b[37] as int == port, Remaining(b));
            var (syn, ack, fin) := (b[47] % 4 >= 2, b[47] % 32 >= 16, b[47] % 2 == 1);
            var (start, some) := (34 + 4 * (b[46] as int / 16), 0 < n < 0x8000);
            && (AnswerTo(b, port, plen) == SynAck <==> ours && syn)
            && (AnswerTo(b, port, plen).Data? <==> ours && !syn && ack && some && start + 8 <= plen)
            && (AnswerTo(b, port, plen).Data? ==> AnswerTo(b, port, plen).pos == start)
            && (AnswerTo(b, port, plen) == Close <==> ours && !syn && ack && !some && fin)
            && (ours && !syn && ack ==> SeenLength(b, port, 0) == if some then n else 0)
  {
    FlagBits(b[47]);
    DataLengthIs(b);
  }

  /** A bare acknowledgement of our data is no request. */
  lemma BareAckSilent(b: seq<byte>, o: seq<byte>, count: u16, port: u16, plen: u16, mac: seq<byte>, ip: seq<byte>)
    requires |b| == |o| >= 54 && 8 <= plen && Acknowledges(b, o, count, 0, mac, ip)
    ensures AnswerTo(b, port, plen) == Silent
  {
    AckIsEmpty(b, o, count, 0, mac, ip);
    AnswersIff(b, port, plen);
    DataLengthIs(b);
  }

  /** What `accept` leaves in the buffer. */
  ghost predicate Answered(b: seq<byte>, o: seq<byte>, a: Answer, mymac: seq<byte>, myip: seq<byte>, seqnum: byte)
    requires |b| == |o| >= 58
  {
    match a
    case SynAck => SynAckFrame(b, o, mymac, myip, seqnum)
    case Close => Acknowledges(b, o, 1, 0, mymac, myip)
    case _ => b == o
  }

  /** `accept`: the position of the request's data, or 0. */
  method Accept(buf: array<byte>, port: u16, plen: u16, mymac: seq<byte>, myip: seq<byte>, seqnum: byte, infoDataLen: u16)
    returns (pos: u16, seqnum': byte, infoDataLen': u16)
    requires buf.Length >= 58 && 8 <= plen && |mymac| == 6 && |myip| == 4
    modifies buf
    ensures var a := AnswerTo(old(buf[..]), port, plen);
            && pos == (if a.Data? then a.pos else 0)
            && seqnum' == (if a.SynAck? then (seqnum as int + 3) % 256 else seqnum)
            && infoDataLen' == SeenLength(old(buf[..]), port, infoDataLen)
            && Answered(buf[..], old(buf[..]), a, mymac, myip, seqnum)
    ensures pos != 0 ==> 0 < Remaining(old(buf[..])) < 0x8000 && infoDataLen' == Remaining(old(buf[..]))
  {
    DataLengthIs(buf[..]);
    hide SynAckFrame;
    hide Acknowledges;
    pos, seqnum', infoDataLen' := 0, seqnum, infoDataLen;
    if buf[TCP_DST_PORT_H_P] == port / 256 && buf[TCP_DST_PORT_L_P] == port % 256 {
      if HasFlag(buf[TCP_FLAGS_P], SYN) {
        seqnum' := MakeTcpSynackFromSyn(buf, mymac, myip, seqnum);
      } else if HasFlag(buf[TCP_FLAGS_P], ACK) {
        infoDataLen' := TcpDataLen(buf[..]);
        if infoDataLen' > 0 {
          var start := TcpDataStart(buf[..]);
          if start <= plen - 8 {
            pos := start;
          }
        } else if HasFlag(buf[TCP_FLAGS_P], FIN) {
          MakeTcpAckFromAny(buf, 0, 0, mymac, myip);
        }
      }
    }
  }
}
