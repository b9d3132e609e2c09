/** The multi-packet web reply: one acknowledgement, then data segments numbered by `seqNumber` (tcpip.cpp). */
module HttpReply {
  import opened Bytes
  import opened Packet
  import opened TcpSegment

  function TotalLength(chunks: seq<seq<byte>>): nat {
    if chunks == [] then 0 else TotalLength(chunks[..|chunks| - 1]) + |chunks[|chunks| - 1]|
  }

  /** Two frames between the same ends of a connection, with the same acknowledgement and header length. */
  ghost predicate SameEnds(f: seq<byte>, a: seq<byte>) {
    && |f| >= TCP_DATA_P && |a| >= TCP_DATA_P
    && forall i :: 0 <= i < 47 && (i < 16 || i == 23 || 26 <= i < 38 || 42 <= i) ==> f[i] == a[i]
  }

  /** A frame on the wire: its data, length, sequence number and flags, with both checksums right. */
  ghost predicate Carries(frame: seq<byte>, data: seq<byte>, number: int, flags: byte) {
    && |frame| == TCP_DATA_P + |data| && frame[TCP_DATA_P..] == data
    && 256 * (frame[16] as int) + frame[17] as int == 40 + |data|
    && Field32(frame, TCP_SEQ_H_P) == number % TWO32 && frame[TCP_FLAGS_P] == flags
    && IpOk(frame) && TcpOk(frame, |data|)
  }

  lemma SameEndsOn(f: seq<byte>, b: seq<byte>, a: seq<byte>)
    ensures SameEnds(f, b) && SameEnds(b, a) ==> SameEnds(f, a)
    ensures |b| >= TCP_DATA_P ==> SameEnds(b, b)
    ensures SameEnds(f, b) && |b| >= TCP_DATA_P && a == b[..TCP_DATA_P] ==> SameEnds(f, a)
  {
  }

  lemma FrameOf(b: seq<byte>, data: seq<byte>)
    requires TCP_DATA_P + |data| <= |b| && b[TCP_DATA_P..TCP_DATA_P + |data|] == data
    requires IpOk(b) && TcpOk(b, |data|) && 256 * (b[16] as int) + b[17] as int == 40 + |data|
    ensures Carries(b[..TCP_DATA_P + |data|], data, Field32(b, TCP_SEQ_H_P), b[TCP_FLAGS_P])
  {
    var f := b[..TCP_DATA_P + |data|];
    assert f[IP_P..IP_P + 20] == b[IP_P..IP_P + 20];
    assert f[IP_SRC_P..TCP_DATA_P + |data|] == b[IP_SRC_P..TCP_DATA_P + |data|];
  }

  /** The segments of a reply: chunk `k` starts where the chunks before it end. */
  ghost predicate Stream(segments: seq<seq<byte>>, chunks: seq<seq<byte>>, flags: seq<byte>, first: int) {
    && |segments| == |chunks| == |flags|
    && forall k :: 0 <= k < |chunks| ==> Carries(segments[k], chunks[k], first + TotalLength(chunks[..k]), flags[k])
  }

  lemma TotalSnoc(chunks: seq<seq<byte>>, k: nat)
    requires k < |chunks|
    ensures TotalLength(chunks[..k + 1]) == TotalLength(chunks[..k]) + |chunks[k]|
  {
    assert chunks[..k + 1][..k] == chunks[..k];
  }

  /** Sequence numbers count modulo 2^32. */
  lemma CarriesModulo(frame: seq<byte>, data: seq<byte>, number: int, n: int, flags: byte)
    requires Carries(frame, data, number, flags) && number == n % TWO32
    ensures Carries(frame, data, n, flags)
  {
    hide IpOk;
    hide TcpOk;
  }

  lemma StreamSnoc(segments: seq<seq<byte>>, chunks: seq<seq<byte>>, flags: seq<byte>, first: int, k: nat,
                   frame: seq<byte>, number: int)
    requires k < |chunks| == |flags| && Stream(segments, chunks[..k], flags[..k], first)
    requires number == (first + TotalLength(chunks[..k])) % TWO32 && Carries(frame, chunks[k], number, flags[k])
    ensures Stream(segments + [frame], chunks[..k + 1], flags[..k + 1], first)
    ensures TotalLength(chunks[..k + 1]) == TotalLength(chunks[..k]) + |chunks[k]|
  {
    hide Carries;
    hide TotalLength;
    TotalSnoc(chunks, k);
    CarriesModulo(frame, chunks[k], number, first + TotalLength(chunks[..k]), flags[k]);
    var (ss, cs, fs) := (segments + [frame], chunks[..k + 1], flags[..k + 1]);
    forall l | 0 <= l < |cs| ensures Carries(ss[l], cs[l], first + TotalLength(cs[..l]), fs[l]) {
      assert cs[..l] == chunks[..l];
      if l < k { assert chunks[..k][..l] == chunks[..l] && chunks[..k][l] == cs[l] && flags[..k][l] == fs[l]; }
    }
  }

  /** No gap and no overlap: every segment starts where the one before it ended. */
  lemma StreamContiguous(segments: seq<seq<byte>>, chunks: seq<seq<byte>>, flags: seq<byte>, first: int, k: nat)
    requires Stream(segments, chunks, flags, first) && k + 1 < |chunks|
    ensures |segments[k]| >= TCP_DATA_P && |segments[k + 1]| >= TCP_DATA_P
    ensures Field32(segments[k + 1], TCP_SEQ_H_P) == (Field32(segments[k], TCP_SEQ_H_P) + |segments[k]| - TCP_DATA_P) % TWO32
  {
    hide IpOk;
    hide TcpOk;
    assert chunks[..k + 1][..k] == chunks[..k];
    assert Carries(segments[k], chunks[k], first + TotalLength(chunks[..k]), flags[k]);
    assert Carries(segments[k + 1], chunks[k + 1], first + TotalLength(chunks[..k + 1]), flags[k + 1]);
    AddAround(first + TotalLength(chunks[..k]), |chunks[k]|);
  }

  lemma AddAround(a: int, b: int)
    ensures (a % TWO32 + b) % TWO32 == (a + b) % TWO32
  {
  }

  lemma BytesOf(n: u32)
    ensures n / 0x100_0000 < 0x100
    ensures ((n / 0x100_0000 * 256 + n / 0x1_0000 % 0x100) * 256 + n / 0x100 % 0x100) * 256 + n % 0x100 == n
  {
    var (a, b) := (n / 0x100, n / 0x1_0000);
    assert n == a * 0x100 + n % 0x100 && a == b * 0x100 + a % 0x100 && b / 0x100 == n / 0x100_0000;
  }

  /** A bare acknowledgement on the wire, of `count` bytes of the segment `o`. */
  ghost predicate AckFrame(frame: seq<byte>, o: seq<byte>, count: u16, mymac: seq<byte>, myip: seq<byte>)
    requires |o| >= TCP_DATA_P
  {
    |frame| == TCP_DATA_P && Acknowledges(frame, o[..TCP_DATA_P], count, 0, mymac, myip)
  }

  lemma AckFrameOf(b: seq<byte>, o: seq<byte>, count: u16, mymac: seq<byte>, myip: seq<byte>)
    requires |b| == |o| >= TCP_DATA_P && Acknowledges(b, o, count, 0, mymac, myip)
    ensures AckFrame(b[..TCP_DATA_P], o, count, mymac, myip)
  {
    var (f, p) := (b[..TCP_DATA_P], o[..TCP_DATA_P]);
    assert f[IP_P..IP_P + 20] == b[IP_P..IP_P + 20];
    assert f[IP_SRC_P..TCP_DATA_P] == b[IP_SRC_P..TCP_DATA_P];
    assert f[..6] == b[..6] && f[6..12] == b[6..12] && f[26..30] == b[26..30] && f[30..34] == b[30..34];
    assert f[34..36] == b[34..36] && f[36..38] == b[36..38] && p[34..36] == o[34..36] && p[36..38] == o[36..38];
    assert p[6..12] == o[6..12] && p[26..30] == o[26..30] && f[12..16] == b[12..16] && p[12..16] == o[12..16];
  }

  /** The acknowledgement of a request of `len > 0` bytes counts exactly these, unless a carry is lost. */
  lemma RequestCovered(frame: seq<byte>, o: seq<byte>, len: u16, mymac: seq<byte>, myip: seq<byte>)
    requires |o| >= TCP_DATA_P && len > 0 && AckFrame(frame, o, AckCount(len, 0), mymac, myip)
    ensures Field32(frame, TCP_SEQACK_H_P) == (Field32(o, TCP_SEQ_H_P) + len) % TWO32
            <==> Field32(o, TCP_SEQ_H_P) % 256 + len < 0x1_0000
  {
    SteppedIff(Field32(o, TCP_SEQ_H_P), len);
    assert Field32(o[..TCP_DATA_P], TCP_SEQ_H_P) == Field32(o, TCP_SEQ_H_P);
  }

  /** The web server's statics. */
  class HttpServer {
    const buf: array<byte>
    var infoDataLen: u16
    var seqNumber: u32
    ghost var sent: seq<seq<byte>>

    ghost predicate Ready() { buf.Length >= TCP_DATA_P && this as object != buf }

    constructor (b: array<byte>)
      requires b.Length >= TCP_DATA_P
      ensures Ready() && buf == b && sent == []
    {
      buf := b;
      infoDataLen, seqNumber, sent := 0, 0, [];
    }

    /** `httpServerReplyAck`: acknowledge the request and remember where our own stream stands. */
    method HttpServerReplyAck(mymac: seq<byte>, myip: seq<byte>)
      requires Ready() && |mymac| == 6 && |myip| == 4
      modifies this, buf
      ensures seqNumber == old(Field32(buf[..], TCP_SEQACK_H_P)) && infoDataLen == old(infoDataLen)
      ensures Acknowledges(buf[..], old(buf[..]), AckCount(infoDataLen, 0), 0, mymac, myip)
      ensures sent == old(sent) + [buf[..TCP_DATA_P]]
      ensures AckFrame(buf[..TCP_DATA_P], old(buf[..]), AckCount(infoDataLen, 0), mymac, myip)
    {
      hide Acknowledges;
      MakeTcpAckFromAny(buf, infoDataLen, 0, mymac, myip);
      ghost var b := buf[..];
      AcksNext(b, old(buf[..]), AckCount(infoDataLen, 0), mymac, myip);
      AckFrameOf(b, old(buf[..]), AckCount(infoDataLen, 0), mymac, myip);
      assert b[..TCP_DATA_P] == buf[..TCP_DATA_P];
      sent := sent + [buf[..TCP_DATA_P]];
      seqNumber := ((buf[TCP_SEQ_H_P] as int * 256 + buf[TCP_SEQ_H_P + 1] as int) * 256 + buf[TCP_SEQ_H_P + 2] as int) * 256
             + buf[TCP_SEQ_H_P + 3] as int;
    }

    lemma AcksNext(b: seq<byte>, o: seq<byte>, count: u16, mac: seq<byte>, ip: seq<byte>)
      requires |b| == |o| >= TCP_DATA_P && Acknowledges(b, o, count, 0, mac, ip)
      ensures Field32(b, TCP_SEQ_H_P) == Field32(o, TCP_SEQACK_H_P)
    {
    }

    /** `set_seq`. */
    method SetSeq()
      requires Ready()
      modifies buf
      ensures Field32(buf[..], TCP_SEQ_H_P) == seqNumber
      ensures forall i :: 0 <= i < buf.Length && !(TCP_SEQ_H_P <= i < TCP_SEQACK_H_P) ==> buf[i] == old(buf[i])
    {
      BytesOf(seqNumber);
      buf[TCP_SEQ_H_P] := seqNumber / 0x100_0000;
      buf[TCP_SEQ_H_P + 1] := seqNumber / 0x1_0000 % 0x100;
      buf[TCP_SEQ_H_P + 2] := seqNumber / 0x100 % 0x100;
      buf[TCP_SEQ_H_P + 3] := seqNumber % 0x100;
    }

    /** `httpServerReply_with_flags` on data the application has just put behind the header. */
    method HttpServerReplyWithFlags(data: seq<byte>, flags: byte)
      requires Ready() && TCP_DATA_P + |data| <= buf.Length && 40 + |data| < 0x1_0000
      modifies this, buf
      ensures |sent| == |old(sent)| + 1 && sent[..|old(sent)|] == old(sent)
      ensures Carries(sent[|old(sent)|], data, old(seqNumber), flags)
      ensures SameEnds(sent[|old(sent)|], old(buf[..])) && SameEnds(buf[..], old(buf[..]))
      ensures seqNumber == (old(seqNumber) + |data|) % TWO32
    {
      hide IpOk;
      hide TcpOk;
      forall i | 0 <= i < |data| { buf[TCP_DATA_P + i] := data[i]; }
      assert buf[TCP_DATA_P..TCP_DATA_P + |data|] == data;
      SetSeq();
      buf[TCP_FLAGS_P] := flags;
      ghost var b := buf[..];
      MakeTcpAckWithDataNoflags(buf, |data|);
      FieldFrame(b, buf[..]);
      assert buf[TCP_DATA_P..TCP_DATA_P + |data|] == data;
      FrameOf(buf[..], data);
      sent := sent + [buf[..TCP_DATA_P + |data|]];
      seqNumber := (seqNumber + |data|) % TWO32;
    }

    /** A whole reply to the segment in the buffer: the acknowledgement of the length last seen, then data
        from the number its sender expects next. */
    method Respond(mymac: seq<byte>, myip: seq<byte>, chunks: seq<seq<byte>>, flags: seq<byte>)
      returns (ghost segments: seq<seq<byte>>)
      requires Ready() && |flags| == |chunks| && |mymac| == 6 && |myip| == 4
      requires forall k :: 0 <= k < |chunks| ==> TCP_DATA_P + |chunks[k]| <= buf.Length && 40 + |chunks[k]| < 0x1_0000
      modifies this, buf
      ensures |sent| == |old(sent)| + 1 + |chunks| && sent == old(sent) + [sent[|old(sent)|]] + segments
      ensures AckFrame(sent[|old(sent)|], old(buf[..]), AckCount(old(infoDataLen), 0), mymac, myip)
      ensures Stream(segments, chunks, flags, old(Field32(buf[..], TCP_SEQACK_H_P)))
      ensures forall k :: 0 <= k < |segments| ==> SameEnds(segments[k], sent[|old(sent)|])
      ensures seqNumber == (old(Field32(buf[..], TCP_SEQACK_H_P)) + TotalLength(chunks)) % TWO32
    {
      hide Carries;
      hide Stream;
      hide Acknowledges;
      hide AckFrame;
      hide SameEnds;
      ghost var first := Field32(buf[..], TCP_SEQACK_H_P);
      HttpServerReplyAck(mymac, myip);
      ghost var (start, ack) := (sent, buf[..]);
      SameEndsOn(ack, ack, ack);
      segments := [];
      NoStream(first);
      for k := 0 to |chunks|
        invariant sent == start + segments && |segments| == k
        invariant SameEnds(buf[..], ack) && forall l :: 0 <= l < k ==> SameEnds(segments[l], ack)
        invariant Stream(segments, chunks[..k], flags[..k], first)
        invariant seqNumber == (first + TotalLength(chunks[..k])) % TWO32
      {
        ghost var (before, number) := (sent, seqNumber);
        ghost var last := buf[..];
        HttpServerReplyWithFlags(chunks[k], flags[k]);
        ghost var frame := sent[|before|];
        SameEndsOn(frame, last, ack);
        SameEndsOn(buf[..], last, ack);
        StreamSnoc(segments, chunks, flags, first, k, frame, number);
        AddAround(first + TotalLength(chunks[..k]), |chunks[k]|);
        assert sent == before + [frame];
        segments := segments + [frame];
      }
      assert chunks[..|chunks|] == chunks && flags[..|chunks|] == flags;
      forall k | 0 <= k < |segments| ensures SameEnds(segments[k], ack[..TCP_DATA_P]) {
        SameEndsOn(segments[k], ack, ack[..TCP_DATA_P]);
      }
    }

    lemma NoStream(first: int)
      ensures Stream([], [], [], first)
    {
    }
  }
}
