/** Building TCP segments by rewriting the received one (tcpip.cpp), with the sequence arithmetic of
    sections 3.3 and 3.4 of RFC 793. */
module TcpSegment {
  import opened Bytes
  import opened Checksum
  import opened Packet

  const TWO32 := 0x1_0000_0000

  /** The acknowledgement number `step_seq` leaves: the 16-bit `rel` loses its carry when the lowest
      byte already overflows 16 bits. */
  function Stepped(number: u32, rel: u16): u32 {
    if number % 256 + rel < 0x1_0000 then (number + rel) % TWO32 else (number + rel - 0x1_0000) % TWO32
  }

  /** The acknowledgement is sequence number plus `rel` modulo 2^32 exactly when `rel` plus the lowest
      byte fits 16 bits; up to 0xFF00 it always does. */
  lemma SteppedIff(number: u32, rel: u16)
    ensures Stepped(number, rel) == (number + rel) % TWO32 <==> number % 256 + rel < 0x1_0000
    ensures rel <= 0xFF00 ==> Stepped(number, rel) == (number + rel) % TWO32
  {
    if number % 256 + rel >= 0x1_0000 {
      var n := number + rel;
      if n < TWO32 {
        assert n % TWO32 == n;
      } else {
        assert (n - 0x1_0000) % TWO32 == n - 0x1_0000 && n % TWO32 == n - TWO32;
      }
    }
  }

  /** The value of the bytes `i .. 4` of the field at `p`. */
  function Low(b: seq<byte>, p: nat, i: nat): nat
    requires i <= 4 && p + 4 <= |b|
  {
    (if i < 4 then b[p + 3] as int else 0) + (if i < 3 then b[p + 2] as int * 0x100 else 0)
    + (if i < 2 then b[p + 1] as int * 0x1_0000 else 0) + (if i < 1 then b[p] as int * 0x100_0000 else 0)
  }

  function Weight(i: nat): nat
    requires i <= 4
  {
    if i == 4 then 1 else if i == 3 then 0x100 else if i == 2 then 0x1_0000 else if i == 1 then 0x100_0000 else TWO32
  }

  /** The carry dropped in the first round. */
  function Lost(low: byte, rel: u16, i: nat): nat { if i < 4 && low + rel >= 0x1_0000 then 0x1_0000 else 0 }

  /** Before round `3 - i`: the bytes done and the carry make up the sum so far. */
  predicate SumSoFar(b: seq<byte>, o: seq<byte>, i: nat, rel: u16, rel0: u16)
    requires i <= 4 && |b| == |o| >= TCP_DATA_P
  {
    && (i == 4 ==> rel == rel0) && (i < 4 ==> rel < 0x100)
    && Low(b, TCP_SEQACK_H_P, i) + rel * Weight(i) == Low(o, TCP_SEQ_H_P, i) + rel0 - Lost(o[41], rel0, i)
  }

  lemma SumStart(b: seq<byte>, rel0: u16)
    requires |b| >= TCP_DATA_P
    ensures SumSoFar(b, b, 4, rel0, rel0)
  {
  }

  lemma LowByteOf(high: int, low: int)
    requires 0 <= low < 0x100
    ensures (high * 0x100 + low) % 0x100 == low
  {
  }

  lemma FieldIsLow(b: seq<byte>, p: nat)
    requires p + 4 <= |b|
    ensures Low(b, p, 0) == Field32(b, p) && Field32(b, p) % 0x100 == b[p + 3]
  {
    LowByteOf((b[p] as int * 256 + b[p + 1] as int) * 256 + b[p + 2] as int, b[p + 3]);
  }

  lemma SumDone(b: seq<byte>, o: seq<byte>, rel: u16, rel0: u16)
    requires |b| == |o| >= TCP_DATA_P && SumSoFar(b, o, 0, rel, rel0)
    ensures Field32(b, TCP_SEQACK_H_P) == Stepped(Field32(o, TCP_SEQ_H_P), rel0)
  {
    hide Field32;
    hide Low;
    FieldIsLow(b, TCP_SEQACK_H_P);
    FieldIsLow(o, TCP_SEQ_H_P);
    var (x, n) := (Field32(b, TCP_SEQACK_H_P), Field32(o, TCP_SEQ_H_P));
    ModuloIs(x, rel, n + rel0 - Lost(o[41], rel0, 0));
  }

  lemma ModuloIs(x: u32, q: int, n: int)
    requires n == x + q * TWO32
    ensures n % TWO32 == x
  {
  }

  /** A 17-bit sum in 16 bits, as two bytes. */
  lemma Halves(n: int)
    requires 0 <= n < 0x2_0000
    ensures var m := n % 0x1_0000; m == (if n < 0x1_0000 then n else n - 0x1_0000) && m == 0x100 * (m / 0x100) + m % 0x100
  {
  }

  /** Only the first column, whose weight is 1, can drop a carry. */
  lemma Dropped(low: byte, rel0: u16, x: byte, r: u16, i: nat)
    requires i < 4 && (i == 3 ==> r == rel0 && x == low) && (i < 3 ==> r < 0x100)
    ensures var (n, w) := (x as int + r, Weight(i + 1));
            var drop := n - n % 0x1_0000;
            Lost(low, rel0, i) == Lost(low, rel0, i + 1) + drop * w && Weight(i) == 0x100 * w
  {
    Halves(x as int + r);
  }

  lemma SumStep(b: seq<byte>, c: seq<byte>, o: seq<byte>, i: nat, r: u16, r': u16, rel0: u16)
    requires i < 4 && |b| == |c| == |o| >= TCP_DATA_P && SumSoFar(b, o, i + 1, r, rel0)
    requires r' == (o[TCP_SEQ_H_P + i] as int + r) % 0x1_0000 / 0x100
    requires c[TCP_SEQACK_H_P + i] == (o[TCP_SEQ_H_P + i] as int + r) % 0x1_0000 % 0x100
    requires forall k :: TCP_SEQACK_H_P + i < k < 46 ==> c[k] == b[k]
    ensures SumSoFar(c, o, i, r', rel0)
  {
    hide Low;
    hide Weight;
    hide Lost;
    var (x, low, w) := (o[TCP_SEQ_H_P + i], c[TCP_SEQACK_H_P + i], Weight(i + 1));
    var n := x as int + r;
    Halves(n);
    Dropped(o[41], rel0, x, r, i);
    LowGrows(b, c, TCP_SEQACK_H_P, i);
    LowGrows(o, o, TCP_SEQ_H_P, i);
    CarryInto(x, r, n - n % 0x1_0000, r', low, w);
    assert r' < 0x100 by { ByteAbove(n % 0x1_0000); }
  }

  lemma ByteAbove(m: int)
    requires 0 <= m < 0x1_0000
    ensures 0 <= m / 0x100 < 0x100
  {
  }

  /** One column of the addition, scaled by its weight. */
  lemma CarryInto(x: int, r: int, drop: int, r': int, low: int, w: int)
    requires x + r - drop == 0x100 * r' + low
    ensures low * w + r' * (0x100 * w) == x * w + r * w - drop * w
  {
    calc {
      low * w + r' * (0x100 * w);
      (0x100 * r' + low) * w;
      (x + r - drop) * w;
      x * w + r * w - drop * w;
    }
  }

  lemma LowGrows(b: seq<byte>, c: seq<byte>, p: nat, i: nat)
    requires i < 4 && |b| == |c| >= p + 4 && forall k :: p + i < k < p + 4 ==> c[k] == b[k]
    ensures Low(c, p, i) == Low(b, p, i + 1) + c[p + i] as int * Weight(i + 1)
  {
  }

  method StepSeq(buf: array<byte>, rel0: u16, copySeq: bool)
    requires buf.Length >= TCP_DATA_P
    modifies buf
    ensures Field32(buf[..], TCP_SEQACK_H_P) == Stepped(old(Field32(buf[..], TCP_SEQ_H_P)), rel0)
    ensures Field32(buf[..], TCP_SEQ_H_P) == if copySeq then old(Field32(buf[..], TCP_SEQACK_H_P)) else 0
    ensures forall i :: 0 <= i < buf.Length && !(TCP_SEQ_H_P <= i < 46) ==> buf[i] == old(buf[i])
  {
    hide SumSoFar;
    ghost var o := buf[..];
    var rel: u16 := rel0;
    var i := 4;
    SumStart(o, rel0);
    while i > 0
      invariant 0 <= i <= 4 && SumSoFar(buf[..], o, i, rel, rel0)
      invariant forall k :: 0 <= k < buf.Length && (k < 38 + i || 42 <= k < 42 + i || 46 <= k) ==> buf[k] == o[k]
      invariant forall k :: 38 + i <= k < 42 ==> buf[k] == if copySeq then o[k + 4] else 0
    {
      ghost var (before, r) := (buf[..], rel);
      rel := (buf[TCP_SEQ_H_P + i - 1] as int + rel) % 0x1_0000;
      var tseq := buf[TCP_SEQACK_H_P + i - 1];
      buf[TCP_SEQACK_H_P + i - 1] := rel % 0x100;
      buf[TCP_SEQ_H_P + i - 1] := if copySeq then tseq else 0;
      rel := rel / 0x100;
      i := i - 1;
      SumStep(before, buf[..], o, i, r, rel, rel0);
    }
    SumDone(buf[..], o, rel, rel0);
  }

  method MakeTcphead(buf: array<byte>, rel: u16, copySeq: bool)
    requires buf.Length >= TCP_DATA_P
    modifies buf
    ensures Field32(buf[..], TCP_SEQACK_H_P) == Stepped(old(Field32(buf[..], TCP_SEQ_H_P)), rel)
    ensures Field32(buf[..], TCP_SEQ_H_P) == if copySeq then old(Field32(buf[..], TCP_SEQACK_H_P)) else 0
    ensures buf[34] == old(buf[36]) && buf[35] == old(buf[37]) && buf[36] == old(buf[34]) && buf[37] == old(buf[35])
    ensures buf[TCP_CHECKSUM_H_P] == 0 && buf[TCP_CHECKSUM_L_P] == 0 && buf[TCP_HEADER_LEN_P] == 0x50
    ensures forall i :: 0 <= i < buf.Length && (i < 34 || i == TCP_FLAGS_P || 48 <= i < 50 || 52 <= i) ==>
              buf[i] == old(buf[i])
  {
    var i := buf[TCP_DST_PORT_H_P];
    buf[TCP_DST_PORT_H_P] := buf[TCP_SRC_PORT_H_P];
    buf[TCP_SRC_PORT_H_P] := i;
    var j := buf[TCP_DST_PORT_L_P];
    buf[TCP_DST_PORT_L_P] := buf[TCP_SRC_PORT_L_P];
    buf[TCP_SRC_PORT_L_P] := j;
    StepSeq(buf, rel, copySeq);
    buf[TCP_CHECKSUM_H_P] := 0;
    buf[TCP_CHECKSUM_L_P] := 0;
    buf[TCP_HEADER_LEN_P] := 0x50;
  }

  // ---- what a received segment says

  predicate HasFlag(flags: byte, bit: byte)
    requires bit > 0
  {
    flags / bit % 2 == 1
  }

  function Signed16(n: int): int { (n + 0x8000) % 0x1_0000 - 0x8000 }

  /** `get_tcp_data_len`, in signed 16-bit arithmetic. */
  function TcpDataLen(b: seq<byte>): u16
    requires |b| >= TCP_DATA_P
  {
    var total := Signed16(b[IP_TOTLEN_H_P] as int * 256 + b[IP_TOTLEN_L_P] as int);
    var i := Signed16(Signed16(total - 20) - b[TCP_HEADER_LEN_P] / 16 * 4);
    if i <= 0 then 0 else i
  }

  function TcpDataStart(b: seq<byte>): u16
    requires |b| >= TCP_DATA_P
  {
    TCP_SRC_PORT_H_P + b[TCP_HEADER_LEN_P] / 16 * 4
  }

  /** How many data bytes the lengths of a frame leave: the IP total length (bytes 16 and 17) less 20 bytes of
      IP header and the TCP header's length (four times the high half of byte 46). */
  function Remaining(b: seq<byte>): int
    requires |b| >= 54
  {
    256 * (b[16] as int) + b[17] as int - (20 + 4 * (b[46] as int / 16))
  }

  lemma Wraps(n: int)
    requires -0x1_8000 <= n < 0x1_8000
    ensures Signed16(n) == if n < -0x8000 then n + 0x1_0000 else if n < 0x8000 then n else n - 0x1_0000
  {
    var m := n + 0x8000;
    assert m % 0x1_0000 == if m < 0 then m + 0x1_0000 else if m < 0x1_0000 then m else m - 0x1_0000;
  }

  /** The data length is what the lengths leave, and 0 if they leave less than nothing or more than a signed
      16-bit number holds; the data start behind the TCP header. */
  lemma DataLengthIs(b: seq<byte>)
    requires |b| >= 54
    ensures TcpDataLen(b) == if 0 <= Remaining(b) < 0x8000 then Remaining(b) else 0
    ensures TcpDataStart(b) == 34 + 4 * (b[46] as int / 16)
    ensures TcpDataLen(b) == 0 <==> Remaining(b) <= 0 || Remaining(b) >= 0x8000
  {
    hide Signed16;
    var (total, header) := (b[16] as int * 256 + b[17] as int, b[46] / 16 * 4);
    Wraps(total);
    Wraps(Signed16(total) - 20);
    Wraps(Signed16(Signed16(total) - 20) - header);
  }

  lemma SynBit(f: byte)
    ensures f / 2 % 2 == 1 <==> f % 4 >= 2
  {
    assert f == 4 * (f / 4) + f % 4 && f / 2 == 2 * (f / 4) + f % 4 / 2;
  }

  lemma RstBit(f: byte)
    ensures f / 4 % 2 == 1 <==> f % 8 >= 4
  {
    assert f == 8 * (f / 8) + f % 8 && f / 4 == 2 * (f / 8) + f % 8 / 4;
  }

  lemma PshBit(f: byte)
    ensures f / 8 % 2 == 1 <==> f % 16 >= 8
  {
    assert f == 16 * (f / 16) + f % 16 && f / 8 == 2 * (f / 16) + f % 16 / 8;
  }

  lemma AckBit(f: byte)
    ensures f / 16 % 2 == 1 <==> f % 32 >= 16
  {
    assert f == 32 * (f / 32) + f % 32 && f / 16 == 2 * (f / 32) + f % 32 / 16;
  }

  /** Bits 0, 1, 2, 3 and 4 of the flag byte are FIN, SYN, RST, PSH and ACK. */
  lemma FlagBits(f: byte)
    ensures HasFlag(f, FIN) <==> f % 2 == 1
    ensures HasFlag(f, SYN) <==> f % 4 >= 2
    ensures HasFlag(f, RST) <==> f % 8 >= 4
    ensures HasFlag(f, PUSH) <==> f % 16 >= 8
    ensures HasFlag(f, ACK) <==> f % 32 >= 16
  {
    SynBit(f);
    RstBit(f);
    PshBit(f);
    AckBit(f);
  }

  /** A segment built with a plain header reads back with the length it was built for. */
  lemma BuiltLength(b: seq<byte>, dlen: nat)
    requires |b| >= 54 && 256 * (b[16] as int) + b[17] as int == 40 + dlen && b[46] == 0x50
    ensures TcpDataStart(b) == 54 && TcpDataLen(b) == if dlen < 0x8000 then dlen else 0
  {
    DataLengthIs(b);
  }

  /** A bare acknowledgement carries no data. */
  lemma AckIsEmpty(b: seq<byte>, o: seq<byte>, count: u16, addflags: byte, mymac: seq<byte>, myip: seq<byte>)
    requires |b| == |o| >= TCP_DATA_P && addflags < ACK && Acknowledges(b, o, count, addflags, mymac, myip)
    ensures TcpDataLen(b) == 0 && TcpDataStart(b) == 54
    ensures b[47] == 16 + addflags && 256 * (b[48] as int) + b[49] as int == 1024
  {
    BuiltLength(b, 0);
  }

  /** What a bare acknowledgement acknowledges: at least one sequence number, except with RST. */
  function AckCount(datlentoack: u16, addflags: byte): u16 {
    if addflags != RST && datlentoack == 0 then 1 else datlentoack
  }

  /** `b` acknowledges the segment `o`: sent back to its sender, next in its own stream, both
      checksums right. */
  ghost predicate Acknowledges(b: seq<byte>, o: seq<byte>, count: u16, addflags: byte, mymac: seq<byte>, myip: seq<byte>)
    requires |b| == |o| >= TCP_DATA_P && addflags < ACK
  {
    && IpOk(b) && TcpOk(b, 0)
    && Field32(b, TCP_SEQ_H_P) == Field32(o, TCP_SEQACK_H_P)
    && Field32(b, TCP_SEQACK_H_P) == Stepped(Field32(o, TCP_SEQ_H_P), count)
    && b[34..36] == o[36..38] && b[36..38] == o[34..36]
    && b[TCP_FLAGS_P] == ACK + addflags && b[TCP_HEADER_LEN_P] == 0x50
    && b[IP_TOTLEN_H_P] == 0 && b[IP_TOTLEN_L_P] == 40 && b[TCP_WIN_SIZE] == 4 && b[TCP_WIN_SIZE + 1] == 0
    && b[..6] == o[6..12] && b[6..12] == mymac && b[12..16] == o[12..16] && b[IP_PROTO_P] == o[IP_PROTO_P]
    && b[IP_SRC_P..IP_DST_P] == myip && b[IP_DST_P..34] == o[IP_SRC_P..IP_DST_P]
    && b[TCP_DATA_P..] == o[TCP_DATA_P..]
  }

  lemma TcpRegion(c: seq<byte>, dlen: u16)
    requires TCP_DATA_P + dlen <= |c| && 28 + dlen < 0x1_0000
    requires Verifies(Pseudo(TCP, 28 + dlen), c[IP_SRC_P..IP_SRC_P + (28 + dlen)])
    ensures TcpOk(c, dlen)
  {
  }

  /** The last step of every segment: the checksum, over a zeroed field. */
  method FillTcpChecksum(buf: array<byte>, dlen: u16)
    requires TCP_DATA_P + dlen <= buf.Length && 28 + dlen < 0x1_0000
    requires IpOk(buf[..]) && buf[TCP_CHECKSUM_H_P] == 0 && buf[TCP_CHECKSUM_L_P] == 0
    modifies buf
    ensures IpOk(buf[..]) && TcpOk(buf[..], dlen)
    ensures forall i :: 0 <= i < buf.Length && i != TCP_CHECKSUM_H_P && i != TCP_CHECKSUM_L_P ==> buf[i] == old(buf[i])
  {
    hide IpOk;
    hide TcpOk;
    hide Verifies;
    hide Complement;
    ghost var b := buf[..];
    assert b[IP_SRC_P..IP_SRC_P + (28 + dlen)] == buf[IP_SRC_P..IP_SRC_P + (28 + dlen)];
    FillChecksum(buf, TCP_CHECKSUM_H_P, IP_SRC_P, 28 + dlen, TCP);
    RegionVerifies(b, buf[..], TCP_CHECKSUM_H_P, IP_SRC_P, 28 + dlen, TCP);
    TcpRegion(buf[..], dlen);
    KeepsIpOk(b, buf[..]);
  }

  /** The first half of `make_tcp_ack_from_any`: flags, TCP header, length. */
  method AckHead(buf: array<byte>, datlentoack: u16, addflags: byte)
    requires buf.Length >= TCP_DATA_P && addflags < ACK
    modifies buf
    ensures Field32(buf[..], TCP_SEQ_H_P) == old(Field32(buf[..], TCP_SEQACK_H_P))
    ensures Field32(buf[..], TCP_SEQACK_H_P) == Stepped(old(Field32(buf[..], TCP_SEQ_H_P)), AckCount(datlentoack, addflags))
    ensures buf[34] == old(buf[36]) && buf[35] == old(buf[37]) && buf[36] == old(buf[34]) && buf[37] == old(buf[35])
    ensures buf[TCP_FLAGS_P] == ACK + addflags && buf[TCP_HEADER_LEN_P] == 0x50
    ensures buf[IP_TOTLEN_H_P] == 0 && buf[IP_TOTLEN_L_P] == 40
    ensures buf[TCP_CHECKSUM_H_P] == 0 && buf[TCP_CHECKSUM_L_P] == 0
    ensures forall i :: 0 <= i < buf.Length && (i < 16 || 18 <= i < 34 || 52 <= i) ==> buf[i] == old(buf[i])
  {
    hide Stepped;
    hide Field32;
    ghost var o := buf[..];
    buf[TCP_FLAGS_P] := ACK + addflags;
    var count := if addflags != RST && datlentoack == 0 then 1 else datlentoack;
    FieldFrame(o, buf[..]);
    MakeTcphead(buf, count, true);
    ghost var q := buf[..];
    var j := 20 + 20;
    buf[IP_TOTLEN_H_P] := j / 256;
    buf[IP_TOTLEN_L_P] := j % 256;
    FieldFrame(q, buf[..]);
  }

  /** `make_tcp_ack_from_any`: the frame sent is `buf[..54]`. */
  method MakeTcpAckFromAny(buf: array<byte>, datlentoack: u16, addflags: byte, mymac: seq<byte>, myip: seq<byte>)
    requires buf.Length >= TCP_DATA_P && addflags < ACK && |mymac| == 6 && |myip| == 4
    modifies buf
    ensures Acknowledges(buf[..], old(buf[..]), AckCount(datlentoack, addflags), addflags, mymac, myip)
  {
    hide IpOk;
    hide TcpOk;
    hide Stepped;
    hide TurnedAround;
    hide Field32;
    ghost var o := buf[..];
    AckHead(buf, datlentoack, addflags);
    ghost var t := buf[..];
    MakeEthIp(buf, mymac, myip);
    ghost var h := buf[..];
    TurnedBytes(h, t, mymac, myip);
    buf[TCP_WIN_SIZE] := 0x4;
    buf[TCP_WIN_SIZE + 1] := 0;
    KeepsIpOk(h, buf[..]);
    FillTcpChecksum(buf, 0);
    AckAssembled(buf[..], h, t, o, mymac, myip);
    FieldFrame(t, buf[..]);
    assert buf[..][34..36] == o[36..38] && buf[..][36..38] == o[34..36];
  }

  lemma FieldFrame(b: seq<byte>, c: seq<byte>)
    requires |b| == |c| >= TCP_DATA_P && forall k :: TCP_SEQ_H_P <= k < 46 ==> b[k] == c[k]
    ensures Field32(c, TCP_SEQ_H_P) == Field32(b, TCP_SEQ_H_P)
    ensures Field32(c, TCP_SEQACK_H_P) == Field32(b, TCP_SEQACK_H_P)
  {
  }

  lemma TurnedBytes(h: seq<byte>, t: seq<byte>, mymac: seq<byte>, myip: seq<byte>)
    requires |h| == |t| >= TCP_DATA_P && |mymac| == 6 && |myip| == 4 && TurnedAround(h, t, mymac, myip)
    ensures h[16] == t[16] && h[17] == t[17] && forall k :: 34 <= k < |h| ==> h[k] == t[k]
  {
    assert h[16] == h[12..20][4] && t[16] == t[12..20][4] && h[17] == h[12..20][5] && t[17] == t[12..20][5];
    forall k | 34 <= k < |h| ensures h[k] == t[k] {
      assert h[k] == h[34..][k - 34] && t[k] == t[34..][k - 34];
    }
  }

  /** Where the addresses of a frame turned round come from. */
  lemma AddressesKept(b: seq<byte>, h: seq<byte>, t: seq<byte>, o: seq<byte>, mymac: seq<byte>, myip: seq<byte>)
    requires |b| == |h| == |t| == |o| >= TCP_DATA_P && |mymac| == 6 && |myip| == 4 && TurnedAround(h, t, mymac, myip)
    requires forall k :: 0 <= k < 34 ==> b[k] == h[k]
    requires forall k :: 0 <= k < 34 && (k < 16 || 18 <= k) ==> t[k] == o[k]
    ensures b[..6] == o[6..12] && b[6..12] == mymac && b[12..16] == o[12..16] && b[IP_PROTO_P] == o[IP_PROTO_P]
    ensures b[IP_SRC_P..IP_DST_P] == myip && b[IP_DST_P..34] == o[IP_SRC_P..IP_DST_P]
  {
    forall k | 12 <= k < 16 ensures h[k] == t[k] {
      assert h[k] == h[12..20][k - 12] && t[k] == t[12..20][k - 12];
    }
    assert b[12..16] == o[12..16];
    assert b[..6] == h[..6] && b[6..12] == h[6..12] && b[26..30] == h[26..30] && b[30..34] == h[30..34];
    assert t[6..12] == o[6..12] && t[26..30] == o[26..30];
  }

  lemma AckAssembled(b: seq<byte>, h: seq<byte>, t: seq<byte>, o: seq<byte>, mymac: seq<byte>, myip: seq<byte>)
    requires |b| == |h| == |t| == |o| >= TCP_DATA_P && |mymac| == 6 && |myip| == 4 && TurnedAround(h, t, mymac, myip)
    requires forall k :: 0 <= k < |b| && !(48 <= k < 52) ==> b[k] == h[k]
    requires forall k :: 0 <= k < |b| && (k < 16 || 18 <= k < 34 || 54 <= k) ==> t[k] == o[k]
    ensures b[..6] == o[6..12] && b[6..12] == mymac && b[12..16] == o[12..16] && b[IP_PROTO_P] == o[IP_PROTO_P]
    ensures b[IP_SRC_P..IP_DST_P] == myip && b[IP_DST_P..34] == o[IP_SRC_P..IP_DST_P]
    ensures b[TCP_DATA_P..] == o[TCP_DATA_P..]
  {
    TurnedBytes(h, t, mymac, myip);
    AddressesKept(b, h, t, o, mymac, myip);
  }

  /** `make_tcp_ack_with_data_noflags`: lengths and checksums for `dlen` data bytes already in place. */
  method MakeTcpAckWithDataNoflags(buf: array<byte>, dlen: u16)
    requires TCP_DATA_P + dlen <= buf.Length && 40 + dlen < 0x1_0000
    modifies buf
    ensures IpOk(buf[..]) && TcpOk(buf[..], dlen)
    ensures 256 * (buf[IP_TOTLEN_H_P] as int) + buf[IP_TOTLEN_L_P] as int == 40 + dlen
    ensures old(buf[TCP_HEADER_LEN_P]) == 0x50 ==>
              TcpDataStart(buf[..]) == 54 && TcpDataLen(buf[..]) == if dlen < 0x8000 then dlen else 0
    ensures forall i :: 0 <= i < buf.Length && (i < 16 || 18 <= i < 20 || i == 23 || 26 <= i < 50 || 52 <= i) ==>
              buf[i] == old(buf[i])
  {
    hide IpOk;
    hide TcpOk;
    var j := 40 + dlen;
    buf[IP_TOTLEN_H_P] := j / 256;
    buf[IP_TOTLEN_L_P] := j % 256;
    FillIpHdrChecksum(buf);
    ghost var h := buf[..];
    buf[TCP_CHECKSUM_H_P] := 0;
    buf[TCP_CHECKSUM_L_P] := 0;
    KeepsIpOk(h, buf[..]);
    FillTcpChecksum(buf, dlen);
    if buf[TCP_HEADER_LEN_P] == 0x50 { BuiltLength(buf[..], dlen); }
  }
}
