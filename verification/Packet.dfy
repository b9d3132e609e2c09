/** The packet builders that rewrite the shared buffer in place (tcpip.cpp, net.h). `buf` is RAM from
    the first byte of `gPB` on; a frame occupies its start. */
module Packet {
  import opened Bytes
  import opened Checksum

  const ETH_DST_MAC := 0
  const ETH_SRC_MAC := 6
  const ETH_TYPE_H_P := 12
  const ETH_TYPE_L_P := 13
  const IP_P := 14
  const IP_TOTLEN_H_P := 16
  const IP_TOTLEN_L_P := 17
  const IP_FLAGS_P := 20
  const IP_TTL_P := 22
  const IP_PROTO_P := 23
  const IP_CHECKSUM_P := 24
  const IP_SRC_P := 26
  const IP_DST_P := 30
  const ICMP_TYPE_P := 34
  const ICMP_CHECKSUM_P := 36
  const TCP_SRC_PORT_H_P := 34
  const TCP_SRC_PORT_L_P := 35
  const TCP_DST_PORT_H_P := 36
  const TCP_DST_PORT_L_P := 37
  const TCP_SEQ_H_P := 38
  const TCP_SEQACK_H_P := 42
  const TCP_HEADER_LEN_P := 46
  const TCP_FLAGS_P := 47
  const TCP_WIN_SIZE := 48
  const TCP_CHECKSUM_H_P := 50
  const TCP_CHECKSUM_L_P := 51
  const TCP_DATA_P := 54

  const FIN: byte := 1
  const SYN: byte := 2
  const RST: byte := 4
  const PUSH: byte := 8
  const ACK: byte := 0x10

  /** The big-endian 32-bit field at `p`. */
  function Field32(b: seq<byte>, p: nat): u32
    requires p + 4 <= |b|
  {
    ((b[p] as int * 256 + b[p + 1] as int) * 256 + b[p + 2] as int) * 256 + b[p + 3] as int
  }

  /** The IP header checksum verifies. */
  predicate IpOk(b: seq<byte>)
    requires |b| >= 34
  {
    Verifies(0, b[IP_P..IP_P + 20])
  }

  /** The checksum of a TCP segment with `dlen` data bytes and a plain header verifies, over the
      pseudo-header formed by the addresses, the protocol number and the segment length. */
  predicate TcpOk(b: seq<byte>, dlen: nat)
    requires |b| >= TCP_DATA_P + dlen
  {
    Verifies(6 + 20 + dlen, b[IP_SRC_P..TCP_DATA_P + dlen])
  }

  lemma KeepsIpOk(b: seq<byte>, c: seq<byte>)
    requires |b| == |c| >= 34 && IpOk(b) && forall i :: IP_P <= i < 34 ==> c[i] == b[i]
    ensures IpOk(c)
  {
    assert c[IP_P..IP_P + 20] == b[IP_P..IP_P + 20];
  }

  method FillChecksum(buf: array<byte>, dest: byte, off: byte, len: u16, kind: byte)
    requires off + len <= buf.Length && dest + 1 < buf.Length
    modifies buf
    ensures buf[..] == Put16(old(buf[..]), dest, Complement(Pseudo(kind, len), old(buf[off..off + len])))
  {
    ghost var s := buf[off..off + len];
    var ptr: int := off;
    var n: int := len;
    var sum: u32 := Pseudo(kind, len);
    SumFits(s);
    ghost var total := sum + WordSum(s);
    while n > 1
      invariant 0 <= n <= len && ptr == off + len - n
      invariant sum + WordSum(buf[ptr..off + len]) == total < 0x1_0000_0000
    {
      assert buf[ptr..off + len][2..] == buf[ptr + 2..off + len];
      sum := sum + 256 * (buf[ptr] as int) + buf[ptr + 1] as int;
      ptr := ptr + 2;
      n := n - 2;
    }
    if n > 0 {
      sum := sum + 256 * (buf[ptr] as int);
    }
    assert sum == total;
    while sum / 0x1_0000 > 0
      invariant Fold(sum) == Fold(total)
      decreases sum
    {
      sum := sum % 0x1_0000 + sum / 0x1_0000;
    }
    var ck := 0xFFFF - sum;
    buf[dest] := ck / 256;
    buf[dest + 1] := ck % 256;
  }

  /** The region `off .. off + len` of a buffer verifies after `FillChecksum` on a zeroed field in it. */
  lemma RegionVerifies(b: seq<byte>, c: seq<byte>, dest: byte, off: byte, len: u16, kind: byte)
    requires off + len <= |b| && off <= dest && dest + 1 < off + len && (dest - off) % 2 == 0
    requires b[dest] == 0 && b[dest + 1] == 0
    requires c == Put16(b, dest, Complement(Pseudo(kind, len), b[off..off + len]))
    ensures Verifies(Pseudo(kind, len), c[off..off + len])
  {
    var s := b[off..off + len];
    FilledVerifies(Pseudo(kind, len), s, dest - off);
    assert c[off..off + len] == Put16(s, dest - off, Complement(Pseudo(kind, len), s));
  }

  method CopyMac(buf: array<byte>, p: nat, mac: seq<byte>)
    requires p + 6 <= buf.Length && |mac| == 6
    modifies buf
    ensures forall i :: 0 <= i < buf.Length ==> buf[i] == if p <= i < p + 6 then mac[i - p] else old(buf[i])
  {
    forall i | 0 <= i < 6 { buf[p + i] := mac[i]; }
  }

  method CopyIp(buf: array<byte>, p: nat, ip: seq<byte>)
    requires p + 4 <= buf.Length && |ip| == 4
    modifies buf
    ensures forall i :: 0 <= i < buf.Length ==> buf[i] == if p <= i < p + 4 then ip[i - p] else old(buf[i])
  {
    forall i | 0 <= i < 4 { buf[p + i] := ip[i]; }
  }

  /** `setMACandIPs`. */
  method SetMacAndIps(buf: array<byte>, mymac: seq<byte>, myip: seq<byte>, mac: seq<byte>, ip: seq<byte>)
    requires buf.Length >= 34 && |mymac| == |mac| == 6 && |myip| == |ip| == 4
    modifies buf
    ensures buf[..6] == mac && buf[6..12] == mymac && buf[IP_SRC_P..IP_DST_P] == myip && buf[IP_DST_P..34] == ip
    ensures forall i :: 0 <= i < buf.Length && (12 <= i < IP_SRC_P || 34 <= i) ==> buf[i] == old(buf[i])
  {
    CopyMac(buf, ETH_DST_MAC, mac);
    CopyMac(buf, ETH_SRC_MAC, mymac);
    CopyIp(buf, IP_DST_P, ip);
    CopyIp(buf, IP_SRC_P, myip);
  }

  method FillIpHdrChecksum(buf: array<byte>)
    requires buf.Length >= 34
    modifies buf
    ensures IpOk(buf[..]) && buf[IP_FLAGS_P..IP_PROTO_P] == [0x40, 0, 64]
    ensures forall i :: 0 <= i < buf.Length && !(IP_FLAGS_P <= i < IP_SRC_P && i != IP_PROTO_P) ==> buf[i] == old(buf[i])
  {
    buf[IP_CHECKSUM_P] := 0;
    buf[IP_CHECKSUM_P + 1] := 0;
    buf[IP_FLAGS_P] := 0x40;
    buf[IP_FLAGS_P + 1] := 0;
    buf[IP_TTL_P] := 64;
    ghost var b := buf[..];
    assert buf[IP_P..IP_P + 20] == b[IP_P..IP_P + 20];
    FillChecksum(buf, IP_CHECKSUM_P, IP_P, 20, 0);
    RegionVerifies(b, buf[..], IP_CHECKSUM_P, IP_P, 20, 0);
    assert forall i :: 0 <= i < buf.Length ==> buf[i] == buf[..][i];
  }

  /** Where each byte of a frame turned around by `MakeEthIp` comes from. */
  ghost predicate TurnedAround(b: seq<byte>, o: seq<byte>, mymac: seq<byte>, myip: seq<byte>)
    requires |b| == |o| >= 34 && |mymac| == 6 && |myip| == 4
  {
    && b[..6] == o[6..12] && b[6..12] == mymac
    && b[IP_SRC_P..IP_DST_P] == myip && b[IP_DST_P..34] == o[IP_SRC_P..IP_DST_P]
    && b[12..IP_FLAGS_P] == o[12..IP_FLAGS_P] && b[IP_FLAGS_P..IP_PROTO_P] == [0x40, 0, 64] && b[IP_PROTO_P] == o[IP_PROTO_P]
    && b[34..] == o[34..]
  }

  /** Turn a received frame around: addresses swapped, IP header checksum renewed. */
  method MakeEthIp(buf: array<byte>, mymac: seq<byte>, myip: seq<byte>)
    requires buf.Length >= 34 && |mymac| == 6 && |myip| == 4
    modifies buf
    ensures IpOk(buf[..]) && TurnedAround(buf[..], old(buf[..]), mymac, myip)
  {
    ghost var (o, src) := (buf[..], buf[IP_SRC_P..IP_DST_P]);
    CopyMac(buf, ETH_DST_MAC, buf[6..12]);
    CopyMac(buf, ETH_SRC_MAC, mymac);
    assert buf[IP_SRC_P..IP_DST_P] == src;
    CopyIp(buf, IP_DST_P, buf[IP_SRC_P..IP_DST_P]);
    CopyIp(buf, IP_SRC_P, myip);
    FillIpHdrChecksum(buf);
    ghost var b := buf[..];
    assert b[..6] == o[6..12];
    assert b[6..12] == mymac;
    assert b[IP_SRC_P..IP_DST_P] == myip;
    assert b[IP_DST_P..34] == src;
    assert b[12..IP_FLAGS_P] == o[12..IP_FLAGS_P];
    assert b[IP_FLAGS_P..IP_PROTO_P] == buf[IP_FLAGS_P..IP_PROTO_P];
    assert b[34..] == o[34..];
  }

  /** The echo reply: the frame turned around, the ICMP part as `EchoReply` says. `end` is the end of
      the ICMP message. */
  method MakeEchoReplyFromRequest(buf: array<byte>, ghost end: nat, mymac: seq<byte>, myip: seq<byte>)
    requires ICMP_TYPE_P + 4 <= end <= buf.Length && |mymac| == 6 && |myip| == 4
    modifies buf
    ensures IpOk(buf[..])
    ensures buf[ICMP_TYPE_P..end] == EchoReply(old(buf[ICMP_TYPE_P..end])) && buf[end..] == old(buf[end..])
    ensures buf[ETH_DST_MAC..ETH_SRC_MAC] == old(buf[ETH_SRC_MAC..12]) && buf[ETH_SRC_MAC..12] == mymac
    ensures buf[IP_SRC_P..IP_DST_P] == myip && buf[IP_DST_P..34] == old(buf[IP_SRC_P..IP_DST_P])
    ensures old(buf[ICMP_TYPE_P]) == 8 && Verifies(0, old(buf[ICMP_TYPE_P..end])) ==>
              (Verifies(0, buf[ICMP_TYPE_P..end])
               <==> !(old(buf[ICMP_CHECKSUM_P]) > 0xF7 && old(buf[ICMP_CHECKSUM_P + 1]) == 0xFF))
  {
    ghost var s := buf[ICMP_TYPE_P..end];
    MakeEthIp(buf, mymac, myip);
    ghost var b := buf[..];
    assert buf[ICMP_TYPE_P..end] == s;
    buf[ICMP_TYPE_P] := 0;
    if buf[ICMP_CHECKSUM_P] > 0xFF - 0x08 {
      buf[ICMP_CHECKSUM_P + 1] := (buf[ICMP_CHECKSUM_P + 1] as int + 1) % 256;
    }
    buf[ICMP_CHECKSUM_P] := (buf[ICMP_CHECKSUM_P] as int + 0x08) % 256;
    assert buf[ICMP_TYPE_P..end] == EchoReply(s);
    assert buf[..][IP_P..IP_P + 20] == b[IP_P..IP_P + 20];
    if s[0] == 8 && Verifies(0, s) {
      EchoReplyVerifiesIff(s);
    }
  }
}
