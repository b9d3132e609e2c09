/** UDP frames: header preparation and the two checksums (tcpip.cpp). */
module Udp {
  import opened Bytes
  import opened Checksum
  import opened Packet
  import opened Gateway

  const UDP_SRC_PORT_H_P := 34
  const UDP_SRC_PORT_L_P := 35
  const UDP_DST_PORT_H_P := 36
  const UDP_DST_PORT_L_P := 37
  const UDP_LEN_H_P := 38
  const UDP_LEN_L_P := 39
  const UDP_CHECKSUM_H_P := 40
  const UDP_CHECKSUM_L_P := 41
  const UDP_DATA_P := 42

  const ALL_MAC: Mac := [0xff, 0xff, 0xff, 0xff, 0xff, 0xff]

  /** The big-endian 16-bit field at `p`. */
  function Field16(b: seq<byte>, p: nat): u16
    requires p + 2 <= |b|
  {
    256 * (b[p] as int) + b[p + 1] as int
  }

  /** The checksum of a UDP datagram with `dlen` data bytes verifies, over the pseudo-header formed by
      the addresses, the protocol number and the datagram length. */
  predicate UdpOk(b: seq<byte>, dlen: nat)
    requires |b| >= UDP_DATA_P + dlen
  {
    Verifies(17 + 8 + dlen, b[IP_SRC_P..UDP_DATA_P + dlen])
  }

  /** Whom a datagram for `dip` is handed to on the wire. */
  function NextHop(own: Own, destmac: Mac, gwmac: Mac, dip: Ip): Mac {
    if 0xE0 <= dip[0] < 0xF0 || dip == [0xff, 0xff, 0xff, 0xff] then ALL_MAC
    else if IsLan(own, dip) then destmac else gwmac
  }

  /** Addresses from 224.0.0.0 to 239.255.255.255, and 255.255.255.255, go to everybody; those on the LAN to the
      peer; all others through the gateway. */
  lemma NextHopIs(own: Own, destmac: Mac, gwmac: Mac, dip: Ip)
    requires destmac != gwmac && destmac != [255, 255, 255, 255, 255, 255] && gwmac != [255, 255, 255, 255, 255, 255]
    ensures var (mac, all) := (NextHop(own, destmac, gwmac, dip), dip[0] / 16 == 14 || dip == [255, 255, 255, 255]);
            && (mac == [255, 255, 255, 255, 255, 255] <==> all)
            && (mac == destmac <==> !all && IsLan(own, dip)) && (mac == gwmac <==> !all && !IsLan(own, dip))
  {
    hide IsLan;
  }

  /** `udpPrepare`: addressed from us to `dip`, lengths and checksum still open. */
  ghost predicate Prepared(b: seq<byte>, own: Own, mac: Mac, sport: u16, dip: Ip, dport: u16)
    requires |b| >= UDP_DATA_P
  {
    && b[..6] == mac && b[6..12] == own.mac
    && b[ETH_TYPE_H_P..IP_PROTO_P] == [8, 0, 0x45, 0, 0, 0x82, 0, 0, 0x40, 0, 0x20] && b[IP_PROTO_P] == 17
    && b[IP_SRC_P..IP_DST_P] == own.ip && b[IP_DST_P..34] == dip
    && Field16(b, UDP_SRC_PORT_H_P) == sport && Field16(b, UDP_DST_PORT_H_P) == dport
    && b[UDP_CHECKSUM_H_P] == 0 && b[UDP_CHECKSUM_L_P] == 0
  }

  /** A finished datagram of `dlen` data bytes: addresses, ports, lengths, both checksums. */
  ghost predicate Datagram(b: seq<byte>, own: Own, mac: Mac, sport: u16, dip: Ip, dport: u16, dlen: nat)
    requires |b| >= UDP_DATA_P + dlen
  {
    && b[..6] == mac && b[6..12] == own.mac && b[ETH_TYPE_H_P..IP_TOTLEN_H_P] == [8, 0, 0x45, 0]
    && b[IP_TOTLEN_H_P + 2..IP_PROTO_P] == [0, 0, 0x40, 0, 64] && b[IP_PROTO_P] == 17
    && b[IP_SRC_P..IP_DST_P] == own.ip && b[IP_DST_P..34] == dip
    && Field16(b, UDP_SRC_PORT_H_P) == sport && Field16(b, UDP_DST_PORT_H_P) == dport
    && Field16(b, IP_TOTLEN_H_P) == 28 + dlen && Field16(b, UDP_LEN_H_P) == 8 + dlen
    && IpOk(b) && UdpOk(b, dlen)
  }

  /** Only the bytes before the data matter. */
  lemma StillPrepared(h: seq<byte>, t: seq<byte>, own: Own, mac: Mac, sport: u16, dip: Ip, dport: u16)
    requires |h| >= UDP_DATA_P && |t| >= UDP_DATA_P && Prepared(h, own, mac, sport, dip, dport)
    requires forall i :: 0 <= i < UDP_DATA_P ==> t[i] == h[i]
    ensures Prepared(t, own, mac, sport, dip, dport)
  {
    assert t[..6] == h[..6] && t[6..12] == h[6..12] && t[12..23] == h[12..23];
    assert t[26..30] == h[26..30] && t[30..34] == h[30..34];
  }

  method UdpPrepare(buf: array<byte>, own: Own, destmac: Mac, gwmac: Mac, sport: u16, dip: Ip, dport: u16)
    requires buf.Length >= UDP_DATA_P
    modifies buf
    ensures Prepared(buf[..], own, NextHop(own, destmac, gwmac, dip), sport, dip, dport)
    ensures forall i :: UDP_DATA_P <= i < buf.Length ==> buf[i] == old(buf[i])
  {
    hide IsLan;
    if IsLan(own, dip) {
      SetMacAndIps(buf, own.mac, own.ip, destmac, dip);
    } else {
      SetMacAndIps(buf, own.mac, own.ip, gwmac, dip);
    }
    if 0xE0 <= dip[0] < 0xF0 || dip == [0xff, 0xff, 0xff, 0xff] {
      CopyMac(buf, ETH_DST_MAC, ALL_MAC);
    }
    ghost var b := buf[..];
    assert b[..6] == NextHop(own, destmac, gwmac, dip) && b[6..12] == own.mac;
    assert b[IP_SRC_P..IP_DST_P] == own.ip && b[IP_DST_P..34] == dip;
    UdpHeader(buf, sport, dport);
    assert buf[..6] == b[..6] && buf[6..12] == b[6..12];
    assert buf[IP_SRC_P..IP_DST_P] == b[IP_SRC_P..IP_DST_P] && buf[IP_DST_P..34] == b[IP_DST_P..34];
  }

  method UdpHeader(buf: array<byte>, sport: u16, dport: u16)
    requires buf.Length >= UDP_DATA_P
    modifies buf
    ensures buf[ETH_TYPE_H_P..IP_PROTO_P] == [8, 0, 0x45, 0, 0, 0x82, 0, 0, 0x40, 0, 0x20] && buf[IP_PROTO_P] == 17
    ensures Field16(buf[..], UDP_SRC_PORT_H_P) == sport && Field16(buf[..], UDP_DST_PORT_H_P) == dport
    ensures buf[UDP_CHECKSUM_H_P] == 0 && buf[UDP_CHECKSUM_L_P] == 0
    ensures forall i :: 0 <= i < buf.Length && (i < 12 || 26 <= i < 34 || UDP_DATA_P <= i) ==> buf[i] == old(buf[i])
  {
    buf[ETH_TYPE_H_P] := 8;
    buf[ETH_TYPE_L_P] := 0;
    var iphdr: seq<byte> := [0x45, 0, 0, 0x82, 0, 0, 0x40, 0, 0x20];
    forall i | 0 <= i < 9 { buf[IP_P + i] := iphdr[i]; }
    buf[IP_TOTLEN_H_P] := 0;
    buf[IP_PROTO_P] := 17;
    buf[UDP_DST_PORT_H_P] := dport / 256;
    buf[UDP_DST_PORT_L_P] := dport % 256;
    buf[UDP_SRC_PORT_H_P] := sport / 256;
    buf[UDP_SRC_PORT_L_P] := sport % 256;
    buf[UDP_LEN_H_P] := 0;
    buf[UDP_CHECKSUM_H_P] := 0;
    buf[UDP_CHECKSUM_L_P] := 0;
    assert buf[ETH_TYPE_H_P..IP_PROTO_P] == [8, 0] + iphdr;
  }

  lemma UdpRegion(c: seq<byte>, dlen: u16)
    requires UDP_DATA_P + dlen <= |c| && 28 + dlen < 0x1_0000
    requires Verifies(Pseudo(UDP, 16 + dlen), c[IP_SRC_P..IP_SRC_P + (16 + dlen)])
    ensures UdpOk(c, dlen)
  {
  }

  /** The last step: the checksum, over a zeroed field. */
  method FillUdpChecksum(buf: array<byte>, dlen: u16)
    requires UDP_DATA_P + dlen <= buf.Length && 28 + dlen < 0x1_0000
    requires IpOk(buf[..]) && buf[UDP_CHECKSUM_H_P] == 0 && buf[UDP_CHECKSUM_L_P] == 0
    modifies buf
    ensures IpOk(buf[..]) && UdpOk(buf[..], dlen)
    ensures forall i :: 0 <= i < buf.Length && i != UDP_CHECKSUM_H_P && i != UDP_CHECKSUM_L_P ==> buf[i] == old(buf[i])
  {
    hide IpOk;
    hide UdpOk;
    hide Verifies;
    hide Complement;
    ghost var b := buf[..];
    assert b[IP_SRC_P..IP_SRC_P + (16 + dlen)] == buf[IP_SRC_P..IP_SRC_P + (16 + dlen)];
    FillChecksum(buf, UDP_CHECKSUM_H_P, IP_SRC_P, 16 + dlen, UDP);
    RegionVerifies(b, buf[..], UDP_CHECKSUM_H_P, IP_SRC_P, 16 + dlen, UDP);
    UdpRegion(buf[..], dlen);
    KeepsIpOk(b, buf[..]);
  }

  /** `udpTransmit` up to the hand-over to the chip, on a prepared buffer with the data in place. (No longer
      datagram fits the address space behind the headers.) */
  method UdpTransmit(buf: array<byte>, dlen: u16, ghost own: Own, ghost mac: Mac,
                     ghost sport: u16, ghost dip: Ip, ghost dport: u16)
    requires UDP_DATA_P + dlen <= buf.Length && 28 + dlen < 0x1_0000
    requires Prepared(buf[..], own, mac, sport, dip, dport)
    modifies buf
    ensures Datagram(buf[..], own, mac, sport, dip, dport, dlen)
    ensures forall i :: UDP_DATA_P <= i < buf.Length ==> buf[i] == old(buf[i])
  {
    hide IpOk;
    hide UdpOk;
    ghost var p := buf[..];
    buf[IP_TOTLEN_H_P] := (28 + dlen) / 256;
    buf[IP_TOTLEN_L_P] := (28 + dlen) % 256;
    FillIpHdrChecksum(buf);
    ghost var h := buf[..];
    buf[UDP_LEN_H_P] := (8 + dlen) / 256;
    buf[UDP_LEN_L_P] := (8 + dlen) % 256;
    KeepsIpOk(h, buf[..]);
    FillUdpChecksum(buf, dlen);
    HeaderKept(p, h, buf[..], own, mac, sport, dip, dport);
  }

  /** What `udpTransmit` does not touch. */
  lemma HeaderKept(p: seq<byte>, h: seq<byte>, b: seq<byte>, own: Own, mac: Mac, sport: u16, dip: Ip, dport: u16)
    requires |p| == |h| == |b| >= UDP_DATA_P && Prepared(p, own, mac, sport, dip, dport)
    requires h[IP_FLAGS_P..IP_PROTO_P] == [0x40, 0, 64]
    requires forall i :: 0 <= i < |p| && (i < 16 || 18 <= i < 20 || i == 23 || 26 <= i < 38) ==> b[i] == p[i]
    requires forall i :: 20 <= i < 23 ==> b[i] == h[i]
    ensures b[..6] == mac && b[6..12] == own.mac && b[ETH_TYPE_H_P..IP_TOTLEN_H_P] == [8, 0, 0x45, 0]
    ensures b[IP_TOTLEN_H_P + 2..IP_PROTO_P] == [0, 0, 0x40, 0, 64] && b[IP_PROTO_P] == 17
    ensures b[IP_SRC_P..IP_DST_P] == own.ip && b[IP_DST_P..34] == dip
    ensures Field16(b, UDP_SRC_PORT_H_P) == sport && Field16(b, UDP_DST_PORT_H_P) == dport
  {
    assert b[..6] == p[..6] && b[6..12] == p[6..12] && b[12..16] == p[12..16];
    assert b[26..30] == p[26..30] && b[30..34] == p[30..34];
    assert p[12..16] == p[12..23][..4] && p[18] == p[12..23][6] && p[19] == p[12..23][7];
    assert b[20..23] == h[20..23];
  }
}
