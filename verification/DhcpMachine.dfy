/** The DHCP client in place: static fields, the packet buffer, and an append pointer into it (dhcp.cpp). */
module DhcpMachine {
  import opened Bytes
  import opened Packet
  import opened Udp
  import opened Gateway
  import opened DhcpOptions
  import opened DhcpClient

  /** Byte `i` of the `DHCPdata` record. */
  function FixedAt(m: Message, cf: Config, i: nat): byte {
    if i == 0 || i == 1 then 1
    else if i == 2 then 6
    else if 4 <= i < 8 then Le32(m.xid)[i - 4]
    else if 12 <= i < 16 then m.ciaddr[i - 12]
    else if 28 <= i < 34 then cf.mac[i - 28]
    else 0
  }

  lemma FixedIs(f: seq<byte>, m: Message, cf: Config)
    requires |f| == 236 && forall i :: 0 <= i < 236 ==> f[i] == FixedAt(m, cf, i)
    ensures f == Fixed(m, cf)
  {
    var x := [1, 1, 6, 0] + Le32(m.xid) + Zeros(4) + m.ciaddr;
    assert f[..16] == x;
    var y := Zeros(12) + cf.mac;
    assert f[16..34] == y;
    assert f[34..] == Zeros(202);
    assert Fixed(m, cf) == x + y + Zeros(202);
  }

  class DhcpMachine {
    const buf: array<byte>
    const cf: Config
    var d: State
    var bufPtr: nat
    ghost var log: seq<DhcpClient.Event>

    ghost predicate Ready() { buf.Length >= OPTIONS_P + 257 && buf as object != this && ConfigOk(cf) }

    constructor (b: array<byte>, c: Config, start: State)
      requires b.Length >= OPTIONS_P + 257 && ConfigOk(c) && start.phase == INIT
      ensures Ready() && buf == b && cf == c && d == start && log == [] && Remembers()
    {
      buf, cf, d, bufPtr, log := b, c, start, 0, [];
    }

    /** The history that every state of a running client has behind it. */
    ghost predicate Remembers()
      reads this
    {
      Table(log) && History(d, log)
    }

    /** What stands before the append pointer. */
    ghost predicate Built(built: seq<byte>)
      reads this, buf
    {
      bufPtr == |built| <= buf.Length && buf[..bufPtr] == built
    }

    method AddToBuf(b: byte, ghost built: seq<byte>)
      requires Ready() && Built(built) && bufPtr < buf.Length
      modifies buf, this`bufPtr
      ensures Built(built + [b])
    {
      buf[bufPtr] := b;
      bufPtr := bufPtr + 1;
    }

    method AddBytes(data: seq<byte>, ghost built: seq<byte>)
      requires Ready() && Built(built) && bufPtr + |data| <= buf.Length
      modifies buf, this`bufPtr
      ensures Built(built + data)
    {
      assert built + data[..0] == built;
      for i := 0 to |data|
        invariant Built(built + data[..i])
      {
        AddToBuf(data[i], built + data[..i]);
        assert built + data[..i + 1] == built + data[..i] + [data[i]];
      }
      assert data[..|data|] == data;
    }

    /** Code, length, data. */
    method AddOption(code: byte, len: byte, data: seq<byte>, ghost built: seq<byte>)
      requires Ready() && Built(built) && bufPtr + 2 + |data| <= buf.Length
      modifies buf, this`bufPtr
      ensures Built(built + ([code, len] + data))
    {
      hide Built;
      BuiltBound(built);
      AddToBuf(code, built);
      BuiltBound(built + [code]);
      AddToBuf(len, built + [code]);
      BuiltBound(built + [code] + [len]);
      AddBytes(data, built + [code] + [len]);
      assert built + [code] + [len] + data == built + ([code, len] + data);
    }

    lemma BuiltBound(built: seq<byte>)
      requires Built(built)
      ensures bufPtr == |built| <= buf.Length
    {
    }

    /** The option part of the message, appended piece by piece. */
    method AddOptions(ghost m: Message, ghost built: seq<byte>)
      requires Ready() && m == MessageFor(d) && Built(built) && bufPtr == UDP_DATA_P + 236
      modifies buf, this`bufPtr
      ensures Built(built + (COOKIE + Encode(Options(m, cf)) + [255]))
    {
      hide Built;
      var kind := if d.phase == INIT then DISCOVER else DHCP_REQUEST;
      BuiltBound(built);
      AddBytes([99, 130, 83, 99, 53, 1], built);
      ghost var b1 := built + [99, 130, 83, 99, 53, 1];
      BuiltBound(b1);
      AddToBuf(kind, b1);
      ghost var b2 := b1 + [kind];
      BuiltBound(b2);
      AddOption(61, 7, [0x01] + cf.mac, b2);
      ghost var b3 := b2 + ([61, 7] + ([0x01] + cf.mac));
      BuiltBound(b3);
      AddOption(12, 10, cf.hostname, b3);
      ghost var b4 := b3 + ([12, 10] + cf.hostname);
      BuiltBound(b4);
      AddRequested(m, b4);
      ghost var b5 := b4 + RequestedBytes(m);
      BuiltBound(b5);
      AddWanted(b5);
      OptionBytes(m, cf);
      Assembled(built, m, b1, b2, b3, b4);
    }

    lemma Assembled(built: seq<byte>, m: Message, b1: seq<byte>, b2: seq<byte>, b3: seq<byte>, b4: seq<byte>)
      requires b1 == built + [99, 130, 83, 99, 53, 1] && b2 == b1 + [m.kind] && b3 == b2 + ([61, 7] + ([0x01] + cf.mac))
      requires b4 == b3 + ([12, 10] + cf.hostname)
      ensures b4 + RequestedBytes(m) + WantedBytes(cf) + [255]
           == built + (COOKIE + ([53, 1, m.kind] + ([61, 7, 1] + cf.mac) + ([12, 10] + cf.hostname)
                                 + RequestedBytes(m) + WantedBytes(cf)) + [255])
    {
      hide RequestedBytes;
      hide WantedBytes;
      assert b2 == built + (COOKIE + [53, 1, m.kind]);
      assert [61, 7] + ([0x01] + cf.mac) == [61, 7, 1] + cf.mac;
    }

    method AddRequested(ghost m: Message, ghost built: seq<byte>)
      requires Ready() && m == MessageFor(d) && Built(built) && bufPtr <= UDP_DATA_P + 270
      modifies buf, this`bufPtr
      ensures Built(built + RequestedBytes(m)) && |RequestedBytes(m)| <= 12
    {
      hide Built;
      BuiltBound(built);
      if d.phase == SELECTING {
        AddOption(50, 4, d.myip, built);
        ghost var b1 := built + ([50, 4] + d.myip);
        BuiltBound(b1);
        AddOption(54, 4, d.lease.dhcpip, b1);
        assert b1 + ([54, 4] + d.lease.dhcpip) == built + RequestedBytes(m);
      } else {
        assert built + RequestedBytes(m) == built;
      }
    }

    method AddWanted(ghost built: seq<byte>)
      requires Ready() && Built(built) && bufPtr <= UDP_DATA_P + 290
      modifies buf, this`bufPtr
      ensures Built(built + WantedBytes(cf) + [255])
    {
      hide Built;
      BuiltBound(built);
      var len := 3;
      if cf.customOpt != 0 {
        len := len + 1;
      }
      AddOption(55, len, [1, 3, 6], built);
      ghost var b1 := built + ([55, len] + [1, 3, 6]);
      BuiltBound(b1);
      if cf.customOpt != 0 {
        AddToBuf(cf.customOpt, b1);
        b1 := b1 + [cf.customOpt];
        BuiltBound(b1);
      }
      assert b1 == built + WantedBytes(cf);
      AddToBuf(255, b1);
    }

    /** The 32-bit store of the little-endian machine. */
    method PutXid()
      requires Ready()
      modifies buf
      ensures forall i :: 0 <= i < buf.Length ==>
                buf[i] == if XID_P <= i < XID_P + 4 then Le32(d.xid)[i - XID_P] else old(buf[i])
    {
      buf[XID_P] := d.xid % 0x100;
      buf[XID_P + 1] := d.xid / 0x100 % 0x100;
      buf[XID_P + 2] := d.xid / 0x1_0000 % 0x100;
      buf[XID_P + 3] := d.xid / 0x100_0000;
    }

    /** The fields of the fixed part, over zeroed memory. */
    method FillFixed(ghost m: Message)
      requires Ready() && m == MessageFor(d) && forall i :: UDP_DATA_P <= i < UDP_DATA_P + 236 ==> buf[i] == 0
      modifies buf
      ensures buf[UDP_DATA_P..UDP_DATA_P + 236] == Fixed(m, cf)
      ensures forall i :: 0 <= i < UDP_DATA_P ==> buf[i] == old(buf[i])
    {
      hide Le32;
      buf[UDP_DATA_P] := 1;
      buf[UDP_DATA_P + 1] := 1;
      buf[UDP_DATA_P + 2] := 6;
      PutXid();
      if d.phase == BOUND {
        CopyIp(buf, UDP_DATA_P + 12, d.myip);
      }
      CopyMac(buf, UDP_DATA_P + 28, cf.mac);
      FixedIs(buf[UDP_DATA_P..UDP_DATA_P + 236], m, cf);
    }

    /** memset, `udpPrepare`, and the destination MAC then forced to broadcast. */
    method PrepareFrame(destmac: Mac, gwmac: Mac)
      requires Ready()
      modifies buf
      ensures Prepared(buf[..], Self(), ALL_MAC, 68, MessageFor(d).dest, 67)
      ensures forall i :: UDP_DATA_P <= i < UDP_DATA_P + 236 ==> buf[i] == 0
    {
      forall i | 0 <= i < UDP_DATA_P + 236 { buf[i] := 0; }
      UdpPrepare(buf, Own(d.myip, cf.mac, d.lease.netmask), destmac, gwmac, 68,
                 if d.phase == BOUND then d.lease.dhcpip else ALL_ONES, 67);
      ghost var b := buf[..];
      CopyMac(buf, ETH_DST_MAC, ALL_MAC);
      assert buf[..6] == ALL_MAC && forall i :: 6 <= i < buf.Length ==> buf[i] == b[i];
      assert buf[6..12] == b[6..12] && buf[12..23] == b[12..23];
      assert buf[IP_SRC_P..IP_DST_P] == b[IP_SRC_P..IP_DST_P] && buf[IP_DST_P..34] == b[IP_DST_P..34];
    }

    /** The frame that `send_dhcp_message` leaves in the buffer: from us, broadcast on the wire, from
        port 68 to port 67, both checksums right, the message as its data. */
    ghost predicate FrameOk(m: Message, own: Own)
      requires Ready()
      reads buf
    {
      var n := |Payload(m, cf)|;
      buf[UDP_DATA_P..UDP_DATA_P + n] == Payload(m, cf) && Datagram(buf[..], own, ALL_MAC, 68, m.dest, 67, n)
    }

    ghost function Self(): Own
      reads this
    {
      Own(d.myip, cf.mac, d.lease.netmask)
    }

    /** `send_dhcp_message`. */
    method SendDhcpMessage(destmac: Mac, gwmac: Mac)
      requires Ready()
      modifies buf, this`bufPtr, this`log
      ensures FrameOk(MessageFor(d), Self()) && log == old(log) + [Sent(d.phase, MessageFor(d))]
    {
      ghost var m := MessageFor(d);
      PrepareFrame(destmac, gwmac);
      ghost var h := buf[..];
      FillFixed(m);
      ghost var f := buf[UDP_DATA_P..UDP_DATA_P + 236];
      bufPtr := UDP_DATA_P + 236;
      ghost var head := buf[..UDP_DATA_P];
      assert head == h[..UDP_DATA_P] && buf[..bufPtr] == head + f;
      AddOptions(m, head + f);
      PayloadIs(m, head, f);
      Transmit(m, head, h);
      log := log + [Sent(d.phase, MessageFor(d))];
    }

    /** `udpTransmit` on the finished message. */
    method Transmit(ghost m: Message, ghost head: seq<byte>, ghost h: seq<byte>)
      requires Ready() && |h| >= UDP_DATA_P && head == h[..UDP_DATA_P] && Built(head + Payload(m, cf))
      requires Prepared(h, Self(), ALL_MAC, 68, m.dest, 67)
      modifies buf
      ensures FrameOk(m, Self())
    {
      hide Payload;
      hide Prepared;
      hide Datagram;
      ghost var t := buf[..];
      ghost var n := |Payload(m, cf)|;
      assert t[..bufPtr] == head + Payload(m, cf);
      HeadKept(t, head, Payload(m, cf), bufPtr);
      StillPrepared(h, t, Self(), ALL_MAC, 68, m.dest, 67);
      UdpTransmit(buf, bufPtr - UDP_DATA_P, Self(), ALL_MAC, 68, m.dest, 67);
      assert buf[UDP_DATA_P..UDP_DATA_P + n] == t[UDP_DATA_P..UDP_DATA_P + n];
    }

    lemma PayloadIs(m: Message, head: seq<byte>, f: seq<byte>)
      requires ConfigOk(cf) && f == Fixed(m, cf)
      ensures (head + f) + (COOKIE + Encode(Options(m, cf)) + [255]) == head + Payload(m, cf)
      ensures |Payload(m, cf)| == 241 + |Encode(Options(m, cf))| < 300
    {
    }

    lemma HeadKept(t: seq<byte>, head: seq<byte>, pay: seq<byte>, n: nat)
      requires n <= |t| && t[..n] == head + pay && |head| == UDP_DATA_P
      ensures n == UDP_DATA_P + |pay| && t[UDP_DATA_P..n] == pay && forall i :: 0 <= i < UDP_DATA_P ==> t[i] == head[i]
    {
      assert |t[..n]| == n;
      forall i | 0 <= i < n ensures t[i] == (head + pay)[i] { assert t[..n][i] == t[i]; }
    }

    /** `dhcp_received_message_type`. */
    method DhcpReceivedMessageType(len: u16, msgType: byte) returns (r: bool)
      requires Ready() && BufferOk(buf[..], len)
      ensures r == Received(buf[..], len, d.xid, msgType)
    {
      ghost var b := buf[..];
      if len >= 70 && buf[UDP_SRC_PORT_L_P] == 67 && XidOf(buf[..]) == d.xid {
        var ptr := OPTIONS_P;
        while true
          invariant ptr < len || ptr == OPTIONS_P
          invariant FindType(b, OPTIONS_P, len, msgType) == FindType(b, ptr, len, msgType)
          decreases buf.Length - ptr
        {
          var (option, optionLen) := (buf[ptr], buf[ptr + 1]);
          ptr := ptr + 2;
          if option == 53 && buf[ptr] == msgType {
            return true;
          }
          ptr := ptr + optionLen;
          if ptr >= len {
            break;
          }
        }
      }
      return false;
    }

    /** Option 51 or 58: the loop over four bytes, and the factor 1000, in 32 bits. */
    method TakeLeaseTime(ptr: nat)
      requires Ready() && ptr + 4 <= buf.Length
      modifies this`d
      ensures d == old(d).(lease := old(d.lease).(leaseTime := Millis(Be32(buf[ptr..ptr + 4]))))
    {
      var n: u32 := 0;
      for i := 0 to 4
        invariant n as int == Prefix32(buf[..], ptr, i)
      {
        n := (n * 256 + buf[ptr + i] as int) % TWO32;
      }
      PrefixIsBe32(buf[..], ptr);
      d := d.(lease := d.lease.(leaseTime := n * 1000 % TWO32));
      assert buf[..][ptr..ptr + 4] == buf[ptr..ptr + 4];
    }

    /** The switch. */
    method TakeOption(option: byte, optionLen: byte, ptr: nat)
      requires Ready() && ptr + 255 <= buf.Length
      modifies this`d
      ensures d == old(d).(lease := Apply(old(d.lease), option, buf[..], ptr, optionLen, Custom(cf)))
    {
      ghost var b := buf[..];
      assert b[ptr..ptr + 4] == buf[ptr..ptr + 4] && b[ptr..ptr + optionLen] == buf[ptr..ptr + optionLen];
      match option
      case 1 => d := d.(lease := d.lease.(netmask := buf[ptr..ptr + 4]));
      case 3 => d := d.(lease := d.lease.(gwip := buf[ptr..ptr + 4]));
      case 6 => d := d.(lease := d.lease.(dnsip := buf[ptr..ptr + 4]));
      case 51 => TakeLeaseTime(ptr);
      case 58 => TakeLeaseTime(ptr);
      case 54 => d := d.(lease := d.lease.(dhcpip := buf[ptr..ptr + 4]));
      case 255 =>
      case _ =>
        if cf.hasCallback && option == cf.customOpt {
          d := d.(lease := d.lease.(custom := d.lease.custom + [buf[ptr..ptr + optionLen]]));
        }
    }

    /** `process_dhcp_offer`. */
    method ProcessDhcpOffer(len: u16, ghost i: DhcpClient.Input)
      requires Ready() && InputOk(i) && i.b == buf[..] && i.len == len
      modifies this`d
      ensures d == TakeOffer(old(d), cf, i)
    {
      hide Apply;
      d := d.(myip := buf[YIADDR_P..YIADDR_P + 4]);
      ghost var d0 := d;
      var ptr := OPTIONS_P;
      var done := false;
      while true
        invariant !done && (ptr < len || ptr == OPTIONS_P) && d == d0.(lease := d.lease)
        invariant Walk(i.b, OPTIONS_P, len, d0.lease, Custom(cf)) == Walk(i.b, ptr, len, d.lease, Custom(cf))
        decreases buf.Length - ptr
      {
        var (option, optionLen) := (buf[ptr], buf[ptr + 1]);
        ptr := ptr + 2;
        TakeOption(option, optionLen, ptr);
        if option == 255 {
          done := true;
        }
        ptr := ptr + optionLen;
        if done || ptr >= len {
          break;
        }
      }
    }

    /** One call of `DhcpStateMachine` in a run: the history goes on. */
    method Poll(len: u16, t1: u32, t2: u32, destmac: Mac, gwmac: Mac)
      requires Ready() && BufferOk(buf[..], len) && t1 <= t2 && Remembers()
      modifies this, buf
      ensures Remembers()
    {
      hide Table;
      hide History;
      ghost var (d0, log0, i) := (d, log, DhcpClient.Input(buf[..], len, t1, t2));
      DhcpStateMachine(len, t1, t2, destmac, gwmac);
      StepKeepsHistory(d0, cf, i, log0);
    }

    /** `DhcpStateMachine`: exactly one step. `t1` and `t2` are what the clock shows when it is read. */
    method DhcpStateMachine(len: u16, t1: u32, t2: u32, destmac: Mac, gwmac: Mac)
      requires Ready() && BufferOk(buf[..], len) && t1 <= t2
      modifies this, buf
      ensures var (d', es) := DhcpClient.Step(old(d), cf, DhcpClient.Input(old(buf[..]), len, t1, t2));
              d == d' && log == old(log) + es
      ensures d.phase != old(d.phase) && d.phase in {SELECTING, REQUESTING, RENEWING} ==>
                var k := |log| - 1 - (if d.phase == SELECTING then 1 else 0);
                exists m :: log[k] == Sent(old(d.phase), m) && FrameOk(m, Self())
    {
      hide Received;
      hide FrameOk;
      hide MessageFor;
      ghost var i := DhcpClient.Input(buf[..], len, t1, t2);
      match d.phase
      case BOUND =>
        if t1 >= (d.leaseStart + d.lease.leaseTime) % TWO32 {
          SendDhcpMessage(destmac, gwmac);
          d := d.(phase := RENEWING);
          d := d.(timer := t2);
        }
      case INIT =>
        d := d.(xid := t1);
        d := d.(myip := NO_IP);
        SendDhcpMessage(destmac, gwmac);
        log := log + [Broadcasts(true)];
        d := d.(phase := SELECTING);
        d := d.(timer := t2);
      case SELECTING =>
        var offered := DhcpReceivedMessageType(len, OFFER);
        if offered {
          ProcessDhcpOffer(len, i);
          log := log + [Offered(d.xid, d.myip, d.lease.dhcpip)];
          SendDhcpMessage(destmac, gwmac);
          d := d.(phase := REQUESTING);
          d := d.(timer := t1);
        } else if t1 > (d.timer + REQUEST_TIMEOUT) % TWO32 {
          d := d.(phase := INIT);
        }
      case _ =>
        var acked := DhcpReceivedMessageType(len, DHCP_ACK);
        if acked {
          log := log + [Acked(d.xid), Broadcasts(false)];
          d := d.(leaseStart := t1);
          if d.lease.gwip[0] != 0 {
            log := log + [GatewaySet(d.lease.gwip)];
          }
          d := d.(phase := BOUND);
        } else if t1 > (d.timer + REQUEST_TIMEOUT) % TWO32 {
          d := d.(phase := INIT);
        }
    }
  }

  /** The big-endian number in the first `n` bytes from `p`. */
  function Prefix32(b: seq<byte>, p: nat, n: nat): (r: nat)
    requires p + n <= |b|
    ensures (n == 0 ==> r == 0) && (n == 1 ==> r < 0x100) && (n == 2 ==> r < 0x1_0000) && (n == 3 ==> r < 0x100_0000)
  {
    if n == 0 then 0 else Prefix32(b, p, n - 1) * 256 + b[p + n - 1] as int
  }

  lemma PrefixIsBe32(b: seq<byte>, p: nat)
    requires p + 4 <= |b|
    ensures Prefix32(b, p, 4) == Be32(b[p..p + 4])
  {
    assert Prefix32(b, p, 2) == b[p] as int * 256 + b[p + 1] as int;
    assert Prefix32(b, p, 4) == (Prefix32(b, p, 2) * 256 + b[p + 2] as int) * 256 + b[p + 3] as int;
  }
}
