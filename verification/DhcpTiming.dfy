/** The DHCP client over time: when it waits, when it gives up, and that it gets there (dhcp.cpp). */
module DhcpTiming {
  import opened Bytes
  import opened Slices
  import opened Gateway
  import opened DhcpOptions
  import opened DhcpClient

  predicate Waits(p: Phase) { p in {SELECTING, REQUESTING, RENEWING} }

  /** The reading of the clock after a message was sent: the second one of the call, except that on an offer
      the clock is read only once. */
  function SendReading(p: Phase, i: DhcpClient.Input): u32 { if p == SELECTING then i.t1 else i.t2 }

  predicate Sends(es: seq<Event>) { exists k :: 0 <= k < |es| && es[k].Sent? }

  predicate InputsOk(ins: seq<DhcpClient.Input>) { forall i :: i in ins ==> InputOk(i) }

  /** When the last message of a run was sent. */
  function LastSent(d: State, cf: Config, ins: seq<DhcpClient.Input>): Option<u32>
    requires InputsOk(ins)
  {
    if ins == [] then None
    else
      var n := |ins| - 1;
      var d1 := DhcpClient.Run(d, cf, ins[..n]).0;
      if Sends(DhcpClient.Step(d1, cf, ins[n]).1) then Some(SendReading(d1.phase, ins[n])) else LastSent(d, cf, ins[..n])
  }

  /** Which steps send, and what the timer is then. */
  lemma TimerStep(d: State, cf: Config, i: DhcpClient.Input)
    requires InputOk(i)
    ensures var (d', es) := DhcpClient.Step(d, cf, i);
            && (Sends(es) <==> d'.phase != d.phase && Waits(d'.phase))
            && (Sends(es) ==> d'.timer == SendReading(d.phase, i))
            && (!Sends(es) && Waits(d'.phase) ==> d'.timer == d.timer && d'.phase == d.phase)
  {
    hide Received;
    hide MessageFor;
    hide TakeOffer;
    var es := DhcpClient.Step(d, cf, i).1;
    if es != [] { assert es[|es| - 1].Sent? || es[0].Sent? || d.phase in {REQUESTING, RENEWING}; }
  }

  /** In a waiting state the timer is the clock as it was when the last message was sent. */
  lemma {:induction false} TimerIsLastSent(d: State, cf: Config, ins: seq<DhcpClient.Input>)
    requires d.phase == INIT && InputsOk(ins)
    ensures var d' := DhcpClient.Run(d, cf, ins).0; Waits(d'.phase) ==> LastSent(d, cf, ins) == Some(d'.timer)
  {
    hide DhcpClient.Step;
    if ins != [] {
      var n := |ins| - 1;
      assert ins[n] in ins;
      TimerIsLastSent(d, cf, ins[..n]);
      TimerStep(DhcpClient.Run(d, cf, ins[..n]).0, cf, ins[n]);
    }
  }

  /** A call at clock `t` at the latest, without the message that is waited for: an OFFER (2) in SELECTING, an
      ACK (5) otherwise. */
  predicate Quiet(d: State, i: DhcpClient.Input, t: int)
    requires InputOk(i)
  {
    i.t1 <= t && !Received(i.b, i.len, d.xid, if d.phase == SELECTING then 2 else 5)
  }

  /** Up to 10000 ms after the last message a client waits, and does nothing else. */
  lemma {:induction false} WaitsOn(d: State, cf: Config, ins: seq<DhcpClient.Input>)
    requires Waits(d.phase) && d.timer + 10000 < 0x1_0000_0000 && InputsOk(ins)
    requires forall i :: i in ins ==> Quiet(d, i, d.timer + 10000)
    ensures DhcpClient.Run(d, cf, ins) == (d, [])
  {
    hide Received;
    if ins != [] {
      var n := |ins| - 1;
      assert ins[n] in ins && forall i :: i in ins[..n] ==> i in ins;
      WaitsOn(d, cf, ins[..n]);
      assert DhcpClient.Step(d, cf, ins[n]) == (d, []);
      var none: seq<Event> := [];
      assert none + none == none;
    }
  }

  /** A client that sends at clock `t` keeps its phase, xid and address through all calls up to `t + 10000`
      that do not bring the message it waits for. The first such call after that makes it start over. */
  lemma SentThenWaits(d: State, cf: Config, i: DhcpClient.Input, ins: seq<DhcpClient.Input>, j: DhcpClient.Input)
    requires InputOk(i) && InputsOk(ins) && InputOk(j) && Sends(DhcpClient.Step(d, cf, i).1)
    requires SendReading(d.phase, i) + 10000 < 0x1_0000_0000
    requires forall k :: k in ins ==> Quiet(DhcpClient.Step(d, cf, i).0, k, SendReading(d.phase, i) + 10000)
    ensures var d' := DhcpClient.Step(d, cf, i).0;
            && d'.phase == (match d.phase case INIT => SELECTING case SELECTING => REQUESTING case _ => RENEWING)
            && DhcpClient.Run(d', cf, ins) == (d', [])
            && (DhcpClient.Step(d', cf, j).0.phase == INIT
                <==> j.t1 > SendReading(d.phase, i) + 10000
                     && !Received(j.b, j.len, d'.xid, if d'.phase == SELECTING then 2 else 5))
  {
    var d' := DhcpClient.Step(d, cf, i).0;
    TimerStep(d, cf, i);
    WaitsOn(d', cf, ins);
    TimeoutStartsOver(d', cf, j, j);
    hide Received;
  }

  /** The message waited for leads on: an OFFER to REQUESTING with the address it names, an ACK to BOUND, with
      the gateway set exactly if the first byte of its address is not 0. */
  lemma AnswerLeadsOn(d: State, cf: Config, i: DhcpClient.Input)
    requires InputOk(i) && Waits(d.phase) && Received(i.b, i.len, d.xid, if d.phase == SELECTING then 2 else 5)
    ensures var (d', es) := DhcpClient.Step(d, cf, i);
            if d.phase == SELECTING then
              && d'.phase == REQUESTING && d'.xid == d.xid && d'.myip == i.b[58..62]
              && |es| == 2 && es[0] == Offered(d.xid, i.b[58..62], d'.lease.dhcpip) && es[1].Sent?
              && es[1].m == Message(3, d.xid, [255, 255, 255, 255], [0, 0, 0, 0], Some((d'.myip, d'.lease.dhcpip)))
            else
              && d' == d.(phase := BOUND, leaseStart := i.t1)
              && es == [Acked(d.xid), Broadcasts(false)]
                       + if d.lease.gwip[0] != 0 then [GatewaySet(d.lease.gwip)] else []
  {
    hide Received;
  }

  // ---- getting an address

  lemma {:induction false} RunOn(d: State, cf: Config, a: seq<DhcpClient.Input>, b: seq<DhcpClient.Input>)
    requires InputsOk(a) && InputsOk(b)
    ensures InputsOk(a + b)
    ensures var (d1, log) := DhcpClient.Run(d, cf, a);
            var (d2, es) := DhcpClient.Run(d1, cf, b);
            DhcpClient.Run(d, cf, a + b) == (d2, log + es)
    decreases |b|
  {
    hide DhcpClient.Step;
    var log := DhcpClient.Run(d, cf, a).1;
    if b == [] {
      assert a + b == a && log + [] == log;
    } else {
      var n := |b| - 1;
      RunOn(d, cf, a, b[..n]);
      assert (a + b)[..|a| + n] == a + b[..n] && (a + b)[|a| + n] == b[n] && b[n] in b;
      var d1 := DhcpClient.Run(d, cf, a).0;
      var (d2, es) := DhcpClient.Run(d1, cf, b[..n]);
      assert (log + es) + DhcpClient.Step(d2, cf, b[n]).1 == log + (es + DhcpClient.Step(d2, cf, b[n]).1);
    }
  }

  /** A call, and calls in which nothing happens. */
  lemma StepThenQuiet(d: State, cf: Config, i: DhcpClient.Input, w: seq<DhcpClient.Input>)
    requires InputOk(i) && InputsOk(w)
    requires var d' := DhcpClient.Step(d, cf, i).0; DhcpClient.Run(d', cf, w) == (d', [])
    ensures InputsOk([i] + w) && DhcpClient.Run(d, cf, [i] + w) == DhcpClient.Step(d, cf, i)
  {
    hide DhcpClient.Step;
    assert [i][..0] == [] && [i][0] == i && [] + DhcpClient.Step(d, cf, i).1 == DhcpClient.Step(d, cf, i).1;
    RunOn(d, cf, [i], w);
    assert DhcpClient.Step(d, cf, i).1 + [] == DhcpClient.Step(d, cf, i).1;
  }

  /** What the client does on the way to a lease for `ip` from `server`. */
  function LeaseLog(xid: u32, ip: Ip, server: Ip, gwip: Ip): seq<Event> {
    [Sent(INIT, Message(1, xid, [255, 255, 255, 255], [0, 0, 0, 0], None)), Broadcasts(true)]
    + [Offered(xid, ip, server), Sent(SELECTING, Message(3, xid, [255, 255, 255, 255], [0, 0, 0, 0], Some((ip, server))))]
    + ([Acked(xid), Broadcasts(false)] + if gwip[0] != 0 then [GatewaySet(gwip)] else [])
  }

  /** From the first call to a lease: a DISCOVER, the offer within ten seconds, the request for it, the
      acknowledgement within ten seconds, whatever else arrives in between. */
  lemma GetsLease(d: State, cf: Config, first: DhcpClient.Input, w1: seq<DhcpClient.Input>, offer: DhcpClient.Input,
                  w2: seq<DhcpClient.Input>, ack: DhcpClient.Input)
    requires d.phase == INIT && InputOk(first) && InputsOk(w1) && InputOk(offer) && InputsOk(w2) && InputOk(ack)
    requires first.t2 + 10000 < 0x1_0000_0000 && offer.t1 + 10000 < 0x1_0000_0000
    requires Received(offer.b, offer.len, first.t1, 2) && Received(ack.b, ack.len, first.t1, 5)
    requires forall k :: k in w1 ==> k.t1 <= first.t2 + 10000 && !Received(k.b, k.len, first.t1, 2)
    requires forall k :: k in w2 ==> k.t1 <= offer.t1 + 10000 && !Received(k.b, k.len, first.t1, 5)
    ensures InputsOk(([first] + w1) + ([offer] + w2) + ([ack] + []))
    ensures var (d', log) := DhcpClient.Run(d, cf, ([first] + w1) + ([offer] + w2) + ([ack] + []));
            && d'.phase == BOUND && d'.xid == first.t1 && d'.myip == offer.b[58..62] && d'.leaseStart == ack.t1
            && log == LeaseLog(first.t1, offer.b[58..62], d'.lease.dhcpip, d'.lease.gwip)
  {
    hide Received;
    var d1 := DhcpClient.Step(d, cf, first).0;
    WaitsOn(d1, cf, w1);
    StepThenQuiet(d, cf, first, w1);
    AnswerLeadsOn(d1, cf, offer);
    TimerStep(d1, cf, offer);
    var d2 := DhcpClient.Step(d1, cf, offer).0;
    WaitsOn(d2, cf, w2);
    StepThenQuiet(d1, cf, offer, w2);
    AnswerLeadsOn(d2, cf, ack);
    StepThenQuiet(d2, cf, ack, []);
    hide DhcpClient.Run;
    RunOn(d, cf, [first] + w1, [offer] + w2);
    RunOn(d, cf, ([first] + w1) + ([offer] + w2), [ack] + []);
    var e1 := DhcpClient.Step(d1, cf, offer).1;
    assert e1 == [e1[0], e1[1]];
  }

  /** A lease is kept without a word to its end, and renewed by the first call from then on: a request to the
      server, from the address. */
  lemma {:induction false} BoundToTheEnd(d: State, cf: Config, ins: seq<DhcpClient.Input>, j: DhcpClient.Input)
    requires d.phase == BOUND && InputsOk(ins) && InputOk(j)
    requires var end := d.leaseStart + d.lease.leaseTime;
             end < 0x1_0000_0000 && (forall i :: i in ins ==> i.t1 < end) && j.t1 >= end
    ensures DhcpClient.Run(d, cf, ins) == (d, [])
    ensures DhcpClient.Step(d, cf, j)
         == (d.(phase := RENEWING, timer := j.t2), [Sent(BOUND, Message(3, d.xid, d.lease.dhcpip, d.myip, None))])
  {
    if ins != [] {
      var n := |ins| - 1;
      assert ins[n] in ins && forall i :: i in ins[..n] ==> i in ins;
      BoundToTheEnd(d, cf, ins[..n], j);
      assert DhcpClient.Step(d, cf, ins[n]) == (d, []);
      var none: seq<Event> := [];
      assert none + none == none;
    }
  }

  /** The length of a lease: options 51 and 58 name seconds, most significant byte first; they are kept as
      milliseconds in 32 bits. */
  lemma LeaseInMillis(s: Lease, code: byte, a: byte, b: byte, c: byte, d: byte, custom: Option<byte>)
    requires code in {51, 58}
    ensures ApplyOpt(s, Opt(code, [a, b, c, d]), custom).leaseTime
         == (0x100_0000 * (a as int) + 0x1_0000 * (b as int) + 0x100 * (c as int) + d as int) * 1000 % 0x1_0000_0000
  {
    assert Be32([a, b, c, d]) == 0x100_0000 * (a as int) + 0x1_0000 * (b as int) + 0x100 * (c as int) + d as int;
  }

  /** The data of the options with a code, in order; of the codes that the client takes itself, none. */
  function DataOf(opts: seq<Opt>, custom: Option<byte>): seq<seq<byte>> {
    if opts == [] then [] else CalledWith(opts[0], custom) + DataOf(opts[1..], custom)
  }

  function CalledWith(o: Opt, custom: Option<byte>): seq<seq<byte>> {
    if custom == Some(o.code) && o.code !in {1, 3, 6, 51, 54, 58} then [o.data] else []
  }

  lemma CustomCall(s: Lease, o: Opt, custom: Option<byte>)
    requires TakesFour(o.code) ==> |o.data| >= 4
    ensures ApplyOpt(s, o, custom).custom == s.custom + CalledWith(o, custom)
  {
    hide Millis;
    hide Be32;
  }

  /** The callback for a custom option gets the data of every option of that code, in order, unless the client
      takes that code for itself; without a callback nothing is called. */
  lemma {:induction false} CustomCalls(s: Lease, opts: seq<Opt>, custom: Option<byte>)
    requires Proper(opts)
    ensures ApplyAll(s, opts, custom).custom == s.custom + DataOf(opts, custom)
    decreases |opts|
  {
    hide ApplyOpt;
    hide CalledWith;
    hide Short;
    if opts != [] {
      assert opts[0] in opts && forall o :: o in opts[1..] ==> o in opts;
      CustomCall(s, opts[0], custom);
      CustomCalls(ApplyOpt(s, opts[0], custom), opts[1..], custom);
      assert (s.custom + CalledWith(opts[0], custom)) + DataOf(opts[1..], custom)
          == s.custom + (CalledWith(opts[0], custom) + DataOf(opts[1..], custom));
    } else {
      assert s.custom + [] == s.custom;
    }
  }

  // ---- frames, byte by byte

  /** An answer to the client: from port 67, with its xid at byte 46 and options from byte 282 on, one of which is
      the message type, is received as that type. */
  lemma AnswerReceived(b: seq<byte>, len: u16, xid: u32, opts: seq<Opt>, t: byte)
    requires BufferOk(b, len) && len >= 283 && b[35] == 67
    requires b[46] as int + 0x100 * (b[47] as int) + 0x1_0000 * (b[48] as int) + 0x100_0000 * (b[49] as int) == xid
    requires Proper(opts) && ListAt(b, 282, len, opts) && Opt(53, [t]) in opts
    ensures Received(b, len, xid, t)
  {
    var k :| 0 <= k < |opts| && opts[k] == Opt(53, [t]);
    FindTypeInPrefix(b, 282, len, opts, t);
  }

  /** A frame shorter than 70 bytes, from another port or with another xid is none. */
  lemma OthersIgnored(b: seq<byte>, len: u16, xid: u32, t: byte)
    requires BufferOk(b, len)
    requires len < 70 || b[35] != 67
             || b[46] as int + 0x100 * (b[47] as int) + 0x1_0000 * (b[48] as int) + 0x100_0000 * (b[49] as int) != xid
    ensures !Received(b, len, xid, t)
  {
  }

  /** From 70 bytes on the length plays no part in the first option: the walk starts at byte 282 in any case. */
  lemma FirstOptionFound(b: seq<byte>, len: u16, xid: u32, t: byte)
    requires BufferOk(b, len) && len >= 70 && b[35] == 67 && b[282] == 53 && b[284] == t
    requires b[46] as int + 0x100 * (b[47] as int) + 0x1_0000 * (b[48] as int) + 0x100_0000 * (b[49] as int) == xid
    ensures Received(b, len, xid, t)
  {
  }

  /** The message that `send_dhcp_message` builds, field by field. */
  lemma MessageLayout(m: Message, cf: Config)
    requires ConfigOk(cf)
    ensures var p := Payload(m, cf);
            && p[..4] == [1, 1, 6, 0] && p[4..8] == Le32(m.xid) && p[8..12] == [0, 0, 0, 0] && p[12..16] == m.ciaddr
            && p[16..28] == Zeros(12) && p[28..34] == cf.mac && p[34..236] == Zeros(202)
            && p[236..243] == [99, 130, 83, 99, 53, 1, m.kind] && p[|p| - 1] == 255
  {
    FixedLayout(m, cf);
    OptionsStart(m, cf);
    hide Fixed;
    hide Encode;
    hide Options;
    MessageParts(Payload(m, cf), Fixed(m, cf), Encode(Options(m, cf)));
  }

  lemma OptionsStart(m: Message, cf: Config)
    requires ConfigOk(cf)
    ensures |Encode(Options(m, cf))| >= 3 && Encode(Options(m, cf))[..3] == [53, 1, m.kind]
  {
    OptionBytes(m, cf);
    hide Encode;
    hide RequestedBytes;
    hide WantedBytes;
  }

  lemma MessageParts(p: seq<byte>, f: seq<byte>, e: seq<byte>)
    requires p == f + COOKIE + e + [255] && |f| == 236 && |e| >= 3
    ensures p[..4] == f[..4] && p[4..8] == f[4..8] && p[8..12] == f[8..12] && p[12..16] == f[12..16]
    ensures p[16..28] == f[16..28] && p[28..34] == f[28..34] && p[34..236] == f[34..236]
    ensures p[236..243] == COOKIE + e[..3] && p[|p| - 1] == 255
  {
  }

  /** Its options, byte by byte, behind the cookie and the message type. */
  lemma OptionLayout(m: Message, cf: Config)
    requires ConfigOk(cf)
    ensures Encode(Options(m, cf))
         == [53, 1, m.kind] + ([61, 7, 1] + cf.mac) + ([12, 10] + cf.hostname)
            + (match m.requested case Some(r) => [50, 4] + r.0 + [54, 4] + r.1 case None => [])
            + if cf.customOpt != 0 then [55, 4, 1, 3, 6, cf.customOpt] else [55, 3, 1, 3, 6]
  {
    OptionBytes(m, cf);
  }

  lemma FixedLayout(m: Message, cf: Config)
    ensures var f := Fixed(m, cf);
            && f[..4] == [1, 1, 6, 0] && f[4..8] == Le32(m.xid) && f[8..12] == [0, 0, 0, 0] && f[12..16] == m.ciaddr
            && f[16..28] == Zeros(12) && f[28..34] == cf.mac && f[34..236] == Zeros(202)
  {
  }
}
