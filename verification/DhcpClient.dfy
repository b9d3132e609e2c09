/** The DHCP client's timed state machine (dhcp.cpp; section 4.4 of RFC 2131). */
module DhcpClient {
  import opened Bytes
  import opened Slices
  import opened Gateway
  import opened DhcpOptions
  import opened Udp

  datatype Phase = INIT | SELECTING | REQUESTING | BOUND | RENEWING

  const REQUEST_TIMEOUT := 10000

  const NO_IP: Ip := [0, 0, 0, 0]
  const ALL_ONES: Ip := [0xff, 0xff, 0xff, 0xff]

  datatype State = State(phase: Phase, xid: u32, timer: u32, leaseStart: u32, myip: Ip, lease: Lease)

  /** What never changes: our MAC, the ten bytes of host name sent, and the custom option asked for
      (0 for none), with or without a callback. */
  datatype Config = Config(mac: Mac, hostname: seq<byte>, customOpt: byte, hasCallback: bool)

  predicate ConfigOk(cf: Config) { |cf.hostname| == 10 }

  function Custom(cf: Config): Option<byte> { if cf.hasCallback then Some(cf.customOpt) else None }

  // ---- messages

  datatype Message = Message(kind: byte, xid: u32, dest: Ip, ciaddr: Ip, requested: Option<(Ip, Ip)>)

  /** What `send_dhcp_message` sends in each state. */
  function MessageFor(d: State): Message {
    Message(if d.phase == INIT then DISCOVER else DHCP_REQUEST, d.xid,
            if d.phase == BOUND then d.lease.dhcpip else ALL_ONES,
            if d.phase == BOUND then d.myip else NO_IP,
            if d.phase == SELECTING then Some((d.myip, d.lease.dhcpip)) else None)
  }

  function Options(m: Message, cf: Config): seq<Opt> {
    [Opt(53, [m.kind]), Opt(61, [1] + cf.mac), Opt(12, cf.hostname)]
    + (match m.requested case Some(r) => [Opt(50, r.0), Opt(54, r.1)] case None => [])
    + [Opt(55, [1, 3, 6] + if cf.customOpt != 0 then [cf.customOpt] else [])]
  }

  function Le32(n: u32): seq<byte> {
    [n % 0x100, n / 0x100 % 0x100, n / 0x1_0000 % 0x100, n / 0x100_0000]
  }

  function Zeros(n: nat): seq<byte> { seq(n, _ => 0) }

  const COOKIE: seq<byte> := [99, 130, 83, 99]

  lemma {:induction false} EncodeConcat(a: seq<Opt>, b: seq<Opt>)
    ensures Encode(a + b) == Encode(a) + Encode(b)
  {
    if a == [] {
      assert a + b == b;
    } else {
      EncodeConcat(a[1..], b);
      assert (a + b)[0] == a[0] && (a + b)[1..] == a[1..] + b;
    }
  }

  lemma EncodeOne(o: Opt)
    ensures Encode([o]) == EncodeOpt(o)
  {
    assert [o][1..] == [];
  }

  function RequestedBytes(m: Message): seq<byte> {
    match m.requested case Some(r) => [50, 4] + r.0 + [54, 4] + r.1 case None => []
  }

  function WantedBytes(cf: Config): seq<byte> {
    if cf.customOpt != 0 then [55, 4, 1, 3, 6, cf.customOpt] else [55, 3, 1, 3, 6]
  }

  lemma OptionsAreProper(m: Message, cf: Config)
    requires ConfigOk(cf)
    ensures Proper(Options(m, cf)) && |Options(m, cf)| >= 4 && Options(m, cf)[0] == Opt(53, [m.kind])
    ensures forall i :: 1 <= i < |Options(m, cf)| ==> Options(m, cf)[i].code != 53
  {
    var opts := Options(m, cf);
    var w := Opt(55, [1, 3, 6] + if cf.customOpt != 0 then [cf.customOpt] else []);
    if m.requested.Some? {
      assert opts == [Opt(53, [m.kind]), Opt(61, [1] + cf.mac), Opt(12, cf.hostname),
                      Opt(50, m.requested.value.0), Opt(54, m.requested.value.1), w];
    } else {
      assert opts == [Opt(53, [m.kind]), Opt(61, [1] + cf.mac), Opt(12, cf.hostname), w];
    }
  }

  lemma EncodeFive(a: Opt, b: Opt, c: Opt, r: seq<Opt>, w: Opt)
    ensures Encode([a, b, c] + r + [w]) == EncodeOpt(a) + EncodeOpt(b) + EncodeOpt(c) + Encode(r) + EncodeOpt(w)
  {
    hide EncodeOpt;
    EncodeOne(a);
    EncodeOne(b);
    EncodeOne(c);
    EncodeOne(w);
    EncodeConcat([a], [b]);
    EncodeConcat([a, b], [c]);
    EncodeConcat([a, b, c], r);
    EncodeConcat([a, b, c] + r, [w]);
    assert [a] + [b] == [a, b] && [a, b] + [c] == [a, b, c];
  }

  /** The option bytes in the order the code appends them. */
  lemma OptionBytes(m: Message, cf: Config)
    requires ConfigOk(cf)
    ensures Encode(Options(m, cf))
         == [53, 1, m.kind] + ([61, 7, 1] + cf.mac) + ([12, 10] + cf.hostname) + RequestedBytes(m) + WantedBytes(cf)
  {
    hide Encode;
    hide RequestedBytes;
    var (a, b, c) := (Opt(53, [m.kind]), Opt(61, [1] + cf.mac), Opt(12, cf.hostname));
    var r: seq<Opt> := match m.requested case Some(r) => [Opt(50, r.0), Opt(54, r.1)] case None => [];
    var w := Opt(55, [1, 3, 6] + if cf.customOpt != 0 then [cf.customOpt] else []);
    EncodeFive(a, b, c, r, w);
    EncodeRequested(m, r);
    assert EncodeOpt(a) == [53, 1, m.kind] && EncodeOpt(b) == [61, 7, 1] + cf.mac;
    assert EncodeOpt(c) == [12, 10] + cf.hostname && EncodeOpt(w) == WantedBytes(cf);
  }

  lemma EncodeRequested(m: Message, r: seq<Opt>)
    requires r == match m.requested case Some(r) => [Opt(50, r.0), Opt(54, r.1)] case None => []
    ensures Encode(r) == RequestedBytes(m)
  {
    if m.requested.Some? {
      EncodeOne(r[0]);
      EncodeOne(r[1]);
      EncodeConcat([r[0]], [r[1]]);
      assert r == [r[0]] + [r[1]];
    }
  }

  /** The `DHCPdata` record. */
  function Fixed(m: Message, cf: Config): (r: seq<byte>)
    ensures |r| == 236
  {
    [1, 1, 6, 0] + Le32(m.xid) + Zeros(4) + m.ciaddr + Zeros(12) + cf.mac + Zeros(202)
  }

  /** The UDP data: the fixed part of 236 bytes, the cookie, the options, the end mark. */
  function Payload(m: Message, cf: Config): (r: seq<byte>)
    requires ConfigOk(cf)
    ensures |r| == 270 + (if m.requested.Some? then 12 else 0) + (if cf.customOpt != 0 then 1 else 0) < 300
  {
    OptionBytes(m, cf);
    Fixed(m, cf) + COOKIE + Encode(Options(m, cf)) + [255]
  }

  /** A message built by `send_dhcp_message`, received as a frame from the server port with the xid it
      carries, is recognised as exactly the type it was sent with. */
  lemma SentTypeFound(b: seq<byte>, m: Message, cf: Config, t: byte)
    requires ConfigOk(cf) && BufferOk(b, UDP_DATA_P + |Payload(m, cf)|)
    requires b[UDP_DATA_P..UDP_DATA_P + |Payload(m, cf)|] == Payload(m, cf)
    requires b[UDP_SRC_PORT_L_P] == 67
    ensures Received(b, UDP_DATA_P + |Payload(m, cf)|, m.xid, t) <==> t == m.kind
  {
    hide FindType;
    var (pay, opts) := (Payload(m, cf), Options(m, cf));
    OptionBytes(m, cf);
    OptionsAreProper(m, cf);
    var (n, e) := (|pay|, Encode(opts));
    PayloadParts(m, cf);
    SubSlice(b, UDP_DATA_P, n, 4, 8);
    SubSlice(b, UDP_DATA_P, n, 240, 240 + |e|);
    assert b[UDP_DATA_P..UDP_DATA_P + n][n - 1] == b[UDP_DATA_P + n - 1];
    XidRoundTrip(b, m.xid);
    FindTypeInList(b, OPTIONS_P, UDP_DATA_P + n, opts, t);
  }

  lemma PayloadParts(m: Message, cf: Config)
    requires ConfigOk(cf)
    ensures var (pay, e) := (Payload(m, cf), Encode(Options(m, cf)));
            |pay| == 241 + |e| && pay[4..8] == Le32(m.xid) && pay[240..240 + |e|] == e && pay[240 + |e|] == 255
  {
  }

  // ---- receiving

  /** The xid as the little-endian machine reads it. */
  function XidOf(b: seq<byte>): u32
    requires |b| >= XID_P + 4
  {
    b[XID_P] as int + 0x100 * (b[XID_P + 1] as int) + 0x1_0000 * (b[XID_P + 2] as int) + 0x100_0000 * (b[XID_P + 3] as int)
  }

  lemma XidRoundTrip(b: seq<byte>, xid: u32)
    requires |b| >= XID_P + 4 && b[XID_P..XID_P + 4] == Le32(xid)
    ensures XidOf(b) == xid
  {
    assert b[XID_P] == b[XID_P..XID_P + 4][0] && b[XID_P + 1] == b[XID_P..XID_P + 4][1];
    assert b[XID_P + 2] == b[XID_P..XID_P + 4][2] && b[XID_P + 3] == b[XID_P..XID_P + 4][3];
    var (x, y) := (xid / 0x100, xid / 0x1_0000);
    assert xid == x * 0x100 + xid % 0x100 && x == y * 0x100 + x % 0x100 && y / 0x100 == xid / 0x100_0000;
  }

  predicate BufferOk(b: seq<byte>, len: u16) { |b| >= OPTIONS_P + 257 && len + 257 <= |b| }

  /** `dhcp_received_message_type`. */
  predicate Received(b: seq<byte>, len: u16, xid: u32, t: byte)
    requires BufferOk(b, len)
  {
    len >= 70 && b[UDP_SRC_PORT_L_P] == 67 && XidOf(b) == xid && FindType(b, OPTIONS_P, len, t)
  }

  // ---- one step

  datatype Event =
    | Sent(phase: Phase, m: Message)
    | Offered(xid: u32, ip: Ip, server: Ip)   // an offer taken, and whom it makes the server
    | Acked(xid: u32)
    | GatewaySet(ip: Ip)
    | Broadcasts(on: bool)

  /** The receive buffer, the length of the frame in it, and the clock at its first and second reading. */
  datatype Input = Input(b: seq<byte>, len: u16, t1: u32, t2: u32)

  predicate InputOk(i: Input) { BufferOk(i.b, i.len) && i.t1 <= i.t2 }

  function TakeOffer(d: State, cf: Config, i: Input): State
    requires InputOk(i)
  {
    d.(myip := i.b[YIADDR_P..YIADDR_P + 4], lease := Walk(i.b, OPTIONS_P, i.len, d.lease, Custom(cf)))
  }

  predicate TimedOut(d: State, t: u32) { t > (d.timer + REQUEST_TIMEOUT) % TWO32 }

  function Step(d: State, cf: Config, i: Input): (State, seq<Event>)
    requires InputOk(i)
  {
    match d.phase
    case BOUND =>
      if i.t1 >= (d.leaseStart + d.lease.leaseTime) % TWO32
      then (d.(phase := RENEWING, timer := i.t2), [Sent(BOUND, MessageFor(d))])
      else (d, [])
    case INIT =>
      var d1 := d.(xid := i.t1, myip := NO_IP);
      (d1.(phase := SELECTING, timer := i.t2), [Sent(INIT, MessageFor(d1)), Broadcasts(true)])
    case SELECTING =>
      if Received(i.b, i.len, d.xid, OFFER) then
        var d1 := TakeOffer(d, cf, i);
        (d1.(phase := REQUESTING, timer := i.t1),
         [Offered(d.xid, d1.myip, d1.lease.dhcpip), Sent(SELECTING, MessageFor(d1))])
      else if TimedOut(d, i.t1) then (d.(phase := INIT), []) else (d, [])
    case REQUESTING => StepWaiting(d, i)
    case RENEWING => StepWaiting(d, i)
  }

  function StepWaiting(d: State, i: Input): (State, seq<Event>)
    requires InputOk(i)
  {
    if Received(i.b, i.len, d.xid, DHCP_ACK) then
      (d.(leaseStart := i.t1, phase := BOUND),
       [Acked(d.xid), Broadcasts(false)] + if d.lease.gwip[0] != 0 then [GatewaySet(d.lease.gwip)] else [])
    else if TimedOut(d, i.t1) then (d.(phase := INIT), []) else (d, [])
  }

  // ---- runs

  function Run(d: State, cf: Config, ins: seq<Input>): (State, seq<Event>)
    requires forall i :: i in ins ==> InputOk(i)
  {
    if ins == [] then (d, [])
    else
      var n := |ins| - 1;
      var (d1, log) := Run(d, cf, ins[..n]);
      var (d2, es) := Step(d1, cf, ins[n]);
      (d2, log + es)
  }

  predicate IsDiscover(e: Event) { e.Sent? && e.m.kind == DISCOVER }

  /** The last DISCOVER of the run is at `i` and carries `xid`. */
  ghost predicate DiscoverAt(log: seq<Event>, xid: u32, i: int) {
    && 0 <= i < |log| && IsDiscover(log[i]) && log[i].m.xid == xid
    && forall k :: i < k < |log| ==> !IsDiscover(log[k])
  }

  ghost predicate NoOfferSince(log: seq<Event>, i: nat) { forall k :: i < k < |log| ==> !log[k].Offered? }

  /** Of all offers, the only one accepted since is at `j`. */
  ghost predicate OfferAt(log: seq<Event>, xid: u32, ip: Ip, server: Ip, i: int, j: int) {
    && DiscoverAt(log, xid, i) && i < j < |log| && log[j] == Offered(xid, ip, server)
    && forall k :: i < k < |log| && log[k].Offered? ==> k == j
  }

  ghost predicate AckAt(log: seq<Event>, xid: u32, j: int, k: int) { 0 <= j < k < |log| && log[k] == Acked(xid) }

  /** The broadcast / option 50 / option 54 / ciaddr table for a message sent at `k`. */
  ghost predicate TableRow(log: seq<Event>, k: int)
    requires 0 <= k < |log| && log[k].Sent?
  {
    var m := log[k].m;
    match log[k].phase
    case INIT => m.kind == DISCOVER && m.dest == ALL_ONES && m.requested.None? && m.ciaddr == NO_IP
    case SELECTING =>   // names address and server of the offer just taken
      && m.kind == DHCP_REQUEST && m.dest == ALL_ONES && m.ciaddr == NO_IP && m.requested.Some?
      && k > 0 && log[k - 1] == Offered(m.xid, m.requested.value.0, m.requested.value.1)
    case BOUND =>       // goes to the server, from the address, of the last offer taken
      && m.kind == DHCP_REQUEST && m.requested.None?
      && exists j :: OfferBefore(log, j, k, m.xid, m.ciaddr, m.dest)
    case _ => false
  }

  /** The last offer accepted before `k` is at `j`. */
  ghost predicate OfferBefore(log: seq<Event>, j: int, k: int, xid: u32, ip: Ip, server: Ip) {
    0 <= j < k <= |log| && log[j] == Offered(xid, ip, server) && forall l :: j < l < k ==> !log[l].Offered?
  }

  ghost predicate Table(log: seq<Event>) { forall k :: 0 <= k < |log| && log[k].Sent? ==> TableRow(log, k) }

  /** What every reachable state knows about its own history. */
  ghost predicate History(d: State, log: seq<Event>) {
    match d.phase
    case INIT => true
    case SELECTING =>
      d.myip == NO_IP && exists i :: DiscoverAt(log, d.xid, i) && NoOfferSince(log, i)
    case REQUESTING => exists i, j :: OfferAt(log, d.xid, d.myip, d.lease.dhcpip, i, j)
    case _ => exists i, j, k :: OfferAt(log, d.xid, d.myip, d.lease.dhcpip, i, j) && AckAt(log, d.xid, j, k)
  }

  lemma TableGrows(log: seq<Event>, es: seq<Event>)
    requires Table(log)
    requires forall k :: |log| <= k < |log + es| && (log + es)[k].Sent? ==> TableRow(log + es, k)
    ensures Table(log + es)
  {
    var all := log + es;
    forall k | 0 <= k < |all| && all[k].Sent? ensures TableRow(all, k) {
      if k < |log| {
        assert TableRow(log, k) && all[..|log|] == log;
        if log[k].phase == BOUND {
          var j :| OfferBefore(log, j, k, log[k].m.xid, log[k].m.ciaddr, log[k].m.dest);
          assert OfferBefore(all, j, k, all[k].m.xid, all[k].m.ciaddr, all[k].m.dest);
        }
      }
    }
  }

  lemma QuietGrows(log: seq<Event>, es: seq<Event>, xid: u32, ip: Ip, server: Ip, i: int, j: int)
    requires OfferAt(log, xid, ip, server, i, j) && forall e :: e in es ==> !IsDiscover(e) && !e.Offered?
    ensures OfferAt(log + es, xid, ip, server, i, j)
  {
    var all := log + es;
    assert forall k :: |log| <= k < |all| ==> all[k] in es;
  }

  lemma InitStep(d: State, cf: Config, i: Input, log: seq<Event>)
    requires InputOk(i) && Table(log) && d.phase == INIT
    ensures var (d', es) := Step(d, cf, i); Table(log + es) && History(d', log + es)
  {
    var (d', es) := Step(d, cf, i);
    TableGrows(log, es);
    assert DiscoverAt(log + es, d'.xid, |log|) && NoOfferSince(log + es, |log|);
  }

  lemma SelectingStep(d: State, cf: Config, i: Input, log: seq<Event>)
    requires InputOk(i) && Table(log) && d.phase == SELECTING && History(d, log)
    ensures var (d', es) := Step(d, cf, i); Table(log + es) && History(d', log + es)
  {
    hide Received;
    var (d', es) := Step(d, cf, i);
    var x :| DiscoverAt(log, d.xid, x) && NoOfferSince(log, x);
    TableGrows(log, es);
    if d'.phase == REQUESTING {
      assert DiscoverAt(log + es, d.xid, x);
      assert OfferAt(log + es, d.xid, d'.myip, d'.lease.dhcpip, x, |log|);
    } else {
      assert log + es == log;
    }
  }

  lemma WaitingStep(d: State, cf: Config, i: Input, log: seq<Event>)
    requires InputOk(i) && Table(log) && d.phase in {REQUESTING, RENEWING} && History(d, log)
    ensures var (d', es) := Step(d, cf, i); Table(log + es) && History(d', log + es)
  {
    hide Received;
    var (d', es) := Step(d, cf, i);
    TableGrows(log, es);
    if d'.phase == BOUND {
      var x, y :| OfferAt(log, d.xid, d.myip, d.lease.dhcpip, x, y);
      QuietGrows(log, es, d.xid, d.myip, d.lease.dhcpip, x, y);
      assert AckAt(log + es, d.xid, y, |log|);
    } else {
      assert log + es == log;
    }
  }

  lemma BoundStep(d: State, cf: Config, i: Input, log: seq<Event>)
    requires InputOk(i) && Table(log) && d.phase == BOUND && History(d, log)
    ensures var (d', es) := Step(d, cf, i); Table(log + es) && History(d', log + es)
  {
    var (d', es) := Step(d, cf, i);
    if es == [] {
      assert log + es == log;
    } else {
      var x, y, z :| OfferAt(log, d.xid, d.myip, d.lease.dhcpip, x, y) && AckAt(log, d.xid, y, z);
      QuietGrows(log, es, d.xid, d.myip, d.lease.dhcpip, x, y);
      assert AckAt(log + es, d.xid, y, z);
      assert OfferBefore(log + es, y, |log|, d.xid, d.myip, d.lease.dhcpip);
      TableGrows(log, es);
    }
  }

  /** Every step keeps the history. */
  lemma StepKeepsHistory(d: State, cf: Config, i: Input, log: seq<Event>)
    requires InputOk(i) && Table(log) && History(d, log)
    ensures var (d', es) := Step(d, cf, i); Table(log + es) && History(d', log + es)
  {
    hide Step;
    match d.phase
    case INIT => InitStep(d, cf, i, log);
    case SELECTING => SelectingStep(d, cf, i, log);
    case BOUND => BoundStep(d, cf, i, log);
    case _ => WaitingStep(d, cf, i, log);
  }

  /** In every reachable state: SELECTING has no address and an open DISCOVER with the current xid; from
      REQUESTING on address and server are those of the one offer accepted with that xid, from BOUND on it
      has been acknowledged; and every message sent follows the table. */
  lemma {:induction false} RunHistory(d: State, cf: Config, ins: seq<Input>)
    requires d.phase == INIT && forall i :: i in ins ==> InputOk(i)
    ensures var (d', log) := Run(d, cf, ins); Table(log) && History(d', log)
  {
    hide Step;
    if ins != [] {
      var n := |ins| - 1;
      RunHistory(d, cf, ins[..n]);
      var (d1, log) := Run(d, cf, ins[..n]);
      assert ins[n] in ins;
      StepKeepsHistory(d1, cf, ins[n], log);
    }
  }

  /** The server of an offer is the one its last option 54 names; an offer without that option leaves the
      server that was there before. */
  lemma ServerOfOffer(d: State, cf: Config, i: Input, opts: seq<Opt>)
    requires InputOk(i) && Proper(opts) && OPTIONS_P < i.len && ListAt(i.b, OPTIONS_P, i.len, opts)
    ensures TakeOffer(d, cf, i).lease.dhcpip
         == match LastOf(opts, {54}) case Some(data) => (if |data| >= 4 then data[..4] else data) case None => d.lease.dhcpip
    ensures match LastOf(opts, {54}) case Some(data) => |data| >= 4 case None => true
  {
    WalkIsFold(i.b, OPTIONS_P, i.len, opts, d.lease, Custom(cf));
    LastAddressWins(d.lease, opts, Custom(cf));
    LastIsProper(opts, {54});
  }

  lemma {:induction false} LastIsProper(opts: seq<Opt>, codes: set<byte>)
    requires Proper(opts) && forall c :: c in codes ==> TakesFour(c)
    ensures match LastOf(opts, codes) case Some(data) => |data| >= 4 case None => true
    decreases |opts|
  {
    if opts != [] {
      assert opts[|opts| - 1] in opts;
      LastIsProper(opts[..|opts| - 1], codes);
    }
  }

  // ---- time

  /** A step leaves the machine BOUND only before the end of its lease, exactly unless an ACK has just
      started a lease of length zero. The clock must not wrap before the lease ends. */
  lemma BoundBeforeLeaseEnds(d: State, cf: Config, i: Input)
    requires InputOk(i)
    requires var d' := Step(d, cf, i).0; d'.phase == BOUND && d'.leaseStart + d'.lease.leaseTime < TWO32
    ensures var d' := Step(d, cf, i).0;
            i.t1 < d'.leaseStart + d'.lease.leaseTime <==> d.phase == BOUND || d'.lease.leaseTime > 0
  {
  }

  /** If the end of the lease does wrap, a bound machine renews as soon as the clock reaches the wrapped
      value, however much of the lease is left. */
  lemma WrappedLeaseRenewsEarly(d: State, cf: Config, i: Input)
    requires InputOk(i) && d.phase == BOUND && d.leaseStart + d.lease.leaseTime >= TWO32
    ensures Step(d, cf, i).0.phase == RENEWING <==> i.t1 >= d.leaseStart + d.lease.leaseTime - TWO32
  {
  }

  /** The message a phase waits for. */
  function Awaited(p: Phase): byte { if p == SELECTING then OFFER else DHCP_ACK }

  /** A waiting state gives up exactly when its message has not come and more than ten seconds have
      passed since its timer; the next step then starts over with a DISCOVER whose xid is the clock. */
  lemma TimeoutStartsOver(d: State, cf: Config, i: Input, j: Input)
    requires InputOk(i) && InputOk(j) && d.phase in {SELECTING, REQUESTING, RENEWING} && d.timer + REQUEST_TIMEOUT < TWO32
    ensures Step(d, cf, i).0.phase == INIT
            <==> !Received(i.b, i.len, d.xid, Awaited(d.phase)) && i.t1 > d.timer + REQUEST_TIMEOUT
    ensures Step(d, cf, i).0.phase == INIT ==>
              var (d2, es) := Step(Step(d, cf, i).0, cf, j);
              && d2.phase == SELECTING && d2.xid == j.t1 && d2.myip == NO_IP
              && es[0] == Sent(INIT, Message(DISCOVER, j.t1, ALL_ONES, NO_IP, None))
              && (j.t1 > d.xid ==> d2.xid != d.xid)
  {
  }
}
