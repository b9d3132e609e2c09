/** Address resolution in the packet loop: the gateway's MAC, and the LAN peers' (tcpip.cpp). */
module Gateway {
  import opened Bytes

  type Ip = s: seq<byte> | |s| == 4 witness [0, 0, 0, 0]
  type Mac = s: seq<byte> | |s| == 6 witness [0, 0, 0, 0, 0, 0]

  /** The bits of `waitgwmac`. */
  datatype Wait = Wait(initial: bool, have: bool, refreshing: bool, accept: bool)

  datatype Gw = Gw(
    gwip: Ip, dnsip: Ip, hisip: Ip, wait: Wait, gwmac: Mac, destmac: Mac, delaycnt: int,
    hasDns: bool, waitingDns: bool, hasDest: bool, waitingDest: bool)

  /** Our own addresses. */
  datatype Own = Own(ip: Ip, mac: Mac, mask: Ip)

  datatype GwEvent =
    | SetGw(ip: Ip)
    | WhoHas(ip: Ip)
    | Heard(ip: Ip, mac: Mac)   // an ARP reply came in

  const REQUEST: byte := 1
  const REPLY: byte := 2

  function Bits(a: byte): bv8 { a as bv8 }

  function And(a: bv8, b: bv8): bv8 { a & b }

  function Masked(a: byte, m: byte): bv8 { And(Bits(a), Bits(m)) }

  /** `is_lan`. */
  predicate IsLan(own: Own, ip: Ip) {
    own.ip[0] != 0 && ip[0] != 0 && forall i :: 0 <= i < 4 ==> Masked(own.ip[i], own.mask[i]) == Masked(ip[i], own.mask[i])
  }

  /** `delaycnt` is a signed 16-bit counter. */
  function Next16(n: int): int { if n == 0x7fff then -0x8000 else n + 1 }

  function SetGwIp(g: Gw, ip: Ip): Gw {
    g.(delaycnt := 0, wait := Wait(true, false, false, false), gwip := ip)
  }

  /** A round without a packet: ask for the gateway when the counter comes round. */
  function AskGateway(g: Gw, linkUp: bool): (Gw, seq<GwEvent>) {
    var g1 := g.(delaycnt := Next16(g.delaycnt));
    if (g.wait.initial || g.wait.refreshing) && g.delaycnt == 0 && linkUp
    then (g1.(wait := g.wait.(accept := true)), [WhoHas(g.gwip)]) else (g1, [])
  }

  /** Then ask, once, for a DNS server and a destination on the LAN. */
  function AskPeers(g: Gw, own: Own): (Gw, seq<GwEvent>) {
    var dns := IsLan(own, g.dnsip) && !g.hasDns && !g.waitingDns;
    var dest := IsLan(own, g.hisip) && !g.hasDest && !g.waitingDest;
    (g.(waitingDns := g.waitingDns || dns, waitingDest := g.waitingDest || dest),
     (if dns then [WhoHas(g.dnsip)] else []) + if dest then [WhoHas(g.hisip)] else [])
  }

  function Idle(g: Gw, own: Own, linkUp: bool): (Gw, seq<GwEvent>) {
    var (g1, e1) := AskGateway(g, linkUp);
    var (g2, e2) := AskPeers(g1, own);
    (g2, e1 + e2)
  }

  /** The opcode, sender address and sender MAC that the buffer shows after a request was answered in
      it: the answer's own. */
  function Shown(own: Own, op: byte, ip: Ip, mac: Mac): (byte, Ip, Mac) {
    if op == REQUEST then (REPLY, own.ip, own.mac) else (op, ip, mac)
  }

  function LearnGateway(g: Gw, shown: byte, ip: Ip, mac: Mac): Gw {
    if g.wait.accept && shown == REPLY && ip == g.gwip
    then g.(gwmac := mac, wait := Wait(false, true, false, false)) else g
  }

  function LearnDns(g: Gw, ip: Ip, mac: Mac): Gw {
    if !g.hasDns && g.waitingDns && ip == g.dnsip then g.(destmac := mac, hasDns := true, waitingDns := false) else g
  }

  function LearnDest(g: Gw, ip: Ip, mac: Mac): Gw {
    if !g.hasDest && g.waitingDest && ip == g.hisip
    then g.(destmac := mac, hasDest := true, waitingDest := false) else g
  }

  /** An ARP frame for our address. */
  function Arp(g: Gw, own: Own, op: byte, ip0: Ip, mac0: Mac): (Gw, seq<GwEvent>) {
    var (shown, ip, mac) := Shown(own, op, ip0, mac0);
    (LearnDest(LearnDns(LearnGateway(g, shown, ip, mac), ip, mac), ip, mac),
     if op == REPLY then [Heard(ip0, mac0)] else [])
  }

  // ---- runs

  /** What happens, and which addresses are ours then: DHCP may change them in between. */
  datatype Input =
    | NoPacket(own: Own, linkUp: bool)
    | ArpFrame(own: Own, op: byte, ip: Ip, mac: Mac)
    | NewGateway(gwip: Ip)

  function Step(g: Gw, i: Input): (Gw, seq<GwEvent>) {
    match i
    case NoPacket(own, up) => Idle(g, own, up)
    case ArpFrame(own, op, ip, mac) => Arp(g, own, op, ip, mac)
    case NewGateway(ip) => (SetGwIp(g, ip), [SetGw(ip)])
  }

  function Run(g: Gw, ins: seq<Input>): (Gw, seq<GwEvent>) {
    if ins == [] then (g, [])
    else
      var n := |ins| - 1;
      var (g1, log) := Run(g, ins[..n]);
      var (g2, es) := Step(g1, ins[n]);
      (g2, log + es)
  }

  /** While a reply from the gateway is awaited, a request comes in that we answer from its very address. */
  predicate OwnAnswer(g: Gw, own: Own, op: byte) { g.wait.accept && op == REQUEST && g.gwip == own.ip }

  /** That never happens in the run. */
  ghost predicate NoOwnAnswer(g: Gw, ins: seq<Input>) {
    forall n :: 0 <= n < |ins| && ins[n].ArpFrame? ==> !OwnAnswer(Run(g, ins[..n]).0, ins[n].own, ins[n].op)
  }

  /** Since the last change of gateway, `ip` was asked for at `i`. */
  ghost predicate AskedAt(log: seq<GwEvent>, ip: Ip, i: int) {
    0 <= i < |log| && log[i] == WhoHas(ip) && forall k :: i < k < |log| ==> !log[k].SetGw?
  }

  /** And after that a reply from `ip` named `mac`. */
  ghost predicate AnsweredAt(log: seq<GwEvent>, ip: Ip, mac: Mac, i: int, j: int) {
    AskedAt(log, ip, i) && i < j < |log| && log[j] == Heard(ip, mac)
  }

  ghost predicate Solicited(log: seq<GwEvent>, g: Gw) {
    && (g.wait.accept ==> exists i :: AskedAt(log, g.gwip, i))
    && (g.wait.have ==> exists i, j :: AnsweredAt(log, g.gwip, g.gwmac, i, j))
  }

  predicate FlagsApart(g: Gw) { !(g.hasDns && g.waitingDns) && !(g.hasDest && g.waitingDest) }

  lemma Extend(log: seq<GwEvent>, es: seq<GwEvent>, ip: Ip, mac: Mac)
    requires forall e :: e in es ==> !e.SetGw?
    ensures forall i :: AskedAt(log, ip, i) ==> AskedAt(log + es, ip, i)
    ensures forall i, j :: AnsweredAt(log, ip, mac, i, j) ==> AnsweredAt(log + es, ip, mac, i, j)
  {
  }

  lemma IdleKeeps(g: Gw, own: Own, up: bool, log: seq<GwEvent>)
    requires Solicited(log, g) && FlagsApart(g)
    ensures var (g', es) := Idle(g, own, up); Solicited(log + es, g') && FlagsApart(g')
  {
    var (g', es) := Idle(g, own, up);
    Extend(log, es, g.gwip, g.gwmac);
    if g'.wait.accept && !g.wait.accept {
      assert es[0] == WhoHas(g.gwip);
      assert AskedAt(log + es, g.gwip, |log|);
    }
  }

  lemma ArpKeeps(g: Gw, own: Own, op: byte, ip: Ip, mac: Mac, log: seq<GwEvent>)
    requires Solicited(log, g) && FlagsApart(g) && !OwnAnswer(g, own, op)
    ensures var (g', es) := Arp(g, own, op, ip, mac); Solicited(log + es, g') && FlagsApart(g')
  {
    var (g', es) := Arp(g, own, op, ip, mac);
    Extend(log, es, g.gwip, g.gwmac);
    if g.wait.accept && op == REPLY && ip == g.gwip {
      var i :| AskedAt(log, g.gwip, i);
      assert AskedAt(log + es, g.gwip, i);
      assert AnsweredAt(log + es, g.gwip, mac, i, |log|);
    }
  }

  /** In every run without an answer of our own from the gateway's address, a gateway MAC in use is the
      sender of a reply from the gateway, heard after it was asked for and since the gateway was last set. */
  lemma {:induction false} GatewaySolicited(g: Gw, ins: seq<Input>)
    requires !g.wait.accept && !g.wait.have && FlagsApart(g) && NoOwnAnswer(g, ins)
    ensures var (g', log) := Run(g, ins); Solicited(log, g') && FlagsApart(g')
  {
    if ins != [] {
      var n := |ins| - 1;
      forall k | 0 <= k < n && ins[..n][k].ArpFrame?
        ensures !OwnAnswer(Run(g, ins[..n][..k]).0, ins[..n][k].own, ins[..n][k].op)
      {
        assert ins[..n][..k] == ins[..k];
      }
      GatewaySolicited(g, ins[..n]);
      var (g1, log) := Run(g, ins[..n]);
      StepKeeps(g1, ins[n], log);
    }
  }

  lemma StepKeeps(g: Gw, i: Input, log: seq<GwEvent>)
    requires Solicited(log, g) && FlagsApart(g) && (i.ArpFrame? ==> !OwnAnswer(g, i.own, i.op))
    ensures var (g', es) := Step(g, i); Solicited(log + es, g') && FlagsApart(g')
  {
    match i
    case NoPacket(own, up) => IdleKeeps(g, own, up, log);
    case ArpFrame(own, op, ip, mac) => ArpKeeps(g, own, op, ip, mac, log);
    case NewGateway(ip) =>
  }

  /** The condition is needed: while an answer is awaited, answering anybody's request stores our own
      MAC as the gateway's exactly when the gateway has our own address. */
  lemma OwnAnswerTakenIff(g: Gw, own: Own, ip: Ip, mac: Mac)
    requires g.wait.accept && !g.wait.have
    ensures Arp(g, own, REQUEST, ip, mac).0.wait.have <==> g.gwip == own.ip
    ensures g.gwip == own.ip ==> Arp(g, own, REQUEST, ip, mac).0.gwmac == own.mac
  {
  }

  // ---- asking and being answered

  /** Which addresses are on the LAN: neither begins with 0, and they are equal wherever the mask has a one. */
  lemma LanIff(own: Own, ip: Ip)
    ensures IsLan(own, ip) <==>
            && own.ip[0] != 0 && ip[0] != 0
            && forall i :: 0 <= i < 4 ==> Differ(own.ip[i], ip[i], own.mask[i]) == 0
  {
    hide Masked;
    hide Differ;
    forall i | 0 <= i < 4
      ensures Masked(own.ip[i], own.mask[i]) == Masked(ip[i], own.mask[i]) <==> Differ(own.ip[i], ip[i], own.mask[i]) == 0
    {
      DifferIff(own.ip[i], ip[i], own.mask[i]);
    }
  }

  /** The bits under the mask in which two bytes differ. */
  function Differ(a: byte, b: byte, m: byte): bv8 { And(Xor(Bits(a), Bits(b)), Bits(m)) }

  function Xor(a: bv8, b: bv8): bv8 { a ^ b }

  lemma DifferIff(a: byte, b: byte, m: byte)
    ensures Masked(a, m) == Masked(b, m) <==> Differ(a, b, m) == 0
  {
    hide Bits;
    hide And;
    hide Xor;
    SameBits(Bits(a), Bits(b), Bits(m));
  }

  lemma SameBits(a: bv8, b: bv8, m: bv8)
    ensures And(a, m) == And(b, m) <==> And(Xor(a, b), m) == 0
  {
  }

  /** The rounds without a packet in a run. */
  function Rounds(ins: seq<Input>): nat {
    if ins == [] then 0 else Rounds(ins[..|ins| - 1]) + if ins[|ins| - 1].NoPacket? then 1 else 0
  }

  predicate SameGateway(ins: seq<Input>) { forall i :: 0 <= i < |ins| ==> !ins[i].NewGateway? }

  /** The signed 16-bit counter after `n` rounds. */
  function Counter(n: nat): int { if n % 65536 < 32768 then n % 65536 else n % 65536 - 65536 }

  lemma CountOn(n: nat)
    ensures Counter(n + 1) == Next16(Counter(n)) && (Counter(n) == 0 <==> n % 65536 == 0)
  {
    assert (n + 1) % 65536 == if n % 65536 == 65535 then 0 else n % 65536 + 1;
  }

  /** `n` rounds after the gateway was set to `ip`. */
  predicate Asking(g: Gw, ip: Ip, n: nat) {
    && g.gwip == ip && !g.wait.refreshing && (g.wait.initial <==> !g.wait.have) && (g.wait.have ==> !g.wait.accept)
    && g.delaycnt == Counter(n)
  }

  lemma AskingStep(g: Gw, ip: Ip, n: nat, i: Input)
    requires Asking(g, ip, n) && !i.NewGateway?
    ensures Asking(Step(g, i).0, ip, n + if i.NoPacket? then 1 else 0)
  {
    hide IsLan;
    hide Counter;
    hide Next16;
    CountOn(n);
  }

  lemma {:induction false} AskingRun(g: Gw, ip: Ip, ins: seq<Input>)
    requires SameGateway(ins)
    ensures Asking(Run(SetGwIp(g, ip), ins).0, ip, Rounds(ins))
  {
    hide Step;
    hide Asking;
    if ins == [] {
      AskingStart(g, ip);
    } else {
      var k := |ins| - 1;
      AskingRun(g, ip, ins[..k]);
      AskingStep(Run(SetGwIp(g, ip), ins[..k]).0, ip, Rounds(ins[..k]), ins[k]);
    }
  }

  lemma AskingStart(g: Gw, ip: Ip)
    ensures Asking(SetGwIp(g, ip), ip, 0)
  {
  }

  /** Once the gateway has been set, and until it has answered, every 65536th round with the link up asks for
      it, the first one included, and no other round does. */
  lemma AsksExactly(g: Gw, ip: Ip, ins: seq<Input>, linkUp: bool)
    requires SameGateway(ins)
    ensures var (g', n) := (Run(SetGwIp(g, ip), ins).0, Rounds(ins));
            AskGateway(g', linkUp).1 == if !g'.wait.have && linkUp && n % 65536 == 0 then [WhoHas(ip)] else []
  {
    AskingRun(g, ip, ins);
    CountOn(Rounds(ins));
    hide Run;
    hide Rounds;
  }

  /** A round that asks awaits the answer, until it has come. */
  lemma AwaitStep(g: Gw, i: Input)
    requires !i.NewGateway? && !g.wait.refreshing && (g.wait.initial <==> !g.wait.have) && g.wait.accept == !g.wait.have
    ensures var g' := Step(g, i).0; g'.wait.accept == !g'.wait.have
  {
    hide IsLan;
    hide Next16;
  }

  lemma {:induction false} AwaitsAnswer(g: Gw, ip: Ip, own: Own, ins: seq<Input>)
    requires SameGateway(ins)
    ensures SameGateway([NoPacket(own, true)] + ins)
    ensures var g' := Run(SetGwIp(g, ip), [NoPacket(own, true)] + ins).0; g'.gwip == ip && g'.wait.accept == !g'.wait.have
    decreases |ins|
  {
    hide Step;
    var (first, g0) := (NoPacket(own, true), SetGwIp(g, ip));
    var all := [first] + ins;
    AskingRun(g, ip, all);
    if ins == [] {
      assert all[..0] == [] && all[0] == first;
      FirstRound(g, ip, own);
    } else {
      var k := |ins| - 1;
      AwaitsAnswer(g, ip, own, ins[..k]);
      assert all[..k + 1] == [first] + ins[..k];
      AskingRun(g, ip, all[..k + 1]);
      AwaitStep(Run(g0, all[..k + 1]).0, ins[k]);
    }
  }

  lemma FirstRound(g: Gw, ip: Ip, own: Own)
    ensures Step(SetGwIp(g, ip), NoPacket(own, true)).0.wait == Wait(true, false, false, true)
  {
  }

  /** The gateway's first answer to us settles its MAC. */
  lemma GatewayLearnt(g: Gw, ip: Ip, own: Own, ins: seq<Input>, own': Own, mac: Mac)
    requires SameGateway(ins)
    ensures var g' := Run(SetGwIp(g, ip), [NoPacket(own, true)] + ins).0;
            var a := Arp(g', own', 2, ip, mac).0;
            && a.wait.have && a.gwip == ip
            && a.gwmac == if g'.wait.have then g'.gwmac else mac
  {
    AwaitsAnswer(g, ip, own, ins);
  }

  /** What an ARP frame teaches, exactly: an answer (2) from the gateway while it is awaited gives the gateway's MAC;
      any frame but a request from a peer that was asked for gives the peer's. */
  lemma LearnsIff(g: Gw, own: Own, op: byte, ip: Ip, mac: Mac)
    requires op != 1
    ensures var (g', gw) := (Arp(g, own, op, ip, mac).0, g.wait.accept && op == 2 && ip == g.gwip);
            var (dns, dest) := (!g.hasDns && g.waitingDns && ip == g.dnsip, !g.hasDest && g.waitingDest && ip == g.hisip);
            && g'.gwmac == (if gw then mac else g.gwmac)
            && g'.wait == (if gw then Wait(false, true, false, false) else g.wait)
            && g'.destmac == (if dns || dest then mac else g.destmac)
            && (g'.hasDns <==> g.hasDns || dns) && (g'.hasDest <==> g.hasDest || dest)
            && (g'.waitingDns <==> g.waitingDns && !dns) && (g'.waitingDest <==> g.waitingDest && !dest)
  {
  }

  /** A LAN peer is asked for in the next round, and its answer settles its MAC. */
  lemma PeerLearnt(g: Gw, own: Own, linkUp: bool, own': Own, op: byte, mac: Mac)
    requires IsLan(own, g.hisip) && !g.hasDest && !g.waitingDest && op != 1
    ensures var (g1, es) := Idle(g, own, linkUp);
            && es != [] && es[|es| - 1] == WhoHas(g.hisip) && g1.hisip == g.hisip && g1.waitingDest
            && (var g2 := Arp(g1, own', op, g.hisip, mac).0; g2.hasDest && g2.destmac == mac)
  {
    hide IsLan;
    hide Next16;
    hide Arp;
    var (g1, e1) := AskGateway(g, linkUp);
    var e2 := AskPeers(g1, own).1;
    assert e2[|e2| - 1] == WhoHas(g.hisip) && (e1 + e2)[|e1 + e2| - 1] == e2[|e2| - 1];
    LearnsIff(Idle(g, own, linkUp).0, own', op, g.hisip, mac);
  }

  /** A peer that has been asked for, or is known, is not asked for again. */
  lemma NotAskedAgain(g: Gw, own: Own)
    ensures var es := AskPeers(g, own).1;
            && (g.hasDns || g.waitingDns ==> es == if WhoHas(g.hisip) in es then [WhoHas(g.hisip)] else [])
            && (g.hasDest || g.waitingDest ==> es == if WhoHas(g.dnsip) in es then [WhoHas(g.dnsip)] else [])
            && ((g.hasDns || g.waitingDns) && (g.hasDest || g.waitingDest) ==> es == [])
  {
    hide IsLan;
  }
}
