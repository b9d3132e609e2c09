/** DHCP messages as option lists (section 2 of RFC 2132), and the two walks over them (dhcp.cpp). */
module DhcpOptions {
  import opened Bytes
  import opened Slices
  import opened Gateway
  import opened Udp

  const OPTIONS_P := 282     // UDP_DATA_P + sizeof (DHCPdata) + the magic cookie
  const XID_P := 46
  const YIADDR_P := 58

  const DISCOVER: byte := 1
  const OFFER: byte := 2
  const DHCP_REQUEST: byte := 3
  const DHCP_ACK: byte := 5

  const TWO32 := 0x1_0000_0000

  datatype Opt = Opt(code: byte, data: seq<byte>)

  predicate Short(o: Opt) { |o.data| < 256 }

  /** Code, one-byte length, data. */
  function EncodeOpt(o: Opt): seq<byte> { [o.code, |o.data| % 256] + o.data }

  function Encode(opts: seq<Opt>): seq<byte> {
    if opts == [] then [] else EncodeOpt(opts[0]) + Encode(opts[1..])
  }

  // ---- what an offer sets

  datatype Lease = Lease(netmask: Ip, gwip: Ip, dnsip: Ip, dhcpip: Ip, leaseTime: u32, custom: seq<seq<byte>>)

  /** The big-endian 32-bit number in four bytes. */
  function Be32(d: seq<byte>): u32
    requires |d| >= 4
  {
    ((d[0] as int * 256 + d[1] as int) * 256 + d[2] as int) * 256 + d[3] as int
  }

  /** Seconds to milliseconds in 32 bits. */
  function Millis(seconds: u32): u32 { seconds * 1000 % TWO32 }

  /** The switch of `process_dhcp_offer` on one option, whose data starts at `p` and is `n` bytes long. */
  function Apply(s: Lease, code: byte, b: seq<byte>, p: nat, n: byte, custom: Option<byte>): Lease
    requires p + 255 <= |b|
  {
    if code == 1 then s.(netmask := b[p..p + 4])
    else if code == 3 then s.(gwip := b[p..p + 4])
    else if code == 6 then s.(dnsip := b[p..p + 4])
    else if code == 51 || code == 58 then s.(leaseTime := Millis(Be32(b[p..p + 4])))
    else if code == 54 then s.(dhcpip := b[p..p + 4])
    else if code == 255 then s
    else if custom == Some(code) then s.(custom := s.custom + [b[p..p + n]])
    else s
  }

  /** The do-while loop of `process_dhcp_offer`. */
  function Walk(b: seq<byte>, p: nat, len: u16, s: Lease, custom: Option<byte>): Lease
    requires p < len || p == OPTIONS_P
    requires len + 257 <= |b| && OPTIONS_P + 257 <= |b|
    decreases |b| - p
  {
    var s' := Apply(s, b[p], b, p + 2, b[p + 1], custom);
    var q := p + 2 + b[p + 1] as int;
    if b[p] != 255 && q < len then Walk(b, q, len, s', custom) else s'
  }

  /** The do-while loop of `dhcp_received_message_type`. */
  function FindType(b: seq<byte>, p: nat, len: u16, t: byte): bool
    requires p < len || p == OPTIONS_P
    requires len + 257 <= |b| && OPTIONS_P + 257 <= |b|
    decreases |b| - p
  {
    var q := p + 2 + b[p + 1] as int;
    (b[p] == 53 && b[p + 2] == t) || (q < len && FindType(b, q, len, t))
  }

  // ---- the same on option lists

  predicate TakesFour(code: byte) { code in {1, 3, 6, 51, 54, 58} }

  /** What the walks expect of a list: no pad or end inside it, enough data in each option. */
  predicate Proper(opts: seq<Opt>) {
    forall o :: o in opts ==> Short(o) && o.code != 0 && o.code != 255 && (TakesFour(o.code) ==> |o.data| >= 4)
                              && (o.code == 53 ==> |o.data| >= 1)
  }

  function ApplyOpt(s: Lease, o: Opt, custom: Option<byte>): Lease
    requires TakesFour(o.code) ==> |o.data| >= 4
  {
    if o.code == 1 then s.(netmask := o.data[..4])
    else if o.code == 3 then s.(gwip := o.data[..4])
    else if o.code == 6 then s.(dnsip := o.data[..4])
    else if o.code == 51 || o.code == 58 then s.(leaseTime := Millis(Be32(o.data)))
    else if o.code == 54 then s.(dhcpip := o.data[..4])
    else if custom == Some(o.code) then s.(custom := s.custom + [o.data])
    else s
  }

  /** The left fold over the list. */
  function ApplyAll(s: Lease, opts: seq<Opt>, custom: Option<byte>): Lease
    requires Proper(opts)
    decreases |opts|
  {
    if opts == [] then s else ApplyAll(ApplyOpt(s, opts[0], custom), opts[1..], custom)
  }

  /** `opts` lies at `p`, and ends with option 255 or with the frame. */
  predicate ListAt(b: seq<byte>, p: nat, len: u16, opts: seq<Opt>) {
    var n := |Encode(opts)|;
    && p + n <= |b| && b[p..p + n] == Encode(opts)
    && ((p + n < len <= |b| && b[p + n] == 255) || (p + n == len && opts != []))
  }

  lemma OptionAt(b: seq<byte>, p: nat, o: Opt)
    requires Short(o) && At(b, p, EncodeOpt(o))
    ensures var q := p + 2 + |o.data|;
            q <= |b| && b[p] == o.code && b[p + 1] == |o.data| && b[p + 2..q] == o.data && |EncodeOpt(o)| == 2 + |o.data|
  {
    var head := [o.code, |o.data|];
    assert EncodeOpt(o) == head + o.data;
    AtSplit(b, p, head, o.data);
    AtByte(b, p, head, 0);
    AtByte(b, p, head, 1);
  }

  lemma EncodeHead(opts: seq<Opt>)
    requires opts != []
    ensures Encode(opts) == EncodeOpt(opts[0]) + Encode(opts[1..])
    ensures opts[1..] == [] ==> Encode(opts[1..]) == []
  {
  }

  /** The first option of a list that lies at `p`, and the place of the rest. */
  lemma PrefixHead(b: seq<byte>, p: nat, opts: seq<Opt>)
    requires opts != [] && Proper(opts) && At(b, p, Encode(opts))
    ensures var (o, q) := (opts[0], p + 2 + |opts[0].data|);
            && q <= |b| && b[p] == o.code && b[p + 1] == |o.data| && b[p + 2..q] == o.data
            && Proper(opts[1..]) && At(b, q, Encode(opts[1..])) && q + |Encode(opts[1..])| == p + |Encode(opts)|
            && (opts[1..] == [] ==> Encode(opts[1..]) == [])
  {
    hide Encode;
    hide EncodeOpt;
    EncodeHead(opts);
    AtSplit(b, p, EncodeOpt(opts[0]), Encode(opts[1..]));
    assert opts[0] in opts;
    OptionAt(b, p, opts[0]);
  }

  lemma EncodedNonEmpty(opts: seq<Opt>)
    requires opts != []
    ensures |Encode(opts)| >= 2
  {
  }

  lemma ListHead(b: seq<byte>, p: nat, len: u16, opts: seq<Opt>)
    requires opts != [] && Proper(opts) && ListAt(b, p, len, opts)
    requires len + 257 <= |b|
    ensures var (o, q) := (opts[0], p + 2 + |opts[0].data|);
            && q <= len && b[p] == o.code && b[p + 1] == |o.data| && b[p + 2..q] == o.data
            && Proper(opts[1..])
            && (q < len ==> ListAt(b, q, len, opts[1..])) && (q == len ==> opts[1..] == [])
  {
    hide Encode;
    hide Proper;
    PrefixHead(b, p, opts);
    if opts[1..] != [] { EncodedNonEmpty(opts[1..]); }
  }

  lemma ApplyOne(b: seq<byte>, p: nat, o: Opt, s: Lease, custom: Option<byte>)
    requires Short(o) && o.code != 255 && (TakesFour(o.code) ==> |o.data| >= 4)
    requires p + 255 <= |b| && b[p..p + |o.data|] == o.data
    ensures Apply(s, o.code, b, p, |o.data|, custom) == ApplyOpt(s, o, custom)
  {
    if TakesFour(o.code) {
      assert b[p..p + 4] == b[p..p + |o.data|][..4];
      assert Be32(o.data[..4]) == Be32(o.data);
    }
  }

  lemma EndOption(b: seq<byte>, p: nat, s: Lease, custom: Option<byte>)
    requires p + 257 <= |b|
    ensures Apply(s, 255, b, p + 2, b[p + 1], custom) == s
    ensures Encode([]) == []
  {
  }

  /** On a proper list `process_dhcp_offer` is the left fold. */
  lemma {:induction false} WalkIsFold(b: seq<byte>, p: nat, len: u16, opts: seq<Opt>, s: Lease, custom: Option<byte>)
    requires Proper(opts) && ListAt(b, p, len, opts) && p < len
    requires len + 257 <= |b| && OPTIONS_P + 257 <= |b|
    ensures Walk(b, p, len, s, custom) == ApplyAll(s, opts, custom)
    decreases |opts|
  {
    hide Apply;
    hide ApplyOpt;
    hide Encode;
    if opts == [] {
      EndOption(b, p, s, custom);
    } else {
      ListHead(b, p, len, opts);
      var (o, q) := (opts[0], p + 2 + |opts[0].data|);
      ApplyOne(b, p + 2, o, s, custom);
      if q < len {
        WalkIsFold(b, q, len, opts[1..], ApplyOpt(s, o, custom), custom);
      }
    }
  }

  /** The data of the last option among `codes`. */
  function LastOf(opts: seq<Opt>, codes: set<byte>): Option<seq<byte>> {
    if opts == [] then None
    else if opts[|opts| - 1].code in codes then Some(opts[|opts| - 1].data)
    else LastOf(opts[..|opts| - 1], codes)
  }

  lemma {:induction false} ApplySnoc(s: Lease, opts: seq<Opt>, custom: Option<byte>)
    requires opts != [] && Proper(opts)
    ensures var n := |opts| - 1;
            Proper(opts[..n]) && ApplyAll(s, opts, custom) == ApplyOpt(ApplyAll(s, opts[..n], custom), opts[n], custom)
    decreases |opts|
  {
    var n := |opts| - 1;
    if n > 0 {
      ApplySnoc(ApplyOpt(s, opts[0], custom), opts[1..], custom);
      assert opts[1..][..n - 1] == opts[..n][1..];
    }
  }

  /** The first four data bytes of the last option `code`, or what was there before. */
  function Picked(opts: seq<Opt>, code: byte, before: Ip): seq<byte> {
    match LastOf(opts, {code}) case Some(d) => (if |d| >= 4 then d[..4] else d) case None => before
  }

  /** In the fold the last occurrence of each address option wins. */
  lemma {:induction false} LastAddressWins(s: Lease, opts: seq<Opt>, custom: Option<byte>)
    requires Proper(opts)
    ensures var r := ApplyAll(s, opts, custom);
            && r.netmask == Picked(opts, 1, s.netmask) && r.gwip == Picked(opts, 3, s.gwip)
            && r.dnsip == Picked(opts, 6, s.dnsip) && r.dhcpip == Picked(opts, 54, s.dhcpip)
    decreases |opts|
  {
    if opts != [] {
      ApplySnoc(s, opts, custom);
      LastAddressWins(s, opts[..|opts| - 1], custom);
    }
  }

  /** Of the lease and renewal time options the later one wins, in milliseconds modulo 2^32. */
  lemma {:induction false} LastLeaseWins(s: Lease, opts: seq<Opt>, custom: Option<byte>)
    requires Proper(opts)
    ensures match LastOf(opts, {51, 58})
            case Some(d) => |d| >= 4 && ApplyAll(s, opts, custom).leaseTime == Millis(Be32(d))
            case None => ApplyAll(s, opts, custom).leaseTime == s.leaseTime
    decreases |opts|
  {
    if opts != [] {
      ApplySnoc(s, opts, custom);
      LastLeaseWins(s, opts[..|opts| - 1], custom);
    }
  }

  /** Some option 53 in the list holds `t`. */
  predicate HasType(opts: seq<Opt>, t: byte)
    requires Proper(opts)
  {
    exists i :: 0 <= i < |opts| && opts[i].code == 53 && opts[i].data[0] == t
  }

  lemma HasTypeCons(opts: seq<Opt>, t: byte)
    requires Proper(opts) && opts != []
    ensures Proper(opts[1..])
    ensures HasType(opts, t) <==> (opts[0].code == 53 && opts[0].data[0] == t) || HasType(opts[1..], t)
  {
    var rest := opts[1..];
    if i :| 0 <= i < |rest| && rest[i].code == 53 && rest[i].data[0] == t { assert opts[i + 1] == rest[i]; }
    if i :| 0 <= i < |opts| && opts[i].code == 53 && opts[i].data[0] == t { assert i == 0 || opts[i] == rest[i - 1]; }
  }

  lemma NoType(t: byte)
    ensures !HasType([], t)
  {
  }

  /** Whatever follows a list of options, its message types are found first, and the walk goes on behind
      it. */
  lemma {:induction false} FindTypeInPrefix(b: seq<byte>, p: nat, len: u16, opts: seq<Opt>, t: byte)
    requires Proper(opts) && opts != [] && At(b, p, Encode(opts)) && p + |Encode(opts)| <= len
    requires len + 257 <= |b| && OPTIONS_P + 257 <= |b|
    ensures p < len
    ensures var q := p + |Encode(opts)|;
            FindType(b, p, len, t) <==> HasType(opts, t) || (q < len && FindType(b, q, len, t))
    decreases |opts|
  {
    hide Encode;
    hide HasType;
    EncodedNonEmpty(opts);
    PrefixHead(b, p, opts);
    HasTypeCons(opts, t);
    var (o, q) := (opts[0], p + 2 + |opts[0].data|);
    if o.code == 53 { assert b[p + 2] == b[p + 2..q][0]; }
    if opts[1..] == [] {
      NoType(t);
    } else {
      EncodedNonEmpty(opts[1..]);
      FindTypeInPrefix(b, q, len, opts[1..], t);
    }
  }

  /** A pad is taken for an option whose length is the next byte: the walk goes on behind that many bytes,
      and finds a type behind the pad exactly if it finds it from there. */
  lemma PadIff(b: seq<byte>, p: nat, len: u16, opts: seq<Opt>, t: byte)
    requires Proper(opts) && At(b, p, Encode(opts) + [0]) && p + |Encode(opts)| < len
    requires len + 257 <= |b| && OPTIONS_P + 257 <= |b|
    ensures var q := p + |Encode(opts)|;
            var r := q + 2 + b[q + 1] as int;
            FindType(b, p, len, t) <==> HasType(opts, t) || (r < len && FindType(b, r, len, t))
  {
    AtSplit(b, p, Encode(opts), [0]);
    AtByte(b, p + |Encode(opts)|, [0], 0);
    hide HasType;
    if opts == [] {
      NoType(t);
    } else {
      hide Encode;
      FindTypeInPrefix(b, p, len, opts, t);
    }
  }

  /** A pad right before option 53 hides the message type if the 53 bytes skipped reach the frame's end. */
  lemma PadHidesType(b: seq<byte>, p: nat, len: u16, t: byte)
    requires p < len && len + 257 <= |b| && OPTIONS_P + 257 <= |b|
    requires b[p] == 0 && b[p + 1] == 53 && len <= p + 55
    ensures !FindType(b, p, len, t)
  {
  }

  /** So it is with an offer, unless option 0 is the one that the callback asks for. */
  lemma PadInOffer(b: seq<byte>, q: nat, len: u16, s: Lease, custom: Option<byte>)
    requires q < len && len + 257 <= |b| && OPTIONS_P + 257 <= |b| && b[q] == 0 && custom != Some(0)
    ensures var r := q + 2 + b[q + 1] as int;
            Walk(b, q, len, s, custom) == if r < len then Walk(b, r, len, s, custom) else s
  {
  }

  lemma {:induction false} NoTypeInZeros(b: seq<byte>, q: nat, len: u16, t: byte)
    requires q < len && len + 257 <= |b| && OPTIONS_P + 257 <= |b| && forall i :: q <= i < len ==> b[i] == 0
    ensures !FindType(b, q, len, t)
    decreases len as int - q
  {
    if q + 2 < len { NoTypeInZeros(b, q + 2, len, t); }
  }

  /** On a list with nothing but zero padding behind its end option, the message type found is the one
      option 53 holds. */
  lemma FindTypeInList(b: seq<byte>, p: nat, len: u16, opts: seq<Opt>, t: byte)
    requires Proper(opts) && p < len && ListAt(b, p, len, opts)
    requires forall i :: p + |Encode(opts)| < i < len ==> b[i] == 0
    requires len + 257 <= |b| && OPTIONS_P + 257 <= |b|
    ensures FindType(b, p, len, t) <==> HasType(opts, t)
  {
    hide HasType;
    var q := p + |Encode(opts)|;
    if q < len {
      if q + 2 < len { NoTypeInZeros(b, q + 2, len, t); }
      assert !FindType(b, q, len, t);
    }
    hide FindType;
    if opts == [] {
      NoType(t);
      assert Encode(opts) == [];
    } else {
      FindTypeInPrefix(b, p, len, opts, t);
    }
  }
}
