/** The DNS client in place: the query built in the packet buffer, the answer read back from it (dns.cpp). */
module DnsClient {
  import opened Bytes
  import opened Slices
  import opened Gateway
  import opened Udp
  import opened Dns

  const NAME_P := 54     // UDP_DATA_P + 12

  /** Where the label that starts at `start` ends. */
  lemma {:induction false} LabelEnds(h: seq<byte>, m: nat)
    requires m <= |h| && (forall i :: 0 <= i < m ==> h[i] != DOT) && (m < |h| ==> h[m] == DOT)
    ensures LabelLen(h) == m
  {
    if m > 0 { LabelEnds(h[1..], m - 1); }
  }

  /** What the inner loop has read from `start` on: a label, then a dot or the terminator, `c`. */
  predicate LabelRead(hostname: seq<byte>, start: nat, next: nat, n: byte, c: byte) {
    && start < next <= |hostname| && c == hostname[next - 1] && (c == DOT || c == 0)
    && (forall i :: start <= i < next - 1 ==> hostname[i] != DOT && hostname[i] != 0)
    && n == (next - 1 - start) % 256
  }

  lemma EncodeOneLabel(l: seq<byte>)
    ensures EncodeLabels([l]) == EncodeLabel(l)
  {
    var labels := [l];
    assert labels[1..] == [];
  }

  /** The encoding of the host name from position `start` on. */
  function NameFrom(hostname: seq<byte>, start: nat): seq<byte>
    requires start < |hostname|
  {
    EncodeLabels(Split(hostname[start..|hostname| - 1]))
  }

  lemma EncodeCons(l: seq<byte>, rest: seq<seq<byte>>)
    ensures EncodeLabels([l] + rest) == EncodeLabel(l) + EncodeLabels(rest)
  {
    var labels := [l] + rest;
    assert labels[0] == l && labels[1..] == rest;
  }

  lemma EncodeSplit(h: seq<byte>, k: nat)
    requires k == LabelLen(h)
    ensures EncodeLabels(Split(h)) == EncodeLabel(h[..k]) + if k == |h| then [] else EncodeLabels(Split(h[k + 1..]))
  {
    hide EncodeLabel;
    hide EncodeLabels;
    if k == |h| {
      assert h[..k] == h;
      EncodeOneLabel(h);
    } else {
      SplitStep(h);
      hide Split;
      EncodeCons(h[..k], Split(h[k + 1..]));
    }
  }

  lemma LabelBounds(hostname: seq<byte>, start: nat, next: nat, n: byte, c: byte)
    requires CString(hostname) && LabelRead(hostname, start, next, n, c)
    ensures start < next && n <= next - 1 - start && (c == 0 <==> next == |hostname|)
    ensures LabelLen(hostname[start..|hostname| - 1]) == next - 1 - start
  {
    var e := |hostname| - 1;
    LabelEnds(hostname[start..e], next - 1 - start);
  }

  /** One round of the outer loop encodes the first label of what is left. */
  lemma LabelTaken(hostname: seq<byte>, start: nat, next: nat, n: byte, c: byte)
    requires CString(hostname) && LabelRead(hostname, start, next, n, c)
    ensures start < next && n <= next - 1 - start && (c == 0 <==> next == |hostname|)
    ensures NameFrom(hostname, start)
         == [n] + hostname[next - 1 - n..next - 1] + if c == 0 then [] else NameFrom(hostname, next)
  {
    hide EncodeLabels;
    hide Split;
    LabelBounds(hostname, start, next, n, c);
    var e := |hostname| - 1;
    var (h, k) := (hostname[start..e], next - 1 - start);
    EncodeSplit(h, k);
    assert h[..k] == hostname[start..next - 1];
    assert EncodeLabel(h[..k]) == [n] + hostname[next - 1 - n..next - 1];
    if c != 0 { assert h[k + 1..] == hostname[next..e]; }
  }

  /** The `n` bytes after `p` are the last ones read. */
  predicate Copied(b: seq<byte>, p: nat, n: byte, hostname: seq<byte>, next: nat) {
    n <= next <= |hostname| && p + n < |b| && b[p + 1..p + 1 + n] == hostname[next - n..next]
  }

  lemma CopiedNone(b: seq<byte>, p: nat, hostname: seq<byte>, next: nat)
    requires next <= |hostname| && p < |b|
    ensures Copied(b, p, 0, hostname, next)
  {
  }

  /** The counter while the label that begins at `start` is read. */
  predicate ReadSoFar(hostname: seq<byte>, start: nat, next: nat, n: byte) {
    && start <= next <= |hostname| && n == (next - start) % 256
    && forall i :: start <= i < next ==> hostname[i] != DOT && hostname[i] != 0
  }

  lemma ReadNone(hostname: seq<byte>, start: nat)
    requires start <= |hostname|
    ensures ReadSoFar(hostname, start, start, 0)
  {
  }

  lemma ReadOn(hostname: seq<byte>, start: nat, next: nat, n: byte)
    requires CString(hostname) && next < |hostname| && ReadSoFar(hostname, start, next, n)
    requires hostname[next] != DOT && hostname[next] != 0
    ensures ReadSoFar(hostname, start, next + 1, (n + 1) % 256) && next + 1 < |hostname|
    ensures (n + 1) % 256 <= next + 1 - start
  {
  }

  lemma ReadEnds(hostname: seq<byte>, start: nat, next: nat, n: byte, c: byte)
    requires 0 < next <= |hostname| && ReadSoFar(hostname, start, next - 1, n) && c == hostname[next - 1]
    requires c == DOT || c == 0
    ensures LabelRead(hostname, start, next, n, c)
  {
  }

  lemma CopiedStep(b: seq<byte>, b': seq<byte>, p: nat, n: byte, n': byte, hostname: seq<byte>, next: nat)
    requires Copied(b, p, n, hostname, next) && next < |hostname| && n' == (n + 1) % 256
    requires p + n' < |b| && b' == b[p + n' := hostname[next]]
    ensures Copied(b', p, n', hostname, next + 1)
  {
    if n' > 0 {
      assert b'[p + 1..p + 1 + n'] == b[p + 1..p + 1 + n] + [hostname[next]];
    }
  }

  class DnsClient {
    const buf: array<byte>
    const own: Own
    var dnsip: Ip
    var hisip: Ip
    var dnstid: byte

    ghost predicate Ready() { buf.Length >= NAME_P + 5 && buf as object != this }

    constructor (b: array<byte>, o: Own, dns: Ip)
      requires b.Length >= NAME_P + 5
      ensures Ready() && buf == b && own == o && dnsip == dns
    {
      buf, own, dnsip, hisip, dnstid := b, o, dns, [0, 0, 0, 0], 0;
    }

    /** The inner loop: copy one label behind the place of its length byte. The counter is one byte. */
    method CopyLabel(hostname: seq<byte>, start: nat, p: nat) returns (n: byte, c: byte, next: nat)
      requires Ready() && CString(hostname) && start < |hostname| && p + |hostname| - start <= buf.Length
      modifies buf
      ensures LabelRead(hostname, start, next, n, c)
      ensures Copied(buf[..], p, n, hostname, next - 1)
      ensures forall i :: 0 <= i < buf.Length && i < p ==> buf[i] == old(buf[i])
    {
      hide Copied;
      hide ReadSoFar;
      n, next := 0, start;
      CopiedNone(buf[..], p, hostname, next);
      ReadNone(hostname, start);
      while true
        invariant next < |hostname| && ReadSoFar(hostname, start, next, n)
        invariant Copied(buf[..], p, n, hostname, next)
        invariant forall i :: 0 <= i < buf.Length && i < p ==> buf[i] == old(buf[i])
        decreases |hostname| - next
      {
        c := hostname[next];
        next := next + 1;
        if c == DOT || c == 0 {
          ReadEnds(hostname, start, next, n, c);
          break;
        }
        ReadOn(hostname, start, next - 1, n);
        ghost var (b, m) := (buf[..], n);
        n := (n + 1) % 256;
        buf[p + n] := c;
        CopiedStep(b, buf[..], p, m, n, hostname, next - 1);
      }
    }

    /** One round of the outer loop: the label, then its length back-filled in front of it. */
    method EncodeOne(hostname: seq<byte>, start: nat, p: nat) returns (q: nat, c: byte, next: nat)
      requires Ready() && CString(hostname) && start < |hostname| && p + |hostname| - start <= buf.Length
      modifies buf
      ensures start < next <= |hostname| && (c == 0 <==> next == |hostname|) && p <= q <= p + (next - start) <= buf.Length
      ensures NameFrom(hostname, start) == buf[p..q] + if c == 0 then [] else NameFrom(hostname, next)
      ensures forall i :: 0 <= i < buf.Length && i < p ==> buf[i] == old(buf[i])
    {
      hide NameFrom;
      var n;
      n, c, next := CopyLabel(hostname, start, p);
      LabelTaken(hostname, start, next, n, c);
      buf[p] := n;
      q := p + 1 + n;
      assert buf[p..q] == [n] + hostname[next - 1 - n..next - 1];
    }

    /** The outer loop: the labels one after the other. */
    method EncodeHost(hostname: seq<byte>, p0: nat) returns (p: nat)
      requires Ready() && CString(hostname) && p0 + |hostname| <= buf.Length
      modifies buf
      ensures p0 <= p <= p0 + |hostname| && buf[p0..p] == NameFrom(hostname, 0)
      ensures forall i :: 0 <= i < buf.Length && i < p0 ==> buf[i] == old(buf[i])
    {
      hide NameFrom;
      p := p0;
      var next := 0;
      while true
        invariant next < |hostname| && p0 <= p <= p0 + next
        invariant NameFrom(hostname, 0) == buf[p0..p] + NameFrom(hostname, next)
        invariant forall i :: 0 <= i < buf.Length && i < p0 ==> buf[i] == old(buf[i])
        decreases |hostname| - next
      {
        ghost var (q, before) := (p, buf[p0..p]);
        var c;
        p, c, next := EncodeOne(hostname, next, p);
        assert buf[p0..p] == before + buf[q..p];
        if c == 0 {
          break;
        }
      }
    }

    /** Root label, type A, class IN. */
    method FillQuestion(p: nat)
      requires Ready() && p + 5 <= buf.Length
      modifies buf
      ensures buf[p..p + 5] == [0, 0, 1, 0, 1]
      ensures forall k :: 0 <= k < buf.Length && k < p ==> buf[k] == old(buf[k])
    {
      buf[p] := 0;
      buf[p + 1] := 0;
      buf[p + 2] := 1;
      buf[p + 3] := 0;
      buf[p + 4] := 1;
    }

    /** The header, over zeroed memory. */
    method FillHeader(i: byte)
      requires Ready() && forall k :: UDP_DATA_P <= k < NAME_P ==> buf[k] == 0
      modifies buf
      ensures buf[UDP_DATA_P..NAME_P] == [i, dnstid, 1, 0, 0, 1, 0, 0, 0, 0, 0, 0]
      ensures forall k :: 0 <= k < buf.Length && (k < UDP_DATA_P || NAME_P <= k) ==> buf[k] == old(buf[k])
    {
      buf[UDP_DATA_P] := i;
      buf[UDP_DATA_P + 1] := dnstid;
      buf[UDP_DATA_P + 2] := 1;
      buf[UDP_DATA_P + 5] := 1;
    }

    /** The message, written behind the UDP header. */
    method BuildQuery(hostname: seq<byte>) returns (i: byte)
      requires Ready() && CString(hostname) && NAME_P + |hostname| + 5 <= buf.Length
      modifies buf
      ensures var q := Query(hostname[..|hostname| - 1], dnstid);
              i == |q| % 256 && UDP_DATA_P + |q| <= buf.Length && buf[UDP_DATA_P..UDP_DATA_P + |q|] == q
      ensures forall k :: 0 <= k < UDP_DATA_P ==> buf[k] == old(buf[k])
    {
      hide NameFrom;
      hide Query;
      forall k | UDP_DATA_P <= k < NAME_P { buf[k] := 0; }
      var p := EncodeHost(hostname, NAME_P);
      ghost var name := buf[NAME_P..p];
      FillQuestion(p);
      assert buf[NAME_P..p] == name;
      ghost var question := buf[p..p + 5];
      i := (p + 5 - UDP_DATA_P) % 256;
      FillHeader(i);
      assert buf[NAME_P..p] == name && buf[p..p + 5] == question;
      QueryIs(buf[..], hostname, p, dnstid);
    }

    /** What `dnsRequest` leaves in the buffer: the query, from our port for this transaction to the name
        server, both checksums right over the part that is sent. */
    ghost predicate Asks(hostname: seq<byte>, mac: Mac)
      requires Ready() && CString(hostname)
      reads this, buf
    {
      var q := Query(hostname[..|hostname| - 1], dnstid);
      && UDP_DATA_P + |q| <= buf.Length && buf[UDP_DATA_P..UDP_DATA_P + |q|] == q
      && Datagram(buf[..], own, mac, 0xE000 + dnstid, dnsip, 53, |q| % 256)
    }

    /** `dnsRequest`. */
    method DnsRequest(hostname: seq<byte>, destmac: Mac, gwmac: Mac)
      requires Ready() && CString(hostname) && NAME_P + |hostname| + 5 <= buf.Length
      modifies buf, this`dnstid, this`dnsip
      ensures dnstid == (old(dnstid) as int + 1) % 256
      ensures dnsip == if old(dnsip)[0] == 0 then [8, 8, 8, 8] else old(dnsip)
      ensures Asks(hostname, NextHop(own, destmac, gwmac, dnsip))
    {
      hide Asks;
      hide NextHop;
      dnstid := (dnstid as int + 1) % 256;
      if dnsip[0] == 0 {
        dnsip := [8, 8, 8, 8];
      }
      UdpPrepare(buf, own, destmac, gwmac, 0xE000 + dnstid, dnsip, 53);
      SendQuery(hostname, NextHop(own, destmac, gwmac, dnsip));
    }

    method SendQuery(hostname: seq<byte>, ghost mac: Mac)
      requires Ready() && CString(hostname) && NAME_P + |hostname| + 5 <= buf.Length
      requires Prepared(buf[..], own, mac, 0xE000 + dnstid, dnsip, 53)
      modifies buf
      ensures Asks(hostname, mac)
    {
      hide Prepared;
      hide Datagram;
      hide Query;
      ghost var f := buf[..];
      ghost var q := Query(hostname[..|hostname| - 1], dnstid);
      var i := BuildQuery(hostname);
      ghost var t := buf[..];
      StillPrepared(f, t, own, mac, 0xE000 + dnstid, dnsip, 53);
      UdpTransmit(buf, i, own, mac, 0xE000 + dnstid, dnsip, 53);
      assert buf[UDP_DATA_P..UDP_DATA_P + |q|] == t[UDP_DATA_P..UDP_DATA_P + |q|];
    }

    /** One of the two ways a name is skipped. */
    method SkipNameAt(start: nat, plen: u16) returns (p: nat)
      requires Ready() && plen <= buf.Length && start < buf.Length
      ensures p == SkipName(buf[..], start, plen)
    {
      p := start;
      if buf[p] / 0x40 != 0 {
        p := p + 2;
      } else {
        p := p + 1;
        while p < plen
          invariant start < p && SkipLabels(buf[..], p - 1, plen) == SkipLabels(buf[..], start, plen)
          invariant p <= plen || p == start + 1
          decreases plen as int - p
        {
          if buf[p] == 0 {
            p := p + 1;
            break;
          }
          p := p + 1;
        }
      }
    }

    /** The loop over the records. */
    method WalkRecords(start: nat, plen: u16)
      requires Ready() && Roomy(buf[..], plen) && start <= 297
      modifies this`hisip
      ensures hisip == match Walk(buf[..], start, plen) case Some(ip) => ip case None => old(hisip)
    {
      hide SkipName;
      var p := start;
      ghost var b := buf[..];
      while true
        invariant (p <= 297 || p <= plen + 251) && Walk(b, p, plen) == Walk(b, start, plen) && hisip == old(hisip)
        decreases buf.Length - p
      {
        p := SkipNameAt(p, plen);
        if p + 14 > plen {
          return;
        }
        if buf[p + 1] == 1 && buf[p + 9] == 4 {
          hisip := buf[p + 10..p + 14];
          assert hisip == b[p + 10..p + 14];
          return;
        }
        p := p + buf[p + 9] as int + 10;
      }
    }

    /** `checkForDnsAnswer`. */
    method CheckForDnsAnswer(plen: u16) returns (error: bool)
      requires Ready() && Roomy(buf[..], plen)
      modifies this`hisip
      ensures error <==> OurAnswer(buf[..], plen, dnstid) && HasError(buf[..])
      ensures hisip == if !OurAnswer(buf[..], plen, dnstid) || error then old(hisip)
                       else match Walk(buf[..], UDP_DATA_P + buf[UDP_DATA_P] as int, plen)
                            case Some(ip) => ip case None => old(hisip)
    {
      hide Walk;
      var p := UDP_DATA_P;
      if plen < 70 || buf[UDP_SRC_PORT_L_P] != 53 || buf[UDP_DST_PORT_H_P] != 0xE0 || buf[UDP_DST_PORT_L_P] != dnstid
         || buf[p + 1] != dnstid {
        return false;
      }
      if buf[p + 3] % 16 != 0 {
        return true;
      }
      WalkRecords(p + buf[p] as int, plen);
      return false;
    }
  }

  /** The response code is not 0. */
  predicate HasError(b: seq<byte>)
    requires |b| >= 300
  {
    b[UDP_DATA_P + 3] % 16 != 0
  }

  /** It is in the low four bits of byte 45: only these are looked at. */
  lemma HasErrorIff(b: seq<byte>)
    requires |b| >= 300
    ensures HasError(b) <==> b[45] !in {0, 16, 32, 48, 64, 80, 96, 112, 128, 144, 160, 176, 192, 208, 224, 240}
  {
    var c := b[45];
    assert c == 16 * (c / 16) + c % 16 && 0 <= c / 16 < 16;
  }

  /** The frame is a response to our last query. */
  predicate OurAnswer(b: seq<byte>, plen: u16, tid: byte)
    requires |b| >= 300
  {
    && plen >= 70 && b[UDP_SRC_PORT_L_P] == 53 && b[UDP_DST_PORT_H_P] == 0xE0 && b[UDP_DST_PORT_L_P] == tid
    && b[UDP_DATA_P + 1] == tid
  }

  /** A response is taken for the answer to the query `q` exactly if it comes from the low byte of the port asked and
      goes to the port the query came from, with the low byte of its number, and is at least 70 bytes long. */
  lemma OurAnswerIff(b: seq<byte>, plen: u16, tid: byte, q: seq<byte>)
    requires |b| >= 300 && |q| >= 54 && Field16(q, 34) == 0xE000 + tid && Field16(q, 36) == 53 && q[43] == tid
    ensures OurAnswer(b, plen, tid) <==> plen >= 70 && b[35] == q[37] && b[36..38] == q[34..36] && b[43] == q[43]
  {
    assert q[34] == 0xE0 && q[35] == tid && q[37] == 53;
    assert b[36..38] == q[34..36] <==> b[36] == q[34] && b[37] == q[35] by {
      assert b[36..38] == [b[36], b[37]] && q[34..36] == [q[34], q[35]];
    }
  }

  /** The query that `dnsRequest` leaves has these ports and this number. */
  lemma AskedFrom(q: seq<byte>, own: Own, mac: Mac, tid: byte, dns: Ip, hostname: seq<byte>, dlen: nat)
    requires |q| >= UDP_DATA_P + dlen && Datagram(q, own, mac, 0xE000 + tid, dns, 53, dlen)
    requires var m := Query(hostname, tid); UDP_DATA_P + |m| <= |q| && q[UDP_DATA_P..UDP_DATA_P + |m|] == m
    ensures |q| >= 54 && Field16(q, 34) == 0xE000 + tid && Field16(q, 36) == 53 && q[43] == tid
  {
    QueryNamesHost(hostname, tid);
    var m := Query(hostname, tid);
    assert q[43] == q[UDP_DATA_P..UDP_DATA_P + |m|][1] == m[1] == m[1..12][0];
  }

  lemma QueryIs(b: seq<byte>, hostname: seq<byte>, p: nat, tid: byte)
    requires CString(hostname) && NAME_P <= p && p + 5 <= |b| && b[NAME_P..p] == NameFrom(hostname, 0)
    requires b[UDP_DATA_P..NAME_P] == [(p + 5 - UDP_DATA_P) % 256, tid, 1, 0, 0, 1, 0, 0, 0, 0, 0, 0]
    requires b[p..p + 5] == [0, 0, 1, 0, 1]
    ensures var q := Query(hostname[..|hostname| - 1], tid); p + 5 == UDP_DATA_P + |q| && b[UDP_DATA_P..p + 5] == q
  {
    var e := |hostname| - 1;
    assert hostname[0..e] == hostname[..e];
    assert b[UDP_DATA_P..p + 5] == b[UDP_DATA_P..NAME_P] + (b[NAME_P..p] + b[p..p + 5]);
  }
}
