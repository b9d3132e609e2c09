/** DNS messages (section 4.1 of RFC 1035): names, and the walk over the records of an answer (dns.cpp). */
module Dns {
  import opened Bytes
  import opened Slices
  import opened Udp

  const DOT: byte := 46

  // ---- names

  /** How far it is to the first dot or the end. */
  function LabelLen(h: seq<byte>): (k: nat)
    ensures k <= |h|
  {
    if h == [] || h[0] == DOT then 0 else 1 + LabelLen(h[1..])
  }

  function Split(h: seq<byte>): seq<seq<byte>> {
    var k := LabelLen(h);
    if k == |h| then [h] else [h[..k]] + Split(h[k + 1..])
  }

  /** The bytes `dnsRequest` leaves for a label: its one-byte counter wraps, so of a label of 256 bytes or
      more only the tail after the last wrap remains. */
  function EncodeLabel(l: seq<byte>): seq<byte> { [|l| % 256] + l[|l| - |l| % 256..] }

  function EncodeLabels(labels: seq<seq<byte>>): seq<byte> {
    if labels == [] then [] else EncodeLabel(labels[0]) + EncodeLabels(labels[1..])
  }

  /** A reader of QNAMEs: labels of 1 to 63 bytes up to the root label. */
  function DecodeName(b: seq<byte>): Option<seq<seq<byte>>>
    decreases |b|
  {
    if b == [] then None
    else if b[0] == 0 then Some([])
    else if b[0] >= 64 || |b| < 1 + b[0] as int then None
    else
      var n := b[0] as int;
      match DecodeName(b[1 + n..])
      case None => None
      case Some(labels) => Some([b[1..1 + n]] + labels)
  }

  predicate LabelOk(l: seq<byte>) { 1 <= |l| <= 63 }

  lemma DecodeFirst(l: seq<byte>, tail: seq<byte>)
    ensures var d := DecodeName(EncodeLabel(l) + tail);
            if LabelOk(l) then d == (match DecodeName(tail) case None => None case Some(ls) => Some([l] + ls))
            else d.None? || d == Some([]) || |d.value[0]| < |l|
  {
    var b := EncodeLabel(l) + tail;
    var n := |l| % 256;
    assert b[0] == n;
    if 1 <= n <= 63 {
      assert b[1..1 + n] == l[|l| - n..] && b[1 + n..] == tail;
      if LabelOk(l) { assert l[0..] == l; }
    }
  }

  lemma DecodeRoot(tail: seq<byte>)
    requires tail != [] && tail[0] == 0
    ensures DecodeName(tail) == Some([])
  {
  }

  /** The name sent decodes to the labels exactly when each has between 1 and 63 bytes. */
  lemma {:induction false} LabelsRoundTrip(labels: seq<seq<byte>>, tail: seq<byte>)
    requires tail != [] && tail[0] == 0
    ensures DecodeName(EncodeLabels(labels) + tail) == Some(labels) <==> forall l :: l in labels ==> LabelOk(l)
  {
    hide DecodeName;
    hide EncodeLabel;
    hide LabelOk;
    if labels == [] {
      assert EncodeLabels(labels) + tail == tail;
      DecodeRoot(tail);
    } else {
      var rest := EncodeLabels(labels[1..]) + tail;
      assert EncodeLabels(labels) + tail == EncodeLabel(labels[0]) + rest;
      DecodeFirst(labels[0], rest);
      LabelsRoundTrip(labels[1..], tail);
      assert labels == [labels[0]] + labels[1..];
    }
  }

  /** Each dot and the end of the name turn into one length byte. */
  lemma {:induction false} NameLength(h: seq<byte>)
    requires forall l :: l in Split(h) ==> |l| < 256
    ensures |EncodeLabels(Split(h))| == |h| + 1
    decreases |h|
  {
    var k := LabelLen(h);
    assert Split(h)[0] in Split(h);
    if k == |h| {
      assert EncodeLabels([h]) == EncodeLabel(h) + EncodeLabels([]);
    } else {
      var rest := Split(h[k + 1..]);
      assert Split(h)[1..] == rest;
      forall l | l in rest ensures |l| < 256 { assert l in Split(h); }
      NameLength(h[k + 1..]);
    }
  }

  /** The labels joined with dots are the name again: `Split` loses nothing. */
  function Join(labels: seq<seq<byte>>): seq<byte>
    requires labels != []
  {
    if |labels| == 1 then labels[0] else labels[0] + [46] + Join(labels[1..])
  }

  lemma {:induction false} DotAfterLabel(h: seq<byte>)
    requires LabelLen(h) < |h|
    ensures h[LabelLen(h)] == DOT
  {
    if h[0] != DOT { DotAfterLabel(h[1..]); }
  }

  lemma SplitStep(h: seq<byte>)
    requires LabelLen(h) < |h|
    ensures Split(h) == [h[..LabelLen(h)]] + Split(h[LabelLen(h) + 1..])
  {
    hide LabelLen;
  }

  lemma JoinCons(l: seq<byte>, rest: seq<seq<byte>>)
    requires rest != []
    ensures Join([l] + rest) == l + [46] + Join(rest)
  {
    var labels := [l] + rest;
    assert labels[0] == l && labels[1..] == rest;
  }

  lemma {:induction false} JoinSplit(h: seq<byte>)
    ensures Split(h) != [] && Join(Split(h)) == h
    decreases |h|
  {
    var k := LabelLen(h);
    if k < |h| {
      var rest := h[k + 1..];
      SplitStep(h);
      DotAfterLabel(h);
      assert h == h[..k] + [DOT] + rest;
      hide Split;
      hide Join;
      JoinSplit(rest);
      JoinCons(h[..k], Split(rest));
    } else {
      assert Split(h) == [h];
    }
  }

  // ---- the query

  /** The question: name, type A, class IN. */
  function Question(h: seq<byte>): seq<byte> { EncodeLabels(Split(h)) + [0, 0, 1, 0, 1] }

  /** The whole query message for host name `h` and transaction number `tid`; its first byte is its own
      length, truncated to eight bits. */
  function Query(h: seq<byte>, tid: byte): seq<byte> {
    [(12 + |Question(h)|) % 256, tid, 1, 0, 0, 1, 0, 0, 0, 0, 0, 0] + Question(h)
  }

  /** What a name server reads in the query is the host name split on dots, exactly when no label is
      empty or longer than 63 bytes. */
  lemma QueryNamesHost(h: seq<byte>, tid: byte)
    ensures DecodeName(Query(h, tid)[12..]) == Some(Split(h)) <==> forall l :: l in Split(h) ==> LabelOk(l)
    ensures Join(Split(h)) == h && forall l :: l in Split(h) ==> 46 !in l
    ensures Query(h, tid)[1..12] == [tid, 1, 0, 0, 1, 0, 0, 0, 0, 0, 0]
    ensures Query(h, tid)[|Query(h, tid)| - 4..] == [0, 1, 0, 1]
  {
    NoDots(h);
    assert Query(h, tid)[12..] == EncodeLabels(Split(h)) + [0, 0, 1, 0, 1];
    LabelsRoundTrip(Split(h), [0, 0, 1, 0, 1]);
    JoinSplit(h);
  }

  lemma {:induction false} NoDots(h: seq<byte>)
    ensures forall l :: l in Split(h) ==> 46 !in l
  {
    var k := LabelLen(h);
    LabelHasNoDot(h);
    if k < |h| { NoDots(h[k + 1..]); }
  }

  lemma {:induction false} LabelHasNoDot(h: seq<byte>)
    ensures 46 !in h[..LabelLen(h)]
  {
    if h != [] && h[0] != DOT {
      LabelHasNoDot(h[1..]);
      assert h[..LabelLen(h)] == [h[0]] + h[1..][..LabelLen(h[1..])];
    }
  }

  lemma QuestionLength(h: seq<byte>)
    ensures |Question(h)| == |EncodeLabels(Split(h))| + 5
  {
  }

  /** With labels below 256 bytes the query is 18 bytes longer than the host name; its first byte says so
      exactly up to 237 characters. */
  lemma QueryLength(h: seq<byte>, tid: byte)
    requires forall l :: l in Split(h) ==> |l| < 256
    ensures |Query(h, tid)| == |h| + 18
    ensures Query(h, tid)[0] == |Query(h, tid)| <==> |h| <= 237
  {
    NameLength(h);
    QuestionLength(h);
    hide Question;
    hide Split;
    hide EncodeLabels;
    var n := |Query(h, tid)|;
    assert Query(h, tid)[0] == n % 256;
  }

  // ---- the answer

  /** The position `checkForDnsAnswer` takes for the end of a name that starts with a label. */
  function SkipLabels(b: seq<byte>, p: nat, plen: u16): (q: nat)
    requires plen <= |b|
    ensures q == p + 1 || p < q <= plen
    decreases plen as int - p
  {
    if p + 1 >= plen then p + 1 else if b[p + 1] == 0 then p + 2 else SkipLabels(b, p + 1, plen)
  }

  function SkipName(b: seq<byte>, p: nat, plen: u16): (q: nat)
    requires plen <= |b| && p < |b|
    ensures p < q
  {
    if b[p] / 0x40 != 0 then p + 2 else SkipLabels(b, p, plen)
  }

  /** A name that begins with a byte from 64 on, a pointer (from 192 on) or not, is taken for two bytes; any other is
      scanned to the first zero byte, or to the end of the frame. */
  lemma {:induction false} NameKinds(b: seq<byte>, p: nat, plen: u16)
    requires plen <= |b| && p < |b|
    ensures var q := SkipName(b, p, plen);
            if b[p] >= 64 then q == p + 2
            else if p + 1 >= plen then q == p + 1
            else p + 1 < q <= plen && (forall i :: p < i < q - 1 ==> b[i] != 0) && (b[q - 1] == 0 || q == plen)
  {
    if b[p] < 64 { ScannedToZero(b, p, plen); }
  }

  lemma {:induction false} ScannedToZero(b: seq<byte>, p: nat, plen: u16)
    requires plen <= |b|
    ensures var q := SkipLabels(b, p, plen);
            if p + 1 >= plen then q == p + 1
            else p + 1 < q <= plen && (forall i :: p < i < q - 1 ==> b[i] != 0) && (b[q - 1] == 0 || q == plen)
    decreases plen as int - p
  {
    if p + 1 < plen && b[p + 1] != 0 { ScannedToZero(b, p + 1, plen); }
  }

  /** RAM reaches far enough past the frame for every byte the walk looks at. */
  predicate Roomy(b: seq<byte>, plen: u16) { plen + 252 <= |b| && 300 <= |b| }

  /** The loop over the records: the address it stores. */
  function Walk(b: seq<byte>, p: nat, plen: u16): (r: Option<seq<byte>>)
    requires Roomy(b, plen) && (p <= 297 || p <= plen + 251)
    ensures r.Some? ==> |r.value| == 4
    decreases |b| - p
  {
    var q := SkipName(b, p, plen);
    if q + 14 > plen then None
    else if b[q + 1] == 1 && b[q + 9] == 4 then Some(b[q + 10..q + 14])
    else Walk(b, q + b[q + 9] as int + 10, plen)
  }

  datatype Name = Pointer(hi: byte, lo: byte) | Labels(labels: seq<seq<byte>>)

  datatype Record = Record(name: Name, kind: u16, rest: seq<byte>, rdata: seq<byte>)

  /** A compression pointer, or labels up to the root. */
  predicate NameOk(n: Name) {
    match n
    case Pointer(hi, _) => hi >= 0xC0
    case Labels(ls) => ls != [] && forall l :: l in ls ==> LabelOk(l) && NulFree(l)
  }

  /** `rest` is the class and the time to live. */
  predicate RecordOk(r: Record) { NameOk(r.name) && |r.rest| == 6 && |r.rdata| < 256 }

  function EncodeName(n: Name): seq<byte> {
    match n case Pointer(hi, lo) => [hi, lo] case Labels(ls) => EncodeLabels(ls) + [0]
  }

  /** Type, class, time to live, data length, data. */
  function Tail(r: Record): seq<byte> {
    [r.kind / 256, r.kind % 256] + r.rest + [|r.rdata| / 256 % 256, |r.rdata| % 256] + r.rdata
  }

  function EncodeRecord(r: Record): seq<byte> {
    EncodeName(r.name) + Tail(r)
  }

  function EncodeRecords(rs: seq<Record>): seq<byte> {
    if rs == [] then [] else EncodeRecord(rs[0]) + EncodeRecords(rs[1..])
  }

  /** An address record, as far as the low byte of its type tells. */
  predicate LooksLikeA(r: Record) { r.kind % 256 == 1 && |r.rdata| == 4 }

  predicate IsA(r: Record) { r.kind == 1 && |r.rdata| == 4 }

  function First(rs: seq<Record>, p: Record -> bool): (k: nat)
    ensures k <= |rs| && (k < |rs| ==> p(rs[k])) && forall i :: 0 <= i < k ==> !p(rs[i])
  {
    if rs == [] || p(rs[0]) then 0 else 1 + First(rs[1..], p)
  }

  /** The walk finds the end of a list of labels: lengths and contents hold no zero before the root. */
  lemma {:induction false} ScanToZero(b: seq<byte>, p: nat, q: nat, plen: u16)
    requires p < q < plen <= |b| && b[q] == 0 && forall i :: p < i < q ==> b[i] != 0
    ensures SkipLabels(b, p, plen) == q + 1
    decreases q - p
  {
    if p + 1 < q { ScanToZero(b, p + 1, q, plen); }
  }

  lemma {:induction false} LabelsHoldNoZero(ls: seq<seq<byte>>)
    requires forall l :: l in ls ==> LabelOk(l) && NulFree(l)
    ensures NulFree(EncodeLabels(ls)) && (ls != [] ==> EncodeLabels(ls) != [] && EncodeLabels(ls)[0] < 64)
  {
    if ls != [] {
      LabelsHoldNoZero(ls[1..]);
      assert ls[0] in ls;
    }
  }

  /** Whatever does not start like a pointer is skipped up to its first zero after the first byte. */
  lemma TextSkipped(b: seq<byte>, p: nat, plen: u16, e: seq<byte>)
    requires At(b, p, e) && p + |e| <= plen <= |b|
    requires |e| >= 2 && e[0] < 0x40 && e[|e| - 1] == 0 && NulFree(e[1..|e| - 1])
    ensures SkipName(b, p, plen) == p + |e|
  {
    forall i | 0 <= i < |e| ensures b[p + i] == e[i] { AtByte(b, p, e, i); }
    forall i | p < i < p + |e| - 1 ensures b[i] != 0 {
      assert b[p + (i - p)] == e[i - p] == e[1..|e| - 1][i - p - 1];
    }
    assert b[p + 0] == e[0] && b[p + (|e| - 1)] == e[|e| - 1];
    ScanToZero(b, p, p + |e| - 1, plen);
  }

  lemma NameSkipped(b: seq<byte>, p: nat, plen: u16, n: Name)
    requires NameOk(n) && At(b, p, EncodeName(n)) && p + |EncodeName(n)| <= plen <= |b|
    ensures SkipName(b, p, plen) == p + |EncodeName(n)| && |EncodeName(n)| >= 2
  {
    if n.Pointer? {
      AtByte(b, p, EncodeName(n), 0);
    } else {
      LabelsHoldNoZero(n.labels);
      TextSkipped(b, p, plen, EncodeName(n));
    }
  }

  lemma RecordFields(b: seq<byte>, q: nat, r: Record)
    requires RecordOk(r)
    requires At(b, q, Tail(r))
    ensures q + 10 + |r.rdata| <= |b|
    ensures b[q + 1] == r.kind % 256 && b[q + 9] == |r.rdata| && b[q + 10..q + 10 + |r.rdata|] == r.rdata
  {
    var head := [r.kind / 256, r.kind % 256] + r.rest + [|r.rdata| / 256 % 256, |r.rdata| % 256];
    AtSplit(b, q, head, r.rdata);
    AtByte(b, q, head, 1);
    AtByte(b, q, head, 9);
  }

  lemma NonEmptyRecord(r: Record)
    requires RecordOk(r)
    ensures |EncodeName(r.name)| >= 2 && |EncodeRecord(r)| == |EncodeName(r.name)| + 10 + |r.rdata|
  {
    if r.name.Labels? { LabelsHoldNoZero(r.name.labels); }
  }

  lemma NonEmptyRecords(rs: seq<Record>)
    requires forall r :: r in rs ==> RecordOk(r)
    ensures rs != [] ==> |EncodeRecords(rs)| >= 12
  {
    if rs != [] { assert rs[0] in rs; NonEmptyRecord(rs[0]); }
  }

  lemma WalkEnds(b: seq<byte>, plen: u16)
    requires Roomy(b, plen)
    ensures Walk(b, plen, plen) == None
  {
  }

  /** One round of the loop handles one record. */
  lemma WalkStep(b: seq<byte>, p: nat, plen: u16, r: Record)
    requires RecordOk(r) && Roomy(b, plen) && At(b, p, EncodeRecord(r))
    requires var e := p + |EncodeRecord(r)|; e == plen || e + 12 <= plen
    ensures p + |EncodeRecord(r)| <= plen
    ensures Walk(b, p, plen) == if LooksLikeA(r) then Some(r.rdata) else Walk(b, p + |EncodeRecord(r)|, plen)
  {
    hide EncodeName;
    hide SkipName;
    NonEmptyRecord(r);
    AtSplit(b, p, EncodeName(r.name), Tail(r));
    NameSkipped(b, p, plen, r.name);
    RecordFields(b, p + |EncodeName(r.name)|, r);
    WalkEnds(b, plen);
  }

  /** What the walk should return: the data of the first record that looks like an address. */
  function Wanted(rs: seq<Record>): Option<seq<byte>> {
    var k := First(rs, LooksLikeA);
    if k < |rs| then Some(rs[k].rdata) else None
  }

  lemma WantedCons(rs: seq<Record>)
    requires rs != []
    ensures Wanted(rs) == if LooksLikeA(rs[0]) then Some(rs[0].rdata) else Wanted(rs[1..])
  {
  }

  /** For every well-formed list of records up to the end of the frame the walk takes the data of the
      first one that looks like an address record, or nothing if there is none. */
  lemma {:induction false} WalkFindsFirst(b: seq<byte>, p: nat, plen: u16, rs: seq<Record>)
    requires forall r :: r in rs ==> RecordOk(r)
    requires Roomy(b, plen) && p <= plen && At(b, p, EncodeRecords(rs)) && p + |EncodeRecords(rs)| == plen
    ensures Walk(b, p, plen) == Wanted(rs)
    decreases |rs|
  {
    hide EncodeRecord;
    hide RecordOk;
    hide LooksLikeA;
    hide Walk;
    if rs == [] {
      WalkEnds(b, plen);
    } else {
      hide Wanted;
      var (r, rest) := (rs[0], rs[1..]);
      assert r in rs;
      NonEmptyRecords(rest);
      AtSplit(b, p, EncodeRecord(r), EncodeRecords(rest));
      WalkStep(b, p, plen, r);
      WantedCons(rs);
      WalkFindsFirst(b, p + |EncodeRecord(r)|, plen, rest);
    }
  }

  /** A response that echoes the query for a name of at most 237 characters: the walk starts right
      behind the question and finds the first address. */
  lemma AnswerFound(b: seq<byte>, plen: u16, h: seq<byte>, tid: byte, rs: seq<Record>)
    requires |h| <= 237 && forall r :: r in rs ==> RecordOk(r)
    requires var q := |Query(h, tid)|;
             && Roomy(b, plen) && b[UDP_DATA_P] == Query(h, tid)[0] && UDP_DATA_P + q + |EncodeRecords(rs)| == plen
             && At(b, UDP_DATA_P + q, EncodeRecords(rs))
    ensures Walk(b, UDP_DATA_P + b[UDP_DATA_P] as int, plen) == Wanted(rs)
  {
    hide Walk;
    LabelsFit(h);
    QueryLength(h, tid);
    WalkFindsFirst(b, UDP_DATA_P + b[UDP_DATA_P] as int, plen, rs);
  }

  lemma {:induction false} LabelsFit(h: seq<byte>)
    ensures forall l :: l in Split(h) ==> |l| <= |h|
    decreases |h|
  {
    if LabelLen(h) < |h| { LabelsFit(h[LabelLen(h) + 1..]); }
  }

  /** The record taken is the first address record exactly when no record of a type from 256 on with low
      byte 1 and four data bytes precedes it. */
  lemma TakesFirstAIff(rs: seq<Record>)
    ensures First(rs, LooksLikeA) == First(rs, IsA)
            <==> forall i :: 0 <= i < First(rs, IsA) ==> !(rs[i].kind >= 256 && LooksLikeA(rs[i]))
    ensures (forall r :: r in rs ==> r.kind < 256) ==> First(rs, LooksLikeA) == First(rs, IsA)
  {
    var (k, m) := (First(rs, LooksLikeA), First(rs, IsA));
    if m < |rs| { assert IsA(rs[m]) && LooksLikeA(rs[m]); }
    assert k <= m;
    if k < m { assert LooksLikeA(rs[k]) && !IsA(rs[k]) && rs[k] in rs; }
  }

  /** A bare root name is skipped exactly only at the end of the frame; before a zero byte, the walk takes
      that byte too. */
  lemma BareRootIff(b: seq<byte>, p: nat, plen: u16)
    requires p < plen <= |b| && b[p] == 0
    ensures SkipName(b, p, plen) == p + 1 <==> p + 1 == plen
    ensures p + 1 < plen && b[p + 1] == 0 ==> SkipName(b, p, plen) == p + 2
  {
  }

  lemma {:induction false} ScanPast(b: seq<byte>, p: nat, q: nat, plen: u16)
    requires p <= q && q + 1 < plen <= |b| && forall i :: p < i <= q ==> b[i] != 0
    ensures SkipLabels(b, p, plen) == SkipLabels(b, q, plen) > q + 1
    decreases q - p
  {
    if p < q { ScanPast(b, p + 1, q, plen); }
  }

  /** Labels that end in a pointer are skipped exactly if and only if the pointer's low byte is zero, which
      the walk takes for the root. Otherwise it goes on to the next zero byte behind the name. */
  lemma MixedNameIff(b: seq<byte>, p: nat, plen: u16, ls: seq<seq<byte>>, hi: byte, lo: byte)
    requires ls != [] && hi >= 0xC0 && forall l :: l in ls ==> LabelOk(l) && NulFree(l)
    requires var e := EncodeLabels(ls) + [hi, lo]; At(b, p, e) && p + |e| < plen <= |b|
    ensures var e := EncodeLabels(ls) + [hi, lo];
            && (SkipName(b, p, plen) == p + |e| <==> lo == 0)
            && (lo != 0 && b[p + |e|] == 0 ==> SkipName(b, p, plen) == p + |e| + 1)
  {
    hide EncodeLabels;
    LabelsHoldNoZero(ls);
    var e := EncodeLabels(ls) + [hi, lo];
    if lo == 0 {
      assert e[1..|e| - 1] == EncodeLabels(ls)[1..] + [hi];
      TextSkipped(b, p, plen, e);
    } else {
      AtByte(b, p, e, 0);
      forall i | p < i <= p + |e| - 1 ensures b[i] != 0 { AtByte(b, p, e, i - p); }
      ScanPast(b, p, p + |e| - 1, plen);
    }
  }
}
