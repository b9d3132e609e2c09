/** One's-complement checksums (section 1 of RFC 1071) as `fill_checksum` computes them, and the
    incremental update of the echo reply (section 3 of RFC 1624) (tcpip.cpp). */
module Checksum {
  import opened Bytes

  /** The bytes as big-endian 16-bit words, an odd last byte padded with zero, summed. */
  function WordSum(s: seq<byte>): nat {
    if s == [] then 0
    else if |s| == 1 then 256 * s[0]
    else 256 * s[0] + s[1] + WordSum(s[2..])
  }

  /** Carries above 16 bits added back in until none is left. */
  function Fold(n: nat): (r: nat)
    ensures r < 0x1_0000
  {
    if n < 0x1_0000 then n else Fold(n % 0x1_0000 + n / 0x1_0000)
  }

  /** The receiver's test: pseudo-header and region sum to all ones. */
  predicate Verifies(pseudo: nat, s: seq<byte>) { Fold(pseudo + WordSum(s)) == 0xFFFF }

  function Complement(pseudo: nat, s: seq<byte>): u16 { 0xFFFF - Fold(pseudo + WordSum(s)) }

  function Put16(s: seq<byte>, d: nat, v: u16): seq<byte>
    requires d + 1 < |s|
  {
    s[d := v / 256][d + 1 := v % 256]
  }

  lemma CastOut(n: int, q: int, r: int)
    requires n == 0xFFFF * q + r
    ensures n % 0xFFFF == r % 0xFFFF
  {
  }

  /** Folding keeps the value modulo 65535, and only zero folds to zero. */
  lemma {:induction false} FoldModulo(n: nat)
    ensures Fold(n) % 0xFFFF == n % 0xFFFF
    ensures Fold(n) == 0 <==> n == 0
  {
    if n >= 0x1_0000 {
      var (q, r) := (n / 0x1_0000, n % 0x1_0000);
      CastOut(n, q, q + r);
      FoldModulo(r + q);
    }
  }

  lemma AllOnesIff(n: nat)
    ensures Fold(n) == 0xFFFF <==> n > 0 && n % 0xFFFF == 0
  {
    FoldModulo(n);
  }

  /** An odd last byte counts as if a zero byte followed it, and two bytes as one number, high byte first. */
  lemma {:induction false} PaddedSum(s: seq<byte>, hi: byte, lo: byte)
    ensures |s| % 2 == 1 ==> WordSum(s + [0]) == WordSum(s)
    ensures |s| % 2 == 0 ==> WordSum(s + [hi, lo]) == WordSum(s) + 0x100 * hi + lo
    decreases |s|
  {
    if |s| >= 2 {
      assert (s + [0])[2..] == s[2..] + [0] && (s + [hi, lo])[2..] == s[2..] + [hi, lo];
      PaddedSum(s[2..], hi, lo);
    } else if s == [] {
      assert s + [hi, lo] == [hi, lo] && [hi, lo][2..] == [];
    } else {
      assert (s + [0])[2..] == [];
    }
  }

  lemma {:induction false} WordSumUpdate(s: seq<byte>, d: nat, v: u16)
    requires d + 1 < |s| && d % 2 == 0 && s[d] == 0 && s[d + 1] == 0
    ensures WordSum(Put16(s, d, v)) == WordSum(s) + v
    decreases |s|
  {
    var t := Put16(s, d, v);
    if d == 0 {
      assert t[2..] == s[2..];
    } else {
      WordSumUpdate(s[2..], d - 2, v);
      assert t[2..] == Put16(s[2..], d - 2, v);
    }
  }

  /** The sum of a region of at most 65535 bytes and a 16-bit pseudo-header stays below 2^32. */
  lemma {:induction false} SumFits(s: seq<byte>)
    ensures WordSum(s) <= 0xFFFF * ((|s| + 1) / 2)
    decreases |s|
  {
    if |s| >= 2 { SumFits(s[2..]); }
  }

  /** A region whose checksum field was zero verifies once the complement is stored in it. */
  lemma FilledVerifies(pseudo: nat, s: seq<byte>, d: nat)
    requires d + 1 < |s| && d % 2 == 0 && s[d] == 0 && s[d + 1] == 0
    ensures Verifies(pseudo, Put16(s, d, Complement(pseudo, s)))
  {
    var n := pseudo + WordSum(s);
    var ck := Complement(pseudo, s);
    WordSumUpdate(s, d, ck);
    FoldModulo(n);
    FoldAtMost(n);
    var q := (n - Fold(n)) / 0xFFFF;
    Divides(n - Fold(n), n, Fold(n));
    AllOnesIff(n + ck);
  }

  lemma {:induction false} FoldAtMost(n: nat)
    ensures Fold(n) <= n
  {
    if n >= 0x1_0000 { FoldAtMost(n % 0x1_0000 + n / 0x1_0000); }
  }

  lemma Divides(d: int, a: int, b: int)
    requires d == a - b && a % 0xFFFF == b % 0xFFFF
    ensures d % 0xFFFF == 0 && (d + 0xFFFF) % 0xFFFF == 0
  {
  }

  // ---- the pseudo-header sum of `fill_checksum`: 16-bit unsigned arithmetic

  const UDP := 1
  const TCP := 2
  const IP_PROTO_UDP_V := 17
  const IP_PROTO_TCP_V := 6

  function Pseudo(kind: byte, len: u16): u16 {
    if kind == UDP then (IP_PROTO_UDP_V + len - 8) % 0x1_0000
    else if kind == TCP then (IP_PROTO_TCP_V + len - 8) % 0x1_0000
    else 0
  }

  /** Protocol number plus segment length, unless the 16-bit subtraction or addition wraps. */
  lemma PseudoExact(kind: byte, len: u16)
    requires kind == UDP || kind == TCP
    ensures Pseudo(kind, len) == (if kind == UDP then IP_PROTO_UDP_V else IP_PROTO_TCP_V) + (len - 8)
            <==> (kind == UDP ==> len < 0xFFF7) && (kind == TCP ==> len >= 2)
  {
  }

  // ---- the echo reply

  /** What `make_echo_reply_from_request` does to the ICMP message: type 0, checksum plus 0x0800. */
  function EchoReply(s: seq<byte>): seq<byte>
    requires |s| >= 4
  {
    var low: byte := if s[2] > 0xFF - 0x08 then (s[3] as int + 1) % 256 else s[3];
    s[0 := 0][3 := low][2 := (s[2] as int + 0x08) % 256]
  }

  /** For a request that verifies, the reply verifies exactly unless the end-around carry out of the
      high byte meets a low byte of 0xFF, where the code drops the second carry. */
  lemma EchoReplyVerifiesIff(s: seq<byte>)
    requires |s| >= 4 && s[0] == 8 && Verifies(0, s)
    ensures Verifies(0, EchoReply(s)) <==> !(s[2] > 0xF7 && s[3] == 0xFF)
  {
    var t := EchoReply(s);
    WordSumHead(s);
    WordSumHead(t);
    assert t[4..] == s[4..];
    AllOnesIff(WordSum(s));
    AllOnesIff(WordSum(t));
    EchoArithmetic(WordSum(s), WordSum(t), s[1], s[2], s[3], WordSum(s[4..]));
  }

  /** An echo request of eight bytes that verifies, and whose reply does not. */
  lemma EchoCarryLost()
    ensures var s := [8, 0, 0xF8, 0xFF, 0xFE, 0xFF, 0, 0]; Verifies(0, s) && !Verifies(0, EchoReply(s))
  {
    var s: seq<byte> := [8, 0, 0xF8, 0xFF, 0xFE, 0xFF, 0, 0];
    WordSumHead(s);
    assert s[4..] == [0xFE, 0xFF, 0, 0];
    WordSumHead(s[4..]);
    assert s[4..][4..] == [];
    EchoReplyVerifiesIff(s);
  }

  lemma WordSumHead(s: seq<byte>)
    requires |s| >= 4
    ensures WordSum(s) == 256 * (s[0] as int) + s[1] as int + 256 * (s[2] as int) + s[3] as int + WordSum(s[4..])
  {
    assert s[2..][2..] == s[4..];
  }

  lemma EchoArithmetic(n: nat, n': nat, code: byte, hi: byte, lo: byte, rest: nat)
    requires n == 0x800 + code + 256 * (hi as int) + lo + rest && n % 0xFFFF == 0
    requires n' == code + 256 * ((hi as int + 8) % 256) + (if hi > 0xF7 then (lo as int + 1) % 256 else lo) + rest
    ensures n' > 0 && n' % 0xFFFF == 0 <==> !(hi > 0xF7 && lo == 0xFF)
  {
    if hi <= 0xF7 {
      assert n' == n;
    } else if lo < 0xFF {
      assert n' == n - 0xFFFF;
      Multiple(n, 0);
    } else {
      assert n' == n - 0xFFFF - 256;
      Multiple(n, 256);
    }
  }

  lemma Multiple(n: nat, k: int)
    requires n % 0xFFFF == 0 && n >= 0x1_0000 && 0 <= k < 0xFFFF
    ensures (n - 0xFFFF - k) % 0xFFFF == if k == 0 then 0 else 0xFFFF - k
  {
  }
}
