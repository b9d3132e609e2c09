/** The URL codec over C strings, decoding in place (webutil.cpp). */
module Url {
  import opened Bytes
  import opened Slices

  const SPACE: byte := 32
  const PERCENT: byte := 37
  const PLUS: byte := 43

  /** `isalnum`, of ASCII alone. */
  predicate IsAlnum(c: byte) { 48 <= c <= 57 || 65 <= c <= 90 || 97 <= c <= 122 }

  function HexDigit(n: byte): byte
    requires n < 16
  {
    if n > 9 then n - 10 + 97 else n + 48
  }

  /** `h2int`: anything but a hexadecimal digit counts as zero. */
  function H2int(c: byte): (n: byte)
    ensures n < 16
  {
    if 48 <= c <= 57 then c - 48 else if 97 <= c <= 102 then c - 97 + 10 else if 65 <= c <= 70 then c - 65 + 10 else 0
  }

  function UpperDigit(n: byte): byte
    requires n < 16
  {
    if n > 9 then n - 10 + 65 else n + 48
  }

  /** `h2int` takes a digit of either case for its value, and nothing else for anything but zero. */
  lemma HexValue(c: byte)
    ensures forall n: byte :: n < 16 && (c == HexDigit(n) || c == UpperDigit(n)) ==> H2int(c) == n
    ensures (forall n: byte :: n < 16 ==> c != HexDigit(n) && c != UpperDigit(n)) ==> H2int(c) == 0
  {
    var n: byte := H2int(c);
    assert c != HexDigit(n) && c != UpperDigit(n) ==> n == 0;
  }

  predicate Plain(c: byte) { c == SPACE || IsAlnum(c) }

  function EncodeChar(c: byte): seq<byte> {
    if c == SPACE then [PLUS] else if IsAlnum(c) then [c] else [PERCENT, HexDigit(c / 16), HexDigit(c % 16)]
  }

  /** Letters and digits stand for themselves, a space becomes a plus sign, every other byte a percent sign and two
      hexadecimal digits, high half first. */
  lemma EncodedAs(c: byte)
    ensures EncodeChar(c) == [c] <==> 48 <= c <= 57 || 65 <= c <= 90 || 97 <= c <= 122
    ensures EncodeChar(c) == [43] <==> c == 32
    ensures |EncodeChar(c)| == 3 ==>
              var e := EncodeChar(c);
              && e[0] == 37 && H2int(e[1]) * 16 + H2int(e[2]) == c
              && (48 <= e[1] <= 57 || 97 <= e[1] <= 102) && (48 <= e[2] <= 57 || 97 <= e[2] <= 102)
    ensures |EncodeChar(c)| in {1, 3}
  {
  }

  function Encode(s: seq<byte>): seq<byte> {
    if s == [] then [] else EncodeChar(s[0]) + Encode(s[1..])
  }

  function Next(b: seq<byte>, i: nat): nat
    requires i < |b|
  {
    if b[i] == PERCENT then i + 3 else i + 1
  }

  /** The walk of `urlDecode` from position `i` meets a terminator inside the memory `b`. */
  predicate Ends(b: seq<byte>, i: nat): (r: bool)
    ensures r ==> i < |b|
    decreases |b| - i
  {
    i < |b| && (b[i] == 0 || Ends(b, Next(b, i)))
  }

  function DecodeChar(b: seq<byte>, i: nat): byte
    requires i < |b| && (b[i] == PERCENT ==> i + 2 < |b|)
  {
    if b[i] == PERCENT then 16 * H2int(b[i + 1]) + H2int(b[i + 2]) else if b[i] == PLUS then SPACE else b[i]
  }

  function Decode(b: seq<byte>, i: nat): seq<byte>
    requires Ends(b, i)
    decreases |b| - i
  {
    if b[i] == 0 then [] else [DecodeChar(b, i)] + Decode(b, Next(b, i))
  }

  /** Where the walk stops. */
  function End(b: seq<byte>, i: nat): (e: nat)
    requires Ends(b, i)
    ensures i <= e < |b| && b[e] == 0
    decreases |b| - i
  {
    if b[i] == 0 then i else End(b, Next(b, i))
  }

  lemma WalkGoesOn(b: seq<byte>, i: nat)
    requires i < |b| && b[i] != 0
    ensures Ends(b, i) <==> Ends(b, Next(b, i))
    ensures Ends(b, i) ==> (b[i] == PERCENT ==> i + 3 < |b|)
    ensures Ends(b, i) ==> Decode(b, i) == [DecodeChar(b, i)] + Decode(b, Next(b, i)) && End(b, i) == End(b, Next(b, i))
  {
  }

  lemma WalkStops(b: seq<byte>, i: nat)
    requires i < |b| && b[i] == 0
    ensures Ends(b, i) && Decode(b, i) == [] && End(b, i) == i
  {
  }

  function Escaped(s: seq<byte>): nat {
    if s == [] then 0 else (if Plain(s[0]) then 0 else 1) + Escaped(s[1..])
  }

  /** The encoding is longer by two for every escaped character, so at most three times as long. */
  lemma {:induction false} EncodedLength(s: seq<byte>)
    ensures |Encode(s)| == |s| + 2 * Escaped(s) <= 3 * |s|
  {
    if s != [] { EncodedLength(s[1..]); }
  }

  lemma EncodedChar(c: byte, b: seq<byte>, i: nat)
    requires c != 0 && At(b, i, EncodeChar(c)) && i + |EncodeChar(c)| < |b|
    ensures b[i] != 0 && Next(b, i) == i + |EncodeChar(c)| && DecodeChar(b, i) == c
  {
    var e := EncodeChar(c);
    assert b[i] == e[0];
    if !Plain(c) {
      assert b[i + 1] == e[1] && b[i + 2] == e[2];
    }
  }

  /** `s` encoded and terminated lies at `i`. */
  predicate EncodedAt(b: seq<byte>, i: nat, s: seq<byte>) {
    At(b, i, Encode(s)) && i + |Encode(s)| < |b| && b[i + |Encode(s)|] == 0
  }

  /** Decoding the encoding of any C string gives it back, whatever lies behind its terminator. */
  lemma {:induction false} RoundTrip(b: seq<byte>, i: nat, s: seq<byte>)
    requires NulFree(s) && EncodedAt(b, i, s)
    ensures Ends(b, i) && Decode(b, i) == s && End(b, i) == i + |Encode(s)|
    decreases |s|
  {
    if s != [] {
      hide EncodeChar;
      hide Ends;
      hide End;
      hide Decode;
      hide DecodeChar;
      var n := |EncodeChar(s[0])|;
      AtSplit(b, i, EncodeChar(s[0]), Encode(s[1..]));
      EncodedChar(s[0], b, i);
      RoundTrip(b, i + n, s[1..]);
      WalkGoesOn(b, i);
    } else {
      WalkStops(b, i);
    }
  }

  /** Every escape the walk meets in the string has its two digits inside the string. */
  predicate Complete(s: seq<byte>)
    decreases |s|
  {
    s == [] || if s[0] == PERCENT then |s| >= 3 && Complete(s[3..]) else Complete(s[1..])
  }

  /** The walk stops at the terminator of the string exactly when no escape in it is cut short;
      otherwise it has run past it. */
  lemma {:induction false} StopsAtTerminatorIff(b: seq<byte>, i: nat, s: seq<byte>)
    requires NulFree(s) && i + |s| < |b| && b[i..i + |s|] == s && b[i + |s|] == 0 && Ends(b, i)
    ensures End(b, i) == i + |s| <==> Complete(s)
    ensures End(b, i) >= i + |s|
    decreases |s|
  {
    if s != [] {
      assert b[i] == s[0];
      var d := Next(b, i) - i;
      if d <= |s| {
        assert b[i..i + |s|][d..] == b[i + d..i + |s|];
        StopsAtTerminatorIff(b, i + d, s[d..]);
      }
    }
  }

  // ---- the functions themselves

  /** `int2h`. */
  method Int2h(c: byte, buf: array<byte>, p: nat)
    requires p + 3 <= buf.Length
    modifies buf
    ensures buf[p] == HexDigit(c / 16) && buf[p + 1] == HexDigit(c % 16) && buf[p + 2] == 0
    ensures forall i :: 0 <= i < buf.Length && !(p <= i < p + 3) ==> buf[i] == old(buf[i])
  {
    buf[p + 1] := c % 16 + 48;
    if c % 16 > 9 {
      buf[p + 1] := c % 16 - 10 + 97;
    }
    var h := c / 16;
    buf[p] := h + 48;
    if h > 9 {
      buf[p] := h - 10 + 97;
    }
    buf[p + 2] := 0;
  }

  lemma {:induction false} EncodeConcat(s: seq<byte>, t: seq<byte>)
    ensures Encode(s + t) == Encode(s) + Encode(t)
  {
    hide EncodeChar;
    if s == [] {
      assert s + t == t;
    } else {
      assert (s + t)[0] == s[0];
      EncodeConcat(s[1..], t);
      assert (s + t)[1..] == s[1..] + t;
    }
  }

  lemma EncodeNext(s: seq<byte>, i: nat)
    requires i < |s|
    ensures Encode(s[..i + 1]) == Encode(s[..i]) + EncodeChar(s[i])
    ensures |Encode(s[..i + 1])| <= |Encode(s)|
  {
    hide EncodeChar;
    assert s[..i + 1] == s[..i] + [s[i]] && [s[i]][1..] == [];
    EncodeConcat(s[..i], [s[i]]);
    assert s == s[..i + 1] + s[i + 1..];
    EncodeConcat(s[..i + 1], s[i + 1..]);
  }

  /** One character at `p`; `int2h` also puts a terminator behind its digits. */
  method PutChar(c: byte, urlbuf: array<byte>, p: nat) returns (q: nat)
    requires p + |EncodeChar(c)| < urlbuf.Length
    modifies urlbuf
    ensures q == p + |EncodeChar(c)| && urlbuf[p..q] == EncodeChar(c)
    ensures forall k :: 0 <= k < urlbuf.Length && (k < p || q < k) ==> urlbuf[k] == old(urlbuf[k])
  {
    if c == SPACE || IsAlnum(c) {
      urlbuf[p] := if c == SPACE then PLUS else c;
      q := p + 1;
    } else {
      urlbuf[p] := PERCENT;
      Int2h(c, urlbuf, p + 1);
      q := p + 3;
    }
  }

  /** `urlEncode`. */
  method UrlEncode(str: seq<byte>, urlbuf: array<byte>)
    requires CString(str)
    requires |Encode(str[..|str| - 1])| < urlbuf.Length
    modifies urlbuf
    ensures EncodedAt(urlbuf[..], 0, str[..|str| - 1])
    ensures forall k :: |Encode(str[..|str| - 1])| < k < urlbuf.Length ==> urlbuf[k] == old(urlbuf[k])
  {
    hide EncodeChar;
    ghost var s := str[..|str| - 1];
    var (i, p) := (0, 0);
    assert s[..0] == [];
    while str[i] != 0
      invariant i <= |s| && p == |Encode(s[..i])| <= |Encode(s)| && urlbuf[..p] == Encode(s[..i])
      invariant forall k :: |Encode(s)| < k < urlbuf.Length ==> urlbuf[k] == old(urlbuf[k])
      decreases |s| - i
    {
      EncodeNext(s, i);
      ghost var before := urlbuf[..p];
      var q := PutChar(str[i], urlbuf, p);
      assert urlbuf[..q] == before + urlbuf[p..q];
      p := q;
      i := i + 1;
    }
    assert s[..|s|] == s;
    urlbuf[p] := 0;
  }

  /** One round of the loop: the character at `src`, which may have been overwritten only before it. */
  method DecodeOne(urlbuf: array<byte>, src: nat, ghost b: seq<byte>) returns (c: byte, next: nat)
    requires src < urlbuf.Length == |b| && (b[src] == PERCENT ==> src + 3 < |b|)
    requires forall k :: src <= k < urlbuf.Length ==> urlbuf[k] == b[k]
    ensures c == DecodeChar(b, src) && next == Next(b, src)
  {
    c, next := urlbuf[src], src;
    if c == PLUS {
      c := SPACE;
    }
    if c == PERCENT {
      next := next + 1;
      c := urlbuf[next];
      next := next + 1;
      c := 16 * H2int(c) + H2int(urlbuf[next]);
    }
    next := next + 1;
  }

  /** `urlDecode`, in place: the result and its terminator overwrite the start of the buffer, nothing
      behind them changes, and nothing is written past the position already read. */
  method UrlDecode(urlbuf: array<byte>)
    requires Ends(urlbuf[..], 0)
    modifies urlbuf
    ensures var d := Decode(old(urlbuf[..]), 0);
            && |d| <= End(old(urlbuf[..]), 0) < urlbuf.Length && urlbuf[..|d|] == d && urlbuf[|d|] == 0
            && forall k :: |d| < k < urlbuf.Length ==> urlbuf[k] == old(urlbuf[k])
  {
    hide Decode;
    hide Ends;
    hide End;
    hide DecodeChar;
    ghost var b := urlbuf[..];
    var (src, dst) := (0, 0);
    while urlbuf[src] != 0
      invariant 0 <= dst <= src < urlbuf.Length && Ends(b, src) && End(b, src) == End(b, 0)
      invariant Decode(b, 0) == urlbuf[..dst] + Decode(b, src)
      invariant forall k :: dst <= k < urlbuf.Length ==> urlbuf[k] == b[k]
      decreases urlbuf.Length - src
    {
      WalkGoesOn(b, src);
      ghost var (at, before) := (src, urlbuf[..dst]);
      var c;
      c, src := DecodeOne(urlbuf, src, b);
      urlbuf[dst] := c;
      dst := dst + 1;
      assert urlbuf[..dst] == before + [DecodeChar(b, at)];
    }
    WalkStops(b, src);
    urlbuf[dst] := 0;
  }
}
