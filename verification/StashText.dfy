/** The text a format record stands for: `$D`, `$S`, `$F`, `$E` and `$H` expanded (EtherCard.cpp). */
module StashText {
  import opened Bytes
  import opened StashStore
  import opened StashWorld

  // ---- C strings

  /** One AVR address space: flash, RAM or EEPROM, addressed by 16-bit pointers. */
  type Memory = m: seq<byte> | |m| == 0x1_0000 witness seq(0x1_0000, _ => 0)

  datatype Strings = Strings(flash: Memory, ram: Memory, eeprom: Memory)

  predicate Terminated(m: seq<byte>, p: int) { exists q :: 0 <= p <= q < |m| && m[q] == NUL }

  /** The C string at `p`. */
  function CStr(m: seq<byte>, p: nat): (s: seq<byte>)
    requires Terminated(m, p)
    ensures p + |s| < |m| && m[p..p + |s|] == s && m[p + |s|] == NUL && NUL !in s
    decreases |m| - p
  {
    if m[p] == NUL then [] else [m[p]] + CStr(m, p + 1)
  }

  lemma {:induction false} CStrIs(m: seq<byte>, p: nat, s: seq<byte>)
    requires p + |s| < |m| && m[p..p + |s|] == s && m[p + |s|] == NUL && NUL !in s
    ensures Terminated(m, p) && CStr(m, p) == s
    decreases |s|
  {
    if s != [] {
      assert m[p] == s[0] && m[p + 1..p + |s|] == s[1..];
      CStrIs(m, p + 1, s[1..]);
    }
  }

  /** `s` up to its first NUL. */
  function UpToNul(s: seq<byte>): (r: seq<byte>)
    ensures r <= s && NUL !in r && (|r| < |s| ==> s[|r|] == NUL)
    ensures |r| == |s| <==> NUL !in s
  {
    if s == [] || s[0] == NUL then [] else [s[0]] + UpToNul(s[1..])
  }

  // ---- decimal numbers

  function Decimal(v: nat): (s: seq<byte>)
    ensures |s| >= 1 && NUL !in s
    ensures forall n :: n >= 1 && v < Power10(n) ==> |s| <= n
  {
    if v > 9 then
      assert forall n: nat :: n >= 1 && v < Power10(n) ==> n >= 2 && v / 10 < Power10(n - 1);
      Decimal(v / 10) + [48 + v % 10]
    else [48 + v]
  }

  function Power10(n: nat): nat { if n == 0 then 1 else 10 * Power10(n - 1) }

  function ParseDecimal(s: seq<byte>): int {
    if s == [] then 0 else 10 * ParseDecimal(s[..|s| - 1]) + s[|s| - 1] - 48
  }

  /** `wtoa` writes the number itself, without leading zeros. */
  lemma {:induction false} DecimalParses(v: nat)
    ensures ParseDecimal(Decimal(v)) == v
    ensures v > 0 ==> Decimal(v)[0] != 48
  {
    if v > 9 {
      DecimalParses(v / 10);
      assert Decimal(v)[..|Decimal(v)| - 1] == Decimal(v / 10);
    }
  }

  // ---- formats

  const DOLLAR: byte := 36
  const AT: byte := 64
  const D: byte := 68
  const E: byte := 69
  const F: byte := 70
  const H: byte := 72
  const S: byte := 83

  /** Every `$` is followed by a letter. */
  predicate WellFormed(f: seq<byte>) {
    f == [] || if f[0] != DOLLAR then WellFormed(f[1..]) else |f| >= 2 && WellFormed(f[2..])
  }

  /** The number of arguments a format takes. */
  function Slots(f: seq<byte>): nat
    requires WellFormed(f)
  {
    if f == [] then 0 else if f[0] != DOLLAR then Slots(f[1..]) else 1 + Slots(f[2..])
  }

  ghost predicate IsFd(dir: seq<Entry>, fd: int, k: int) {
    0 <= k < |dir| && Live(dir[k]) && dir[k].saved && dir[k].pages[0] == fd
  }

  ghost predicate IsSaved(dir: seq<Entry>, fd: int) { exists k :: IsFd(dir, fd, k) }

  /** The saved stash that `fd` names. */
  ghost function FdIndex(dir: seq<Entry>, fd: int): (k: int)
    requires IsSaved(dir, fd)
    ensures IsFd(dir, fd, k)
  {
    var k :| IsFd(dir, fd, k);
    k
  }

  ghost predicate ArgOk(m: Strings, dir: seq<Entry>, t: byte, arg: u16) {
    && (t == S ==> Terminated(m.ram, arg))
    && (t == F ==> Terminated(m.flash, arg))
    && (t == E ==> Terminated(m.eeprom, arg))
    && (t == H ==> IsSaved(dir, arg))
  }

  ghost predicate ArgsOk(m: Strings, dir: seq<Entry>, f: seq<byte>, args: seq<u16>)
    requires WellFormed(f)
  {
    f == [] ||
    if f[0] != DOLLAR then ArgsOk(m, dir, f[1..], args)
    else args != [] && ArgOk(m, dir, f[1], args[0]) && ArgsOk(m, dir, f[2..], args[1..])
  }

  /** What one argument expands to; `$H` stops at a NUL byte, other letters expand to nothing. */
  ghost function Segment(m: Strings, dir: seq<Entry>, t: byte, arg: u16): seq<byte>
    requires ArgOk(m, dir, t, arg)
  {
    if t == D then Decimal(arg)
    else if t == S then CStr(m.ram, arg)
    else if t == F then CStr(m.flash, arg)
    else if t == E then CStr(m.eeprom, arg)
    else if t == H then UpToNul(dir[FdIndex(dir, arg)].data)
    else []
  }

  /** The length that `prepare` counts for one argument: all of a stash, NULs included. */
  ghost function SegmentLen(m: Strings, dir: seq<Entry>, t: byte, arg: u16): nat
    requires ArgOk(m, dir, t, arg)
  {
    if t == H then |dir[FdIndex(dir, arg)].data| else |Segment(m, dir, t, arg)|
  }

  ghost function Expand(m: Strings, dir: seq<Entry>, f: seq<byte>, args: seq<u16>): seq<byte>
    requires WellFormed(f) && ArgsOk(m, dir, f, args)
  {
    if f == [] then []
    else if f[0] != DOLLAR then [f[0]] + Expand(m, dir, f[1..], args)
    else Segment(m, dir, f[1], args[0]) + Expand(m, dir, f[2..], args[1..])
  }

  ghost function Declared(m: Strings, dir: seq<Entry>, f: seq<byte>, args: seq<u16>): nat
    requires WellFormed(f) && ArgsOk(m, dir, f, args)
  {
    if f == [] then 0
    else if f[0] != DOLLAR then 1 + Declared(m, dir, f[1..], args)
    else SegmentLen(m, dir, f[1], args[0]) + Declared(m, dir, f[2..], args[1..])
  }

  /** No `$H` argument holds a NUL byte. */
  ghost predicate NulFree(m: Strings, dir: seq<Entry>, f: seq<byte>, args: seq<u16>)
    requires WellFormed(f) && ArgsOk(m, dir, f, args)
  {
    f == [] ||
    if f[0] != DOLLAR then NulFree(m, dir, f[1..], args)
    else (f[1] == H ==> NUL !in dir[FdIndex(dir, args[0])].data) && NulFree(m, dir, f[2..], args[1..])
  }

  /** `prepare` counts the length of the expansion exactly when no stash in it holds a NUL byte. */
  lemma {:induction false} DeclaredIsLength(m: Strings, dir: seq<Entry>, f: seq<byte>, args: seq<u16>)
    requires WellFormed(f) && ArgsOk(m, dir, f, args)
    ensures |Expand(m, dir, f, args)| <= Declared(m, dir, f, args)
    ensures |Expand(m, dir, f, args)| == Declared(m, dir, f, args) <==> NulFree(m, dir, f, args)
  {
    if f == [] {
    } else if f[0] != DOLLAR {
      DeclaredIsLength(m, dir, f[1..], args);
    } else {
      DeclaredIsLength(m, dir, f[2..], args[1..]);
    }
  }

  /** The part of `text` that `extract(offset, count)` asks for. */
  function Slice(text: seq<byte>, offset: nat, count: nat): seq<byte> {
    if offset >= |text| then []
    else if offset + count >= |text| then text[offset..]
    else text[offset..offset + count]
  }

  function Sum(ns: seq<nat>): nat { if ns == [] then 0 else Sum(ns[..|ns| - 1]) + ns[|ns| - 1] }

  lemma SliceAppend(text: seq<byte>, a: nat, n: nat)
    ensures Slice(text, 0, a) + Slice(text, a, n) == Slice(text, 0, a + n)
  {
  }

  // ---- the record on page 0

  /** `bufs[0].words[i]`, little-endian. */
  function Word(p: Page, i: nat): u16
    requires i < 32
  {
    p[2 * i] as int + 256 * (p[2 * i + 1] as int)
  }

  function RecordArgs(p: Page, n: nat): seq<u16>
    requires n <= 30
  {
    seq(n, i requires 0 <= i < n => Word(p, 2 + i))
  }

  /** Page 0 holds a record whose arguments can all be expanded. */
  ghost predicate RecordOk(m: Strings, dir: seq<Entry>, p: Page) {
    && Terminated(m.flash, Word(p, 1))
    && WellFormed(CStr(m.flash, Word(p, 1))) && Slots(CStr(m.flash, Word(p, 1))) <= 30
    && ArgsOk(m, dir, CStr(m.flash, Word(p, 1)), RecordArgs(p, Slots(CStr(m.flash, Word(p, 1)))))
  }

  ghost function RecordText(m: Strings, dir: seq<Entry>, p: Page): seq<byte>
    requires RecordOk(m, dir, p)
  {
    var f := CStr(m.flash, Word(p, 1));
    Expand(m, dir, f, RecordArgs(p, Slots(f)))
  }

  /** Arguments past the last slot play no part. */
  lemma {:induction false} ExtraArgs(m: Strings, dir: seq<Entry>, f: seq<byte>, args: seq<u16>)
    requires WellFormed(f) && ArgsOk(m, dir, f, args)
    ensures Slots(f) <= |args|
    ensures ArgsOk(m, dir, f, args[..Slots(f)])
    ensures Expand(m, dir, f, args[..Slots(f)]) == Expand(m, dir, f, args)
    ensures Declared(m, dir, f, args[..Slots(f)]) == Declared(m, dir, f, args)
  {
    if f == [] {
    } else if f[0] != DOLLAR {
      ExtraArgs(m, dir, f[1..], args);
    } else {
      ExtraArgs(m, dir, f[2..], args[1..]);
      assert args[..Slots(f)][1..] == args[1..][..Slots(f[2..])];
    }
  }
}
