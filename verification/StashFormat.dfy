/** `prepare`, `length`, `extract` and `cleanup`: a format record on page 0, expanded lazily. */
module StashFormat {
  import opened Bytes
  import opened StashStore
  import opened StashWorld
  import opened StashText
  import opened StashObjects

  /** Page 0 is in slot 0, and the stashes are as `dir` says. */
  ghost predicate RecordLoaded(mem: StashMemory, dir: seq<Entry>)
    reads mem.Footprint()
  {
    mem.Valid() && mem.bnum0 == 0 && Inv(mem.View(), dir)
  }

  /** The decimal digits of `value`, NUL-terminated; returns the position of the terminator. */
  method Wtoa(value: u16, buf: array<byte>, ptr: nat) returns (end: nat)
    requires ptr + |Decimal(value)| < buf.Length
    modifies buf
    ensures end == ptr + |Decimal(value)| && buf[ptr..end] == Decimal(value) && buf[end] == NUL
    ensures forall i :: 0 <= i < ptr ==> buf[i] == old(buf[i])
    decreases value
  {
    end := ptr;
    if value > 9 {
      end := Wtoa(value / 10, buf, ptr);
    }
    label L:
    buf[end] := 48 + value % 10;
    assert value > 9 ==> buf[ptr..end] == old@L(buf[ptr..end]);
    end := end + 1;
    buf[end] := NUL;
    assert value > 9 ==> buf[ptr..end] == Decimal(value / 10) + [48 + value % 10];
  }

  lemma DecimalLength(v: u16)
    ensures |Decimal(v)| <= 5
  {
    assert Power10(5) == 100000;
  }

  lemma AddMod(a: int, b: int)
    ensures (a % 0x1_0000 + b) % 0x1_0000 == (a + b) % 0x1_0000
  {
  }

  /** `*seg = value`. */
  method SetWord(mem: StashMemory, i: nat, value: u16, ghost dir: seq<Entry>)
    requires RecordLoaded(mem, dir) && i < 32
    modifies mem.bytes0
    ensures RecordLoaded(mem, dir)
    ensures Word(mem.bytes0[..], i) == value
    ensures forall j :: 0 <= j < 32 && j != i ==> Word(mem.bytes0[..], j) == old(Word(mem.bytes0[..], j))
    ensures mem.View() == old(mem.View()).(b0 := Block(mem.bytes0[..], 0))
  {
    ghost var s := mem.View();
    mem.bytes0[2 * i] := value % 256;
    mem.bytes0[2 * i + 1] := value / 256;
    RecordKeeps(s, dir, mem.bytes0[..]);
    assert mem.View() == s.(b0 := Block(mem.bytes0[..], 0));
  }

  /** `Stash::load(0, 0)`. */
  method LoadRecord(mem: StashMemory, ghost dir: seq<Entry>)
    requires mem.Valid() && Inv(mem.View(), dir)
    modifies mem.Footprint()
    ensures RecordLoaded(mem, dir) && mem.View() == Load0(old(mem.View()), 0)
    ensures mem.bytes0[..] == Logical(old(mem.View()), 0) && mem.freeMap[..] == old(mem.freeMap[..])
    ensures forall p :: 0 <= p < PAGES ==> Logical(mem.View(), p) == Logical(old(mem.View()), p)
  {
    RecordKeeps(mem.View(), dir, Blank());
    mem.Load(0, 0);
  }

  /** `length`: the first word of the record. */
  method Length(mem: StashMemory, ghost dir: seq<Entry>) returns (n: u16)
    requires mem.Valid() && Inv(mem.View(), dir)
    modifies mem.Footprint()
    ensures RecordLoaded(mem, dir) && mem.View() == Load0(old(mem.View()), 0)
    ensures n == Word(Logical(old(mem.View()), 0), 0)
  {
    LoadRecord(mem, dir);
    n := mem.bytes0[0] as int + 256 * (mem.bytes0[1] as int);
  }

  /** How long one argument is, as `prepare` measures it. */
  method ArgLength(mem: StashMemory, m: Strings, t: byte, arg: u16, ghost dir: seq<Entry>) returns (n: u16)
    requires RecordLoaded(mem, dir) && ArgOk(m, dir, t, arg)
    modifies mem.Footprint()
    ensures RecordLoaded(mem, dir) && n == SegmentLen(m, dir, t, arg)
    ensures mem.View() == old(mem.View()).(b1 := mem.View().b1)
  {
    hide Pages;
    hide Inv;
    hide Slot1Fresh;
    n := 0;
    if t == D {
      var buf := new byte[7](_ => 0);
      DecimalLength(arg);
      n := Wtoa(arg, buf, 0);
      assert mem.View() == old(mem.View());
    } else if t == S {
      n := |CStr(m.ram, arg)|;
    } else if t == F {
      n := |CStr(m.flash, arg)|;
    } else if t == E {
      var s := arg;
      while m.eeprom[s] != NUL
        invariant Terminated(m.eeprom, s) && n == s - arg
        invariant n + |CStr(m.eeprom, s)| == |CStr(m.eeprom, arg)|
        decreases |m.eeprom| - s
      {
        s := s + 1;
        n := n + 1;
      }
    } else if t == H {
      ghost var k := FdIndex(dir, arg);
      OpenKeeps(mem.View(), dir, k);
      var stash := new Stash(mem);
      assert mem.View() == old(mem.View());
      stash.Open(arg);
      SizeIsLength(mem.View(), dir, k, stash.Value());
      n := stash.Size();
    }
  }

  /** What `prepare` leaves on page 0: the declared length, the format pointer and the arguments. */
  ghost predicate Prepared(m: Strings, dir: seq<Entry>, p: Page, fmt: u16, args: seq<u16>)
    requires Terminated(m.flash, fmt) && WellFormed(CStr(m.flash, fmt)) && Slots(CStr(m.flash, fmt)) <= 30
    requires ArgsOk(m, dir, CStr(m.flash, fmt), args)
  {
    var f := CStr(m.flash, fmt);
    && RecordOk(m, dir, p) && Word(p, 1) == fmt
    && Word(p, 0) == Declared(m, dir, f, args) % 0x1_0000
    && RecordText(m, dir, p) == Expand(m, dir, f, args)
    && Slots(f) <= |args| && RecordArgs(p, Slots(f)) == args[..Slots(f)]
  }

  /** From `fp` on the format is well formed and `args` serve its slots. */
  ghost predicate Parses(m: Strings, dir: seq<Entry>, fp: int, args: seq<u16>) {
    && 0 <= fp < 0x1_0000 && Terminated(m.flash, fp)
    && WellFormed(CStr(m.flash, fp)) && ArgsOk(m, dir, CStr(m.flash, fp), args)
  }

  /** How much the arguments from `fp` on will still change the counted length. */
  ghost function Growth(m: Strings, dir: seq<Entry>, fp: int, args: seq<u16>): int
    requires Parses(m, dir, fp, args)
  {
    Declared(m, dir, CStr(m.flash, fp), args) - |CStr(m.flash, fp)|
  }

  lemma CStrTail(m: seq<byte>, p: nat)
    requires Terminated(m, p) && m[p] != NUL
    ensures Terminated(m, p + 1) && CStr(m, p) == [m[p]] + CStr(m, p + 1)
  {
  }

  lemma LiteralStep(m: Strings, dir: seq<Entry>, fp: int, args: seq<u16>)
    requires Parses(m, dir, fp, args) && m.flash[fp] != NUL && m.flash[fp] != DOLLAR
    ensures Parses(m, dir, fp + 1, args)
    ensures Slots(CStr(m.flash, fp + 1)) == Slots(CStr(m.flash, fp))
    ensures Growth(m, dir, fp + 1, args) == Growth(m, dir, fp, args)
    ensures Expand(m, dir, CStr(m.flash, fp), args) == [m.flash[fp]] + Expand(m, dir, CStr(m.flash, fp + 1), args)
  {
    CStrTail(m.flash, fp);
    assert CStr(m.flash, fp)[1..] == CStr(m.flash, fp + 1);
  }

  lemma ArgStep(m: Strings, dir: seq<Entry>, fp: int, args: seq<u16>)
    requires Parses(m, dir, fp, args) && m.flash[fp] == DOLLAR
    ensures fp + 2 < 0x1_0000 && args != [] && ArgOk(m, dir, m.flash[fp + 1], args[0])
    ensures Parses(m, dir, fp + 2, args[1..])
    ensures Slots(CStr(m.flash, fp)) == 1 + Slots(CStr(m.flash, fp + 2))
    ensures Growth(m, dir, fp, args)
         == SegmentLen(m, dir, m.flash[fp + 1], args[0]) - 2 + Growth(m, dir, fp + 2, args[1..])
    ensures Expand(m, dir, CStr(m.flash, fp), args)
         == Segment(m, dir, m.flash[fp + 1], args[0]) + Expand(m, dir, CStr(m.flash, fp + 2), args[1..])
  {
    CStrTail(m.flash, fp);
    CStrTail(m.flash, fp + 1);
    assert CStr(m.flash, fp)[2..] == CStr(m.flash, fp + 2);
  }

  /** The record once `a` arguments have been stored and `n` bytes counted. */
  predicate Words(p: Page, fmt: u16, args: seq<u16>, a: nat, n: int) {
    && a <= |args| && a <= 30 && Word(p, 1) == fmt && Word(p, 0) == n % 0x1_0000
    && forall i :: 0 <= i < a ==> Word(p, 2 + i) == args[i]
  }

  /** `s` differs from `t` in the contents of the slots only, both holding page 0 in slot 0. */
  predicate SameChip(s: Store, t: Store) {
    s.chip == t.chip && s.free == t.free && s.b0.bnum == 0 && t.b0.bnum == 0
  }

  /** One `$` of `prepare`: measure the argument, store it, count `arglen - 2` more bytes. */
  method TakeArg(mem: StashMemory, m: Strings, fmt: u16, args: seq<u16>, a: nat, t: byte, ghost n: int,
                 ghost dir: seq<Entry>)
    requires RecordLoaded(mem, dir) && a < 30 && a < |args| && Words(mem.bytes0[..], fmt, args, a, n)
    requires ArgOk(m, dir, t, args[a])
    modifies mem.Footprint()
    ensures RecordLoaded(mem, dir) && SameChip(mem.View(), old(mem.View()))
    ensures Words(mem.bytes0[..], fmt, args, a + 1, n + SegmentLen(m, dir, t, args[a]) - 2)
  {
    hide Inv;
    hide Pages;
    ghost var p: Page := mem.bytes0[..];
    var arglen := ArgLength(mem, m, t, args[a], dir);
    assert mem.bytes0[..] == p;
    SetWord(mem, 2 + a, args[a], dir);
    var total := mem.bytes0[0] as int + 256 * (mem.bytes0[1] as int);
    assert total == Word(mem.bytes0[..], 0);
    SetWord(mem, 0, (total + arglen - 2) % 0x1_0000, dir);
    AddMod(n, arglen - 2);
  }

  method Prepare(mem: StashMemory, m: Strings, fmt: u16, args: seq<u16>, ghost dir: seq<Entry>)
    requires mem.Valid() && Inv(mem.View(), dir)
    requires Parses(m, dir, fmt, args) && Slots(CStr(m.flash, fmt)) <= 30
    modifies mem.Footprint()
    ensures RecordLoaded(mem, dir) && Prepared(m, dir, mem.bytes0[..], fmt, args)
    ensures mem.View().free == old(mem.View().free)
    ensures forall p :: 1 <= p < PAGES ==> Logical(mem.View(), p) == Logical(old(mem.View()), p)
  {
    hide Inv;
    hide Pages;
    hide CStr;
    LoadRecord(mem, dir);
    ghost var start := mem.View();
    SetWord(mem, 0, |CStr(m.flash, fmt)|, dir);
    SetWord(mem, 1, fmt, dir);
    hide Word;
    MidwayStart(m, dir, mem.bytes0[..], fmt, args);
    hide Midway;
    FormatLoop(mem, m, fmt, args, dir);
    assert SameChip(mem.View(), start);
  }

  /** The length on record is that of the expanded text exactly when no stash in it holds a NUL byte. */
  lemma LengthExactIff(m: Strings, dir: seq<Entry>, p: Page, fmt: u16, args: seq<u16>)
    requires Parses(m, dir, fmt, args) && Slots(CStr(m.flash, fmt)) <= 30 && Prepared(m, dir, p, fmt, args)
    requires Declared(m, dir, CStr(m.flash, fmt), args) < 0x1_0000
    ensures Word(p, 0) == |RecordText(m, dir, p)| <==> StashText.NulFree(m, dir, CStr(m.flash, fmt), args)
  {
    hide CStr;
    hide Expand;
    hide Declared;
    hide Slots;
    hide WellFormed;
    hide ArgsOk;
    hide StashText.NulFree;
    hide RecordText;
    hide RecordOk;
    hide Word;
    DeclaredIsLength(m, dir, CStr(m.flash, fmt), args);
  }

  /** The state of `prepare` after `a` arguments, about to read the format at `fp`. */
  ghost predicate Midway(m: Strings, dir: seq<Entry>, p: Page, fmt: u16, args: seq<u16>, fp: int, a: nat) {
    && a <= |args| && Parses(m, dir, fmt, args) && Parses(m, dir, fp, args[a..])
    && a + Slots(CStr(m.flash, fp)) == Slots(CStr(m.flash, fmt)) <= 30
    && Words(p, fmt, args, a, Counted(m, dir, fmt, args, fp, a))
  }

  ghost function Counted(m: Strings, dir: seq<Entry>, fmt: u16, args: seq<u16>, fp: int, a: nat): int
    requires a <= |args| && Parses(m, dir, fmt, args) && Parses(m, dir, fp, args[a..])
  {
    Declared(m, dir, CStr(m.flash, fmt), args) - Growth(m, dir, fp, args[a..])
  }

  lemma MidwayLiteral(m: Strings, dir: seq<Entry>, p: Page, fmt: u16, args: seq<u16>, fp: int, a: nat)
    requires Midway(m, dir, p, fmt, args, fp, a) && m.flash[fp] != NUL && m.flash[fp] != DOLLAR
    ensures Midway(m, dir, p, fmt, args, fp + 1, a)
  {
    hide CStr;
    LiteralStep(m, dir, fp, args[a..]);
  }

  lemma MidwayArg(m: Strings, dir: seq<Entry>, p: Page, fmt: u16, args: seq<u16>, fp: int, a: nat)
    requires Midway(m, dir, p, fmt, args, fp, a) && m.flash[fp] == DOLLAR
    ensures a < 30 && a < |args| && fp + 2 < 0x1_0000 && ArgOk(m, dir, m.flash[fp + 1], args[a])
    ensures Parses(m, dir, fp + 2, args[a + 1..])
    ensures a + 1 + Slots(CStr(m.flash, fp + 2)) == Slots(CStr(m.flash, fmt))
    ensures Counted(m, dir, fmt, args, fp + 2, a + 1)
         == Counted(m, dir, fmt, args, fp, a) + SegmentLen(m, dir, m.flash[fp + 1], args[a]) - 2
  {
    hide CStr;
    ArgStep(m, dir, fp, args[a..]);
    assert args[a..][1..] == args[a + 1..];
  }

  lemma AllCounted(m: Strings, dir: seq<Entry>, p: Page, fmt: u16, args: seq<u16>, fp: int, a: nat)
    requires Midway(m, dir, p, fmt, args, fp, a) && m.flash[fp] == NUL
    ensures a == Slots(CStr(m.flash, fmt)) && Counted(m, dir, fmt, args, fp, a) == Declared(m, dir, CStr(m.flash, fmt), args)
  {
    hide Words;
    assert CStr(m.flash, fp) == [];
  }

  lemma RecordDone(m: Strings, dir: seq<Entry>, p: Page, fmt: u16, args: seq<u16>, fp: int, a: nat)
    requires Midway(m, dir, p, fmt, args, fp, a) && m.flash[fp] == NUL
    ensures Prepared(m, dir, p, fmt, args)
  {
    hide CStr;
    hide Expand;
    hide Declared;
    hide Counted;
    hide Slots;
    hide WellFormed;
    hide ArgsOk;
    var f := CStr(m.flash, fmt);
    AllCounted(m, dir, p, fmt, args, fp, a);
    ExtraArgs(m, dir, f, args);
    assert RecordArgs(p, Slots(f)) == args[..Slots(f)];
  }

  lemma MidwayStart(m: Strings, dir: seq<Entry>, p: Page, fmt: u16, args: seq<u16>)
    requires Parses(m, dir, fmt, args) && Slots(CStr(m.flash, fmt)) <= 30
    requires Word(p, 0) == |CStr(m.flash, fmt)| && Word(p, 1) == fmt
    ensures Midway(m, dir, p, fmt, args, fmt, 0)
  {
    hide Word;
    hide CStr;
    hide Slots;
    hide WellFormed;
    hide ArgsOk;
    hide Expand;
    hide Declared;
    assert args[0..] == args;
  }

  method FormatLoop(mem: StashMemory, m: Strings, fmt: u16, args: seq<u16>, ghost dir: seq<Entry>)
    requires RecordLoaded(mem, dir) && Midway(m, dir, mem.bytes0[..], fmt, args, fmt, 0)
    modifies mem.Footprint()
    ensures RecordLoaded(mem, dir) && Prepared(m, dir, mem.bytes0[..], fmt, args)
    ensures SameChip(mem.View(), old(mem.View()))
  {
    hide Words;
    hide Counted;
    hide Pages;
    hide Inv;
    hide CStr;
    var fp: int := fmt;
    var a := 0;
    while m.flash[fp] != NUL
      invariant RecordLoaded(mem, dir) && SameChip(mem.View(), old(mem.View()))
      invariant Midway(m, dir, mem.bytes0[..], fmt, args, fp, a)
      decreases 0x1_0000 - fp
    {
      if m.flash[fp] == DOLLAR {
        MidwayArg(m, dir, mem.bytes0[..], fmt, args, fp, a);
        TakeArg(mem, m, fmt, args, a, m.flash[fp + 1], Counted(m, dir, fmt, args, fp, a), dir);
        fp := fp + 2;
        a := a + 1;
      } else {
        MidwayLiteral(m, dir, mem.bytes0[..], fmt, args, fp, a);
        fp := fp + 1;
      }
    }
    RecordDone(m, dir, mem.bytes0[..], fmt, args, fp, a);
  }

  /** Where `extract` is inside the record: between segments, or `rest` still to come of one. */
  ghost predicate Reading(m: Strings, dir: seq<Entry>, s: Store, mode: byte, ptr: int, tmp: seq<byte>, stash: Handle,
                          arg: u16, j: nat, rest: seq<byte>)
  {
    if mode == D then Terminated(tmp, ptr) && rest == CStr(tmp, ptr)
    else if mode == S then Terminated(m.ram, ptr) && rest == CStr(m.ram, ptr)
    else if mode == F then Terminated(m.flash, ptr) && rest == CStr(m.flash, ptr)
    else if mode == E then Terminated(m.eeprom, ptr) && rest == CStr(m.eeprom, ptr)
    else if mode == H then
      && IsSaved(dir, arg) && Current(s, stash.curr)
      && Reader(stash, dir[FdIndex(dir, arg)], j) && rest == UpToNul(dir[FdIndex(dir, arg)].data[j..])
    else rest == []
  }

  /** `text` is `i` bytes in, with `rest` of the current segment and the format from `fp` to come. */
  ghost predicate AtPoint(m: Strings, dir: seq<Entry>, text: seq<byte>, i: nat, rest: seq<byte>, fp: int, args: seq<u16>) {
    && i <= |text| && 0 <= fp < 0x1_0000 && Parses(m, dir, fp, args)
    && text[i..] == rest + Expand(m, dir, CStr(m.flash, fp), args)
  }

  lemma AtLiteral(m: Strings, dir: seq<Entry>, text: seq<byte>, i: nat, fp: int, args: seq<u16>)
    requires AtPoint(m, dir, text, i, [], fp, args) && m.flash[fp] != NUL && m.flash[fp] != DOLLAR
    ensures i < |text| && text[i] == m.flash[fp] && AtPoint(m, dir, text, i + 1, [], fp + 1, args)
  {
    LiteralStep(m, dir, fp, args);
    assert text[i..][1..] == text[i + 1..];
  }

  lemma AtDollar(m: Strings, dir: seq<Entry>, text: seq<byte>, i: nat, fp: int, args: seq<u16>)
    requires AtPoint(m, dir, text, i, [], fp, args) && m.flash[fp] == DOLLAR
    ensures fp + 2 < 0x1_0000 && args != [] && ArgOk(m, dir, m.flash[fp + 1], args[0])
    ensures AtPoint(m, dir, text, i, Segment(m, dir, m.flash[fp + 1], args[0]), fp + 2, args[1..])
  {
    ArgStep(m, dir, fp, args);
  }

  lemma AtEnd(m: Strings, dir: seq<Entry>, text: seq<byte>, i: nat, fp: int, args: seq<u16>)
    requires AtPoint(m, dir, text, i, [], fp, args) && m.flash[fp] == NUL
    ensures i == |text|
  {
  }

  lemma AtByte(m: Strings, dir: seq<Entry>, text: seq<byte>, i: nat, rest: seq<byte>, fp: int, args: seq<u16>)
    requires AtPoint(m, dir, text, i, rest, fp, args) && rest != []
    ensures i < |text| && text[i] == rest[0] && AtPoint(m, dir, text, i + 1, rest[1..], fp, args)
  {
    assert text[i..][1..] == text[i + 1..];
  }

  /** The inner switch of `extract`: point `ptr` (or the scratch handle) at a new segment. */
  method StartSegment(mem: StashMemory, m: Strings, mode: byte, arg: u16, tmp: array<byte>, stash: Stash,
                      ghost dir: seq<Entry>)
    returns (ptr: int)
    requires RecordLoaded(mem, dir) && ArgOk(m, dir, mode, arg)
    requires tmp.Length == 7 && tmp !in mem.Footprint() && stash.Valid() && stash.mem == mem
    modifies tmp, stash, mem.Footprint()
    ensures RecordLoaded(mem, dir) && mem.View() == old(mem.View()).(b1 := mem.View().b1)
    ensures Reading(m, dir, mem.View(), mode, ptr, tmp[..], stash.Value(), arg, 0, Segment(m, dir, mode, arg))
  {
    hide Pages;
    hide Inv;
    ptr := 0;
    if mode == D {
      DecimalLength(arg);
      var end := Wtoa(arg, tmp, 0);
      assert mem.View() == old(mem.View());
      assert tmp[..][0..end] == tmp[0..end];
      CStrIs(tmp[..], 0, Decimal(arg));
    } else if mode == S || mode == F || mode == E {
      ptr := arg;
    } else if mode == H {
      ghost var k := FdIndex(dir, arg);
      ghost var s := mem.View();
      OpenKeeps(s, dir, k);
      stash.Open(arg);
      assert mem.View() == s.(b1 := mem.View().b1);
      assert dir[k].data[0..] == dir[k].data;
    }
  }

  /** The outer switch of `extract` for a segment: its next byte, or NUL at its end. */
  method NextByte(mem: StashMemory, m: Strings, mode: byte, ptr: int, tmp: array<byte>, stash: Stash,
                  ghost arg: u16, ghost j: nat, ghost rest: seq<byte>, ghost dir: seq<Entry>)
    returns (c: byte, ptr': int, ghost j': nat)
    requires RecordLoaded(mem, dir) && Reading(m, dir, mem.View(), mode, ptr, tmp[..], stash.Value(), arg, j, rest)
    requires tmp !in mem.Footprint() && stash.Valid() && stash.mem == mem
    modifies stash, mem.Footprint()
    ensures RecordLoaded(mem, dir) && mem.View() == old(mem.View()).(b1 := mem.View().b1)
    ensures rest == [] ==> c == NUL
    ensures rest != [] ==> c == rest[0] != NUL
                           && Reading(m, dir, mem.View(), mode, ptr', tmp[..], stash.Value(), arg, j', rest[1..])
  {
    hide Pages;
    hide Inv;
    c, ptr', j' := NUL, ptr + 1, j + 1;
    if mode == D {
      c := tmp[ptr];
    } else if mode == S {
      c := m.ram[ptr];
    } else if mode == F {
      c := m.flash[ptr];
    } else if mode == E {
      c := m.eeprom[ptr];
    } else if mode == H {
      ghost var k := FdIndex(dir, arg);
      ghost var data := dir[k].data;
      GetKeeps(mem.View(), dir, k, stash.Value(), j);
      c := stash.Get();
      if j < |data| {
        assert data[j..][0] == data[j] && data[j..][1..] == data[j + 1..];
      }
    }
  }

  /** How many bytes the loop bound `offset + count` covers; in 16 bits a larger sum wraps to nothing. */
  function Wanted(offset: u16, count: u16): nat { if offset + count < 0x1_0000 then count else 0 }

  /** `extract` writes exactly the requested slice of the expanded text. */
  method Extract(mem: StashMemory, m: Strings, offset: u16, count: u16, out: array<byte>, ghost dir: seq<Entry>)
    requires mem.Valid() && Inv(mem.View(), dir) && RecordOk(m, dir, Logical(mem.View(), 0))
    requires out !in mem.Footprint() && count <= out.Length
    modifies out, mem.Footprint()
    ensures RecordLoaded(mem, dir) && mem.View().free == old(mem.View().free)
    ensures forall p :: 0 <= p < PAGES ==> Logical(mem.View(), p) == Logical(old(mem.View()), p)
    ensures var s := Slice(RecordText(m, dir, Logical(old(mem.View()), 0)), offset, Wanted(offset, count));
            |s| <= out.Length && out[..] == s + old(out[..])[|s|..]
  {
    ghost var p := Logical(mem.View(), 0);
    LoadRecord(mem, dir);
    ghost var start := mem.View();
    assert mem.bytes0[..] == p;
    ExtractLoop(mem, m, offset, count, out, dir);
    assert SameChip(mem.View(), start) && mem.View().b0 == start.b0;
  }

  /** Calls of `extract` one after the other, with buffers of any sizes: what they write is the text, as
      far as they go. The caller takes from `length` how much of each buffer is text. */
  method ExtractAll(mem: StashMemory, m: Strings, sizes: seq<nat>, out: array<byte>, ghost dir: seq<Entry>)
    returns (text: seq<byte>)
    requires mem.Valid() && Inv(mem.View(), dir) && RecordOk(m, dir, Logical(mem.View(), 0))
    requires Word(Logical(mem.View(), 0), 0) == |RecordText(m, dir, Logical(mem.View(), 0))|
    requires out !in mem.Footprint() && Sum(sizes) < 0x1_0000
    requires forall k :: 0 <= k < |sizes| ==> sizes[k] <= out.Length && sizes[k] < 0x1_0000
    modifies out, mem.Footprint()
    ensures text == Slice(RecordText(m, dir, Logical(old(mem.View()), 0)), 0, Sum(sizes))
    ensures Sum(sizes) >= Word(Logical(old(mem.View()), 0), 0) ==>
              text == RecordText(m, dir, Logical(old(mem.View()), 0))
    ensures RecordLoaded(mem, dir) && mem.View().free == old(mem.View().free)
    ensures forall p :: 0 <= p < PAGES ==> Logical(mem.View(), p) == Logical(old(mem.View()), p)
  {
    hide Inv;
    hide Pages;
    hide RecordOk;
    hide RecordText;
    hide Word;
    ghost var (start, p) := (mem.View(), Logical(mem.View(), 0));
    ghost var whole := RecordText(m, dir, p);
    var total := Length(mem, dir);
    var offset: nat := 0;
    text := [];
    assert sizes[..0] == [] && Slice(whole, 0, 0) == [];
    for k := 0 to |sizes|
      invariant RecordLoaded(mem, dir) && mem.View().free == start.free
      invariant forall q :: 0 <= q < PAGES ==> Logical(mem.View(), q) == Logical(start, q)
      invariant offset == Sum(sizes[..k]) <= Sum(sizes) && text == Slice(whole, 0, offset)
    {
      SumPrefix(sizes, k);
      Extract(mem, m, offset, sizes[k], out, dir);
      var n := if offset >= total then 0 else if offset + sizes[k] >= total then total - offset else sizes[k];
      assert out[..n] == Slice(whole, offset, sizes[k]);
      SliceAppend(whole, offset, sizes[k]);
      text := text + out[..n];
      offset := offset + sizes[k];
    }
    assert sizes[..|sizes|] == sizes;
  }

  lemma {:induction false} SumPrefix(sizes: seq<nat>, k: nat)
    requires k < |sizes|
    ensures Sum(sizes[..k + 1]) == Sum(sizes[..k]) + sizes[k] <= Sum(sizes)
    decreases |sizes|
  {
    var n := |sizes| - 1;
    assert sizes[..n + 1] == sizes && sizes[..k + 1][..k] == sizes[..k];
    if k < n {
      SumPrefix(sizes[..n], k);
      assert sizes[..n][..k + 1] == sizes[..k + 1] && sizes[..n][..k] == sizes[..k];
    }
  }

  /** After `i` bytes of `text`, those from `offset` on are in `out`, over what was there before. */
  predicate Emitted(text: seq<byte>, offset: nat, i: nat, out: seq<byte>, before: seq<byte>) {
    && i <= |text| && |out| == |before|
    && (var w := if i <= offset then 0 else i - offset;
        w <= |out| && out[w..] == before[w..] && (offset <= i ==> out[..w] == text[offset..i]))
  }

  lemma NothingEmitted(text: seq<byte>, offset: nat, out: seq<byte>)
    ensures Emitted(text, offset, 0, out, out)
  {
  }

  lemma EmitByte(text: seq<byte>, offset: nat, i: nat, out: seq<byte>, before: seq<byte>)
    requires Emitted(text, offset, i, out, before) && i < |text|
    requires offset <= i ==> i - offset < |out|
    ensures Emitted(text, offset, i + 1, if i < offset then out else out[i - offset := text[i]], before)
  {
    if offset <= i {
      assert text[offset..i + 1] == text[offset..i] + [text[i]];
    }
  }

  lemma EmittedAll(text: seq<byte>, offset: u16, count: u16, i: nat, out: seq<byte>, before: seq<byte>)
    requires Emitted(text, offset, i, out, before) && count <= |out|
    requires i <= (offset + count) % 0x1_0000 || i == 0
    requires i >= (offset + count) % 0x1_0000 || i == |text|
    ensures var s := Slice(text, offset, Wanted(offset, count)); |s| <= |out| && out == s + before[|s|..]
  {
    var s := Slice(text, offset, Wanted(offset, count));
    if i <= offset {
      assert s == [] && out == out[0..] && before == before[0..];
    } else {
      assert s == text[offset..i] && out == out[..i - offset] + out[i - offset..];
    }
  }

  /** The local variables of `extract`: the mode letter, the pointer into the current segment, the
      position in the format and the number of arguments used. */
  datatype Cursor = Cursor(mode: byte, ptr: int, fp: int, a: nat)

  /** Ghost companions: the argument being read, how far, and what is left of it. */
  datatype Progress = Progress(arg: u16, j: nat, rest: seq<byte>)

  ghost predicate At(m: Strings, dir: seq<Entry>, s: Store, text: seq<byte>, i: nat, args: seq<u16>,
                     cur: Cursor, g: Progress, tmp: seq<byte>, stash: Handle)
  {
    && cur.a <= |args| && AtPoint(m, dir, text, i, g.rest, cur.fp, args[cur.a..])
    && Reading(m, dir, s, cur.mode, cur.ptr, tmp, stash, g.arg, g.j, g.rest)
  }

  /** What is left to do once no byte has come out: format bytes, then leaving a segment. */
  predicate Closer(cur': Cursor, cur: Cursor) {
    && cur'.fp < 0x1_0000
    && (cur'.fp > cur.fp || (cur'.fp == cur.fp && cur'.mode == AT && cur.mode != AT))
  }

  lemma RecordStart(m: Strings, dir: seq<Entry>, s: Store, p: Page, tmp: seq<byte>, stash: Handle)
    requires RecordOk(m, dir, p)
    ensures At(m, dir, s, RecordText(m, dir, p), 0, RecordArgs(p, Slots(CStr(m.flash, Word(p, 1)))),
               Cursor(AT, 0, Word(p, 1), 0), Progress(0, 0, []), tmp, stash)
  {
    var text := RecordText(m, dir, p);
    var args := RecordArgs(p, Slots(CStr(m.flash, Word(p, 1))));
    assert text[0..] == [] + text && args[0..] == args;
  }

  /** One `$` in mode '@': take the next argument of the record and start its segment. */
  method OpenSegment(mem: StashMemory, m: Strings, cur: Cursor, tmp: array<byte>, stash: Stash,
                     ghost text: seq<byte>, ghost i: nat, ghost args: seq<u16>, ghost dir: seq<Entry>)
    returns (cur': Cursor, ghost g: Progress)
    requires RecordLoaded(mem, dir) && |args| <= 30 && args == RecordArgs(mem.bytes0[..], |args|)
    requires cur.a <= |args| && AtPoint(m, dir, text, i, [], cur.fp, args[cur.a..]) && m.flash[cur.fp] == DOLLAR
    requires tmp.Length == 7 && tmp !in mem.Footprint() && stash.Valid() && stash.mem == mem
    modifies tmp, stash, mem.Footprint()
    ensures RecordLoaded(mem, dir) && mem.View() == old(mem.View()).(b1 := mem.View().b1)
    ensures At(m, dir, mem.View(), text, i, args, cur', g, tmp[..], stash.Value()) && Closer(cur', cur)
  {
    hide Inv;
    hide CStr;
    hide Parses;
    hide Expand;
    AtDollar(m, dir, text, i, cur.fp, args[cur.a..]);
    assert args[cur.a..][1..] == args[cur.a + 1..];
    var k := 2 * (2 + cur.a);
    var arg := mem.bytes0[k] as int + 256 * (mem.bytes0[k + 1] as int);
    assert arg == args[cur.a];
    var mode := m.flash[cur.fp + 1];
    var ptr := StartSegment(mem, m, mode, arg, tmp, stash, dir);
    cur' := Cursor(mode, ptr, cur.fp + 2, cur.a + 1);
    g := Progress(arg, 0, Segment(m, dir, mode, arg));
  }

  /** One round of the loop: the next byte of the text, NUL on a change of mode, or the end. */
  method Advance(mem: StashMemory, m: Strings, cur: Cursor, tmp: array<byte>, stash: Stash,
                 ghost g: Progress, ghost text: seq<byte>, ghost i: nat, ghost args: seq<u16>, ghost dir: seq<Entry>)
    returns (c: byte, stop: bool, cur': Cursor, ghost g': Progress)
    requires RecordLoaded(mem, dir) && |args| <= 30 && args == RecordArgs(mem.bytes0[..], |args|)
    requires At(m, dir, mem.View(), text, i, args, cur, g, tmp[..], stash.Value())
    requires tmp.Length == 7 && tmp !in mem.Footprint() && stash.Valid() && stash.mem == mem
    modifies tmp, stash, mem.Footprint()
    ensures RecordLoaded(mem, dir) && mem.View() == old(mem.View()).(b1 := mem.View().b1)
    ensures stop ==> i == |text|
    ensures !stop && c == NUL ==>
              At(m, dir, mem.View(), text, i, args, cur', g', tmp[..], stash.Value()) && Closer(cur', cur)
    ensures !stop && c != NUL ==>
              && i < |text| && c == text[i]
              && At(m, dir, mem.View(), text, i + 1, args, cur', g', tmp[..], stash.Value())
  {
    hide Inv;
    hide CStr;
    hide Parses;
    hide Expand;
    stop, cur', g' := false, cur, g;
    if cur.mode == AT {
      c := m.flash[cur.fp];
      if c == NUL {
        AtEnd(m, dir, text, i, cur.fp, args[cur.a..]);
        stop := true;
      } else if c == DOLLAR {
        c := NUL;
        cur', g' := OpenSegment(mem, m, cur, tmp, stash, text, i, args, dir);
      } else {
        AtLiteral(m, dir, text, i, cur.fp, args[cur.a..]);
        cur' := cur.(fp := cur.fp + 1);
      }
    } else {
      var ptr;
      ghost var j;
      c, ptr, j := NextByte(mem, m, cur.mode, cur.ptr, tmp, stash, g.arg, g.j, g.rest, dir);
      if c == NUL {
        cur' := cur.(mode := AT);
      } else {
        AtByte(m, dir, text, i, g.rest, cur.fp, args[cur.a..]);
        cur', g' := cur.(ptr := ptr), Progress(g.arg, j, g.rest[1..]);
      }
    }
  }

  method ExtractLoop(mem: StashMemory, m: Strings, offset: u16, count: u16, out: array<byte>, ghost dir: seq<Entry>)
    requires RecordLoaded(mem, dir) && RecordOk(m, dir, mem.bytes0[..])
    requires out !in mem.Footprint() && count <= out.Length
    modifies out, mem.Footprint()
    ensures RecordLoaded(mem, dir) && mem.View() == old(mem.View()).(b1 := mem.View().b1)
    ensures var s := Slice(RecordText(m, dir, old(mem.bytes0[..])), offset, Wanted(offset, count));
            |s| <= out.Length && out[..] == s + old(out[..])[|s|..]
  {
    hide Slice;
    hide Emitted;
    hide At;
    hide Inv;
    hide CStr;
    hide Parses;
    hide Expand;
    hide Pages;
    ghost var p: Page := mem.bytes0[..];
    ghost var args := RecordArgs(p, Slots(CStr(m.flash, Word(p, 1))));
    ghost var text := RecordText(m, dir, p);
    var end := (offset + count) % 0x1_0000;
    var stash := new Stash(mem);
    var tmp := new byte[7](_ => 0);
    assert mem.View() == old(mem.View());
    var cur := Cursor(AT, 0, mem.bytes0[2] as int + 256 * (mem.bytes0[3] as int), 0);
    ghost var g := Progress(0, 0, []);
    RecordStart(m, dir, mem.View(), p, tmp[..], stash.Value());
    var i := 0;
    NothingEmitted(text, offset, out[..]);
    while i < end
      invariant RecordLoaded(mem, dir) && mem.View() == old(mem.View()).(b1 := mem.View().b1)
      invariant stash.Valid() && stash.mem == mem && fresh(stash) && fresh(tmp) && tmp.Length == 7
      invariant At(m, dir, mem.View(), text, i, args, cur, g, tmp[..], stash.Value())
      invariant i <= end || i == 0
      invariant Emitted(text, offset, i, out[..], old(out[..]))
      decreases |text| - i, 0x1_0000 - cur.fp, if cur.mode == AT then 0 else 1
    {
      assert mem.bytes0[..] == p;
      var c, stop;
      c, stop, cur, g := Advance(mem, m, cur, tmp, stash, g, text, i, args, dir);
      if stop {
        break;
      }
      if c == NUL {
        continue;
      }
      EmitByte(text, offset, i, out[..], old(out[..]));
      if i >= offset {
        out[i - offset] := c;
      }
      i := i + 1;
    }
    EmittedAll(text, offset, count, i, out[..], old(out[..]));
  }
}
