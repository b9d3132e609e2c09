/** The language of formats: what each byte of a format asks for, written over the bytes themselves, and
    what `prepare`, `extract` and `cleanup` therefore make of every format (EtherCard.cpp). */
module StashPieces {
  import opened Bytes
  import opened StashStore
  import opened StashWorld
  import opened StashText
  import opened StashObjects
  import opened StashFormat
  import opened StashCleanup

  datatype Piece =
    | Text(c: byte)
    | Number           // $D
    | FromRam          // $S
    | FromFlash        // $F
    | FromEeprom       // $E
    | FromStash        // $H
    | Other(letter: byte)

  predicate PieceOk(p: Piece) {
    match p
    case Text(c) => c != 36
    case Other(letter) => letter !in {68, 69, 70, 72, 83}
    case _ => true
  }

  predicate PiecesOk(ps: seq<Piece>) { forall i :: 0 <= i < |ps| ==> PieceOk(ps[i]) }

  /** The bytes of a format: 36 and a letter for an argument, any other byte for itself. */
  function PrintOne(p: Piece): seq<byte> {
    match p
    case Text(c) => [c]
    case Number => [36, 68]
    case FromRam => [36, 83]
    case FromFlash => [36, 70]
    case FromEeprom => [36, 69]
    case FromStash => [36, 72]
    case Other(letter) => [36, letter]
  }

  function Print(ps: seq<Piece>): seq<byte> { if ps == [] then [] else PrintOne(ps[0]) + Print(ps[1..]) }

  /** The number of arguments. */
  function Takes(ps: seq<Piece>): nat {
    if ps == [] then 0 else (if ps[0].Text? then 0 else 1) + Takes(ps[1..])
  }

  /** Strings are terminated, and stashes saved. */
  ghost predicate Serves(m: Strings, dir: seq<Entry>, p: Piece, arg: u16) {
    match p
    case FromRam => Terminated(m.ram, arg)
    case FromFlash => Terminated(m.flash, arg)
    case FromEeprom => Terminated(m.eeprom, arg)
    case FromStash => IsSaved(dir, arg)
    case _ => true
  }

  ghost predicate Served(m: Strings, dir: seq<Entry>, ps: seq<Piece>, args: seq<u16>) {
    ps == [] ||
    if ps[0].Text? then Served(m, dir, ps[1..], args)
    else args != [] && Serves(m, dir, ps[0], args[0]) && Served(m, dir, ps[1..], args[1..])
  }

  /** What an argument stands for. */
  ghost function Value(m: Strings, dir: seq<Entry>, p: Piece, arg: u16): seq<byte>
    requires Serves(m, dir, p, arg)
  {
    match p
    case Text(_) => []
    case Number => Decimal(arg)
    case FromRam => CStr(m.ram, arg)
    case FromFlash => CStr(m.flash, arg)
    case FromEeprom => CStr(m.eeprom, arg)
    case FromStash => UpToNul(dir[FdIndex(dir, arg)].data)
    case Other(_) => []
  }

  /** How many bytes it counts for: a stash with all of its bytes. */
  ghost function Counts(m: Strings, dir: seq<Entry>, p: Piece, arg: u16): nat
    requires Serves(m, dir, p, arg)
  {
    if p.FromStash? then |dir[FdIndex(dir, arg)].data| else |Value(m, dir, p, arg)|
  }

  ghost function Meaning(m: Strings, dir: seq<Entry>, ps: seq<Piece>, args: seq<u16>): seq<byte>
    requires Served(m, dir, ps, args)
  {
    if ps == [] then []
    else if ps[0].Text? then [ps[0].c] + Meaning(m, dir, ps[1..], args)
    else Value(m, dir, ps[0], args[0]) + Meaning(m, dir, ps[1..], args[1..])
  }

  ghost function Total(m: Strings, dir: seq<Entry>, ps: seq<Piece>, args: seq<u16>): nat
    requires Served(m, dir, ps, args)
  {
    if ps == [] then 0
    else if ps[0].Text? then 1 + Total(m, dir, ps[1..], args)
    else Counts(m, dir, ps[0], args[0]) + Total(m, dir, ps[1..], args[1..])
  }

  /** The arguments that name stashes, in order. */
  function Stashes(ps: seq<Piece>, args: seq<u16>): seq<u16>
    requires Takes(ps) <= |args|
  {
    if ps == [] then []
    else if ps[0].Text? then Stashes(ps[1..], args)
    else (if ps[0].FromStash? then [args[0]] else []) + Stashes(ps[1..], args[1..])
  }

  lemma PrintCons(p: Piece, ps: seq<Piece>)
    ensures Print([p] + ps) == PrintOne(p) + Print(ps)
  {
    assert ([p] + ps)[1..] == ps;
  }

  /** After 36, the letter and only the letter decides. */
  lemma LetterMeaning(m: Strings, dir: seq<Entry>, p: Piece, arg: u16)
    requires PieceOk(p) && !p.Text?
    ensures var t := PrintOne(p)[1];
            && (ArgOk(m, dir, t, arg) <==> Serves(m, dir, p, arg))
            && (Serves(m, dir, p, arg) ==> Segment(m, dir, t, arg) == Value(m, dir, p, arg)
                                           && SegmentLen(m, dir, t, arg) == Counts(m, dir, p, arg))
  {
  }

  /** Formats are well formed, take their arguments and ask of them what the pieces say. */
  lemma {:induction false} FormatServed(m: Strings, dir: seq<Entry>, ps: seq<Piece>, args: seq<u16>)
    requires PiecesOk(ps)
    ensures WellFormed(Print(ps)) && Slots(Print(ps)) == Takes(ps)
    ensures ArgsOk(m, dir, Print(ps), args) <==> Served(m, dir, ps, args)
  {
    if ps != [] {
      PrintHead(ps);
      if ps[0].Text? {
        FormatServed(m, dir, ps[1..], args);
      } else {
        LetterServed(m, dir, ps, args);
        if args == [] { FormatServed(m, dir, ps[1..], args); } else { FormatServed(m, dir, ps[1..], args[1..]); }
      }
    }
  }

  lemma LetterServed(m: Strings, dir: seq<Entry>, ps: seq<Piece>, args: seq<u16>)
    requires ps != [] && PieceOk(ps[0]) && !ps[0].Text?
    ensures args != [] ==> (ArgOk(m, dir, PrintOne(ps[0])[1], args[0]) <==> Serves(m, dir, ps[0], args[0]))
  {
    if args != [] { LetterMeaning(m, dir, ps[0], args[0]); }
  }

  lemma PrintHead(ps: seq<Piece>)
    requires ps != [] && PieceOk(ps[0])
    ensures var f := Print(ps);
            if ps[0].Text? then f[0] == ps[0].c != 36 && f[1..] == Print(ps[1..])
            else f[0] == 36 && |f| >= 2 && f[1] == PrintOne(ps[0])[1] && f[2..] == Print(ps[1..])
  {
  }

  /** What a format expands to, what `prepare` counts for it and which stashes `cleanup` names. */
  lemma {:induction false} FormatMeaning(m: Strings, dir: seq<Entry>, ps: seq<Piece>, args: seq<u16>)
    requires PiecesOk(ps) && Served(m, dir, ps, args)
    ensures WellFormed(Print(ps)) && ArgsOk(m, dir, Print(ps), args) && Slots(Print(ps)) == Takes(ps) <= |args|
    ensures Expand(m, dir, Print(ps), args) == Meaning(m, dir, ps, args)
    ensures Declared(m, dir, Print(ps), args) == Total(m, dir, ps, args)
    ensures Fds(Print(ps), args) == Stashes(ps, args)
  {
    FormatServed(m, dir, ps, args);
    ExtraArgs(m, dir, Print(ps), args);
    if ps != [] {
      PrintHead(ps);
      if ps[0].Text? {
        FormatMeaning(m, dir, ps[1..], args);
      } else {
        LetterMeaning(m, dir, ps[0], args[0]);
        FormatMeaning(m, dir, ps[1..], args[1..]);
      }
    }
  }

  /** There are no other well-formed formats, and no two readings of one. */
  lemma {:induction false} EveryFormat(f: seq<byte>) returns (ps: seq<Piece>)
    requires WellFormed(f)
    ensures PiecesOk(ps) && Print(ps) == f
  {
    if f == [] {
      ps := [];
    } else if f[0] != 36 {
      ps := EveryFormat(f[1..]);
      ps := [Text(f[0])] + ps;
      PrintCons(Text(f[0]), ps[1..]);
    } else {
      var p := if f[1] == 68 then Number else if f[1] == 83 then FromRam else if f[1] == 70 then FromFlash
               else if f[1] == 69 then FromEeprom else if f[1] == 72 then FromStash else Other(f[1]);
      ps := EveryFormat(f[2..]);
      ps := [p] + ps;
      PrintCons(p, ps[1..]);
    }
  }

  lemma {:induction false} OneReading(ps: seq<Piece>, qs: seq<Piece>)
    requires PiecesOk(ps) && PiecesOk(qs) && Print(ps) == Print(qs)
    ensures ps == qs
  {
    if ps == [] || qs == [] {
      if ps != [] { PrintHead(ps); }
      if qs != [] { PrintHead(qs); }
    } else {
      PrintHead(ps);
      PrintHead(qs);
      OneReading(ps[1..], qs[1..]);
    }
  }

  /** Digits and nothing else. */
  lemma {:induction false} DecimalDigits(v: nat)
    ensures forall i :: 0 <= i < |Decimal(v)| ==> 48 <= Decimal(v)[i] <= 57
  {
    if v > 9 { DecimalDigits(v / 10); }
  }

  lemma {:induction false} SpareArgs(ps: seq<Piece>, args: seq<u16>)
    requires Takes(ps) <= |args|
    ensures Stashes(ps, args[..Takes(ps)]) == Stashes(ps, args)
  {
    if ps == [] {
    } else if ps[0].Text? {
      SpareArgs(ps[1..], args);
    } else {
      SpareArgs(ps[1..], args[1..]);
      assert args[..Takes(ps)][1..] == args[1..][..Takes(ps[1..])];
    }
  }

  /** The stashes that the record of a prepared format names. */
  lemma NamedStashes(m: Strings, dir: seq<Entry>, p: Page, fmt: u16, ps: seq<Piece>, args: seq<u16>)
    requires PiecesOk(ps) && Served(m, dir, ps, args) && Takes(ps) <= 30
    requires Terminated(m.flash, fmt) && CStr(m.flash, fmt) == Print(ps)
    requires WellFormed(Print(ps)) && ArgsOk(m, dir, Print(ps), args) && Slots(Print(ps)) == Takes(ps)
    requires Prepared(m, dir, p, fmt, args)
    ensures RecordFds(m, dir, p) == Stashes(ps, args)
  {
    var n := Takes(ps);
    SpareArgs(ps, args);
    hide CStr;
    hide Print;
    hide Stashes;
    hide Fds;
    hide Takes;
    FdsOf(ps, args[..n]);
  }

  lemma {:induction false} FdsOf(ps: seq<Piece>, args: seq<u16>)
    requires PiecesOk(ps) && WellFormed(Print(ps)) && Slots(Print(ps)) == Takes(ps) <= |args|
    ensures Fds(Print(ps), args) == Stashes(ps, args)
  {
    if ps != [] {
      PrintHead(ps);
      if ps[0].Text? { FdsOf(ps[1..], args); } else { FdsOf(ps[1..], args[1..]); }
    }
  }

  /** The record on page 0 is one of these pieces and arguments. */
  ghost predicate Records(m: Strings, dir: seq<Entry>, p: Page, ps: seq<Piece>, args: seq<u16>)
    requires Served(m, dir, ps, args) && Takes(ps) <= |args|
  {
    && RecordOk(m, dir, p) && Word(p, 0) == Total(m, dir, ps, args) && RecordText(m, dir, p) == Meaning(m, dir, ps, args)
    && |Meaning(m, dir, ps, args)| <= Total(m, dir, ps, args) && RecordFds(m, dir, p) == Stashes(ps, args)
  }

  lemma PreparedRecords(m: Strings, dir: seq<Entry>, p: Page, fmt: u16, ps: seq<Piece>, args: seq<u16>)
    requires PiecesOk(ps) && Served(m, dir, ps, args) && Takes(ps) <= 30 && Total(m, dir, ps, args) < 0x1_0000
    requires Terminated(m.flash, fmt) && CStr(m.flash, fmt) == Print(ps)
    requires WellFormed(Print(ps)) && ArgsOk(m, dir, Print(ps), args) && Slots(Print(ps)) == Takes(ps) <= |args|
    requires Prepared(m, dir, p, fmt, args)
    ensures Records(m, dir, p, ps, args)
  {
    hide CStr;
    hide Print;
    hide Expand;
    hide Declared;
    hide Meaning;
    hide Total;
    hide RecordFds;
    hide RecordText;
    hide RecordOk;
    hide Slots;
    hide Takes;
    hide WellFormed;
    hide ArgsOk;
    hide Served;
    hide Stashes;
    hide Word;
    FormatMeaning(m, dir, ps, args);
    DeclaredIsLength(m, dir, Print(ps), args);
    NamedStashes(m, dir, p, fmt, ps, args);
  }

  method PreparePieces(mem: StashMemory, m: Strings, fmt: u16, ghost ps: seq<Piece>, args: seq<u16>, ghost dir: seq<Entry>)
    requires mem.Valid() && Inv(mem.View(), dir)
    requires PiecesOk(ps) && Served(m, dir, ps, args) && Takes(ps) <= 30 && Total(m, dir, ps, args) < 0x1_0000
    requires Terminated(m.flash, fmt) && CStr(m.flash, fmt) == Print(ps)
    modifies mem.Footprint()
    ensures Takes(ps) <= |args| && RecordLoaded(mem, dir) && Records(m, dir, Logical(mem.View(), 0), ps, args)
    ensures mem.View().free == old(mem.View().free)
  {
    hide Inv;
    hide Print;
    hide CStr;
    hide Pages;
    hide Records;
    hide Prepared;
    FormatMeaning(m, dir, ps, args);
    Prepare(mem, m, fmt, args, dir);
    PreparedRecords(m, dir, mem.bytes0[..], fmt, ps, args);
    assert Logical(mem.View(), 0) == mem.bytes0[..];
  }

  /** A whole page: prepared, measured, written out and cleaned up. The text is what the pieces say, of the
      length counted if no stash in it holds a NUL byte; exactly the stashes named are gone. */
  method WritePage(mem: StashMemory, m: Strings, fmt: u16, ghost ps: seq<Piece>, args: seq<u16>, out: array<byte>,
                   ghost dir: seq<Entry>)
    returns (n: u16)
    requires mem.Valid() && Inv(mem.View(), dir) && out !in mem.Footprint()
    requires PiecesOk(ps) && Served(m, dir, ps, args) && Takes(ps) <= 30
    requires Terminated(m.flash, fmt) && CStr(m.flash, fmt) == Print(ps)
    requires Total(m, dir, ps, args) < 0x1_0000 && Total(m, dir, ps, args) <= out.Length
    modifies out, mem.Footprint()
    ensures n == Total(m, dir, ps, args)
    ensures var text := Meaning(m, dir, ps, args);
            |text| <= n && out[..] == text + old(out[..])[|text|..]
    ensures Takes(ps) <= |args| && RecordLoaded(mem, Without(dir, Stashes(ps, args)))
    ensures mem.View().free == Freed(old(mem.View().free), dir, Stashes(ps, args))
  {
    hide Inv;
    hide Print;
    hide Freed;
    hide Without;
    hide CStr;
    hide Pages;
    hide Logical;
    hide Served;
    hide Takes;
    hide Total;
    hide Meaning;
    hide Stashes;
    hide RecordOk;
    hide RecordText;
    hide RecordFds;
    PreparePieces(mem, m, fmt, ps, args, dir);
    n := Length(mem, dir);
    Extract(mem, m, 0, n, out, dir);
    Cleanup(mem, m, dir);
  }

  // ---- one page in full

  function Texts(t: seq<byte>): seq<Piece> { seq(|t|, i requires 0 <= i < |t| => Text(t[i])) }

  /** A format with its arguments, and what they come to. */
  datatype Reading = Reading(f: seq<byte>, args: seq<u16>, ps: seq<Piece>, text: seq<byte>, n: nat, fds: seq<u16>)

  ghost predicate Reads(m: Strings, dir: seq<Entry>, r: Reading) {
    && PiecesOk(r.ps) && Print(r.ps) == r.f && Served(m, dir, r.ps, r.args) && Takes(r.ps) == |r.args|
    && Meaning(m, dir, r.ps, r.args) == r.text && Total(m, dir, r.ps, r.args) == r.n && Stashes(r.ps, r.args) == r.fds
  }

  function WithText(t: seq<byte>, r: Reading): Reading {
    Reading(t + r.f, r.args, Texts(t) + r.ps, t + r.text, |t| + r.n, r.fds)
  }

  ghost function WithSlot(m: Strings, dir: seq<Entry>, p: Piece, arg: u16, r: Reading): Reading
    requires Serves(m, dir, p, arg)
  {
    Reading(PrintOne(p) + r.f, [arg] + r.args, [p] + r.ps, Value(m, dir, p, arg) + r.text, Counts(m, dir, p, arg) + r.n,
            (if p.FromStash? then [arg] else []) + r.fds)
  }

  lemma ReadChar(m: Strings, dir: seq<Entry>, c: byte, r: Reading)
    requires Reads(m, dir, r) && c != 36
    ensures Reads(m, dir, Reading([c] + r.f, r.args, [Text(c)] + r.ps, [c] + r.text, 1 + r.n, r.fds))
  {
    var qs := [Text(c)] + r.ps;
    assert qs[0] == Text(c) && qs[1..] == r.ps;
  }

  lemma {:induction false} ReadText(m: Strings, dir: seq<Entry>, t: seq<byte>, r: Reading)
    requires Reads(m, dir, r) && 36 !in t
    ensures Reads(m, dir, WithText(t, r))
  {
    hide Reads;
    if t == [] {
      assert WithText(t, r) == r;
    } else {
      ReadText(m, dir, t[1..], r);
      var r1 := WithText(t[1..], r);
      ReadChar(m, dir, t[0], r1);
      assert t + r.f == [t[0]] + r1.f && Texts(t) + r.ps == [Text(t[0])] + r1.ps && t + r.text == [t[0]] + r1.text;
    }
  }

  lemma ReadSlot(m: Strings, dir: seq<Entry>, p: Piece, arg: u16, r: Reading)
    requires Reads(m, dir, r) && PieceOk(p) && !p.Text? && Serves(m, dir, p, arg)
    ensures Reads(m, dir, WithSlot(m, dir, p, arg, r))
  {
    var (qs, all) := ([p] + r.ps, [arg] + r.args);
    assert qs[0] == p && qs[1..] == r.ps && all[0] == arg && all[1..] == r.args;
  }

  /** `a $S b $F c $D d $H e`. */
  function Sample(): seq<byte> { [97, 32, 36, 83, 32, 98, 32, 36, 70, 32, 99, 32, 36, 68, 32, 100, 32, 36, 72, 32, 101] }

  /** Some text and a slot in front. */
  lemma Extend(m: Strings, dir: seq<Entry>, t: seq<byte>, p: Piece, arg: u16, r: Reading) returns (r': Reading)
    requires Reads(m, dir, r) && 36 !in t && PieceOk(p) && !p.Text? && Serves(m, dir, p, arg)
    ensures Reads(m, dir, r') && r'.f == t + PrintOne(p) + r.f && r'.args == [arg] + r.args
    ensures r'.text == t + Value(m, dir, p, arg) + r.text && r'.n == |t| + Counts(m, dir, p, arg) + r.n
    ensures r'.fds == (if p.FromStash? then [arg] else []) + r.fds
  {
    hide Reads;
    hide Texts;
    hide Value;
    hide Counts;
    ReadSlot(m, dir, p, arg, r);
    var q := WithSlot(m, dir, p, arg, r);
    ReadText(m, dir, t, q);
    r' := WithText(t, q);
  }

  /** What it comes to. */
  lemma SampleReads(m: Strings, dir: seq<Entry>, s: u16, f: u16, d: u16, h: u16) returns (r: Reading)
    requires Terminated(m.ram, s) && Terminated(m.flash, f) && IsSaved(dir, h)
    ensures Reads(m, dir, r) && r.f == Sample() && r.args == [s, f, d, h] && r.fds == [h]
    ensures r.text == [97, 32] + CStr(m.ram, s) + ([32, 98, 32] + CStr(m.flash, f) + ([32, 99, 32] + Decimal(d)
                    + ([32, 100, 32] + UpToNul(dir[FdIndex(dir, h)].data) + [32, 101])))
    ensures r.n == 13 + |CStr(m.ram, s)| + |CStr(m.flash, f)| + |Decimal(d)| + |dir[FdIndex(dir, h)].data|
  {
    hide Reads;
    hide Texts;
    hide CStr;
    hide Decimal;
    hide UpToNul;
    hide Sample;
    NothingRead(m, dir);
    ReadText(m, dir, [32, 101], Reading([], [], [], [], 0, []));
    var r1 := WithText([32, 101], Reading([], [], [], [], 0, []));
    var r2 := Extend(m, dir, [32, 100, 32], FromStash, h, r1);
    var r3 := Extend(m, dir, [32, 99, 32], Number, d, r2);
    var r4 := Extend(m, dir, [32, 98, 32], FromFlash, f, r3);
    r := Extend(m, dir, [97, 32], FromRam, s, r4);
    assert r1.text == [32, 101] && r1.f == [32, 101];
    SampleBytes();
    SampleArgs(s, f, d, h);
  }

  lemma SampleBytes()
    ensures Sample() == [97, 32] + [36, 83] + ([32, 98, 32] + [36, 70] + ([32, 99, 32] + [36, 68]
                      + ([32, 100, 32] + [36, 72] + [32, 101])))
  {
  }

  lemma SampleArgs(s: u16, f: u16, d: u16, h: u16)
    ensures var none: seq<u16> := [];
            && [s] + ([f] + ([d] + ([h] + none))) == [s, f, d, h]
            && none + (none + (none + ([h] + none))) == [h]
  {
  }

  lemma NothingRead(m: Strings, dir: seq<Entry>)
    ensures Reads(m, dir, Reading([], [], [], [], 0, []))
  {
  }

  /** That page written out, and the stash in it released: its pages are free, and no other. */
  method WriteSample(mem: StashMemory, m: Strings, fmt: u16, s: u16, f: u16, d: u16, h: u16, out: array<byte>,
                     ghost dir: seq<Entry>)
    returns (n: u16)
    requires mem.Valid() && Inv(mem.View(), dir) && out !in mem.Footprint()
    requires Terminated(m.flash, fmt) && CStr(m.flash, fmt) == Sample()
    requires Terminated(m.ram, s) && Terminated(m.flash, f) && IsSaved(dir, h)
    requires NUL !in dir[FdIndex(dir, h)].data && out.Length < 0x1_0000
    requires 13 + |CStr(m.ram, s)| + |CStr(m.flash, f)| + |Decimal(d)| + |dir[FdIndex(dir, h)].data| <= out.Length
    modifies out, mem.Footprint()
    ensures n <= out.Length && out[n..] == old(out[n..])
    ensures out[..n] == [97, 32] + CStr(m.ram, s) + ([32, 98, 32] + CStr(m.flash, f) + ([32, 99, 32] + Decimal(d)
                      + ([32, 100, 32] + dir[FdIndex(dir, h)].data + [32, 101])))
    ensures Inv(mem.View(), dir[FdIndex(dir, h) := GONE])
    ensures forall p :: 0 <= p < 256 ==>
              (mem.View().free[p] <==> old(mem.View().free[p]) || p in dir[FdIndex(dir, h)].pages)
  {
    hide Inv;
    hide CStr;
    hide Decimal;
    hide Print;
    hide Meaning;
    hide Total;
    hide Served;
    hide Stashes;
    hide Takes;
    hide Freed;
    hide Without;
    ghost var r := SampleReads(m, dir, s, f, d, h);
    ghost var free := mem.View().free;
    OneNamed(mem.View(), dir, h);
    n := WritePage(mem, m, fmt, r.ps, [s, f, d, h], out, dir);
    assert out[..n] == r.text;
  }

  lemma OneNamed(s: Store, dir: seq<Entry>, h: u16)
    requires Inv(s, dir) && IsSaved(dir, h)
    ensures var k := FdIndex(dir, h);
            && Without(dir, [h]) == dir[k := GONE]
            && Freed(s.free, dir, [h]) == ReleaseChain(s, dir[k].pages).free
  {
    var k := FdIndex(dir, h);
    FreedNone(s.free, dir);
    FreedSnoc(s, dir, [], k);
    assert [] + [dir[k].pages[0]] == [h];
  }
}
