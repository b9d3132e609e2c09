/** Where the two slots do not stand for plain memory: the calls that need more care from the caller. */
module StashLimits {
  import opened Bytes
  import opened StashStore
  import opened StashWorld
  import StashPages
  import StashRuns

  /** `create` returns a handle on its new page unless both slots already hold that page, as they can
      when it was released from slot 0; then it hands out whatever header slot 1 last saw. */
  lemma CreateNeedsCleanSlots(s: Store)
    requires HasFree(s.free) && LowestFree(s.free, 0) < PAGES
    ensures var p := LowestFree(s.free, 0);
            Create(s).1 == Handle(0, p, p, p, HEADER)
            <==> !(s.b0.bnum == p && s.b1.bnum == p) || s.b1.bytes[..HEADER] == [0, p, p]
  {
    var p := LowestFree(s.free, 0);
    var s1 := Load0(AllocBlock(s).0, p);
    var bytes := SetHeader(s1.b0.bytes, 0, p, p)[TAIL := HEADER][NEXT := 0];
    assert bytes[0] == 0 && bytes[1] == p && bytes[2] == p;
    assert s.b1.bytes[..HEADER] == [s.b1.bytes[0], s.b1.bytes[1], s.b1.bytes[2]];
    CreateHandle(s, p, s1, bytes);
  }

  lemma CreateHandle(s: Store, p: byte, s1: Store, bytes: Page)
    requires HasFree(s.free) && p == LowestFree(s.free, 0) < PAGES && s1 == Load0(AllocBlock(s).0, p)
    requires bytes == SetHeader(s1.b0.bytes, 0, p, p)[TAIL := HEADER][NEXT := 0]
    ensures var from := if s1.b1.bnum == p then s1.b1.bytes else bytes;
            Create(s).1 == Handle(from[0], from[1], from[2], p, HEADER)
    ensures s1.b1.bnum == p <==> s.b0.bnum == p && s.b1.bnum == p
    ensures s1.b1.bnum == p ==> s1.b1 == s.b1
  {
  }

  /** A byte put to a new stash cannot be read before `save`: slot 1 still holds the empty page. */
  lemma ReadBeforeSave(s: Store, dir: seq<Entry>, c: byte)
    requires Inv(s, dir) && HasFree(s.free)
    ensures var (s1, h1) := Create(s);
            && TailByte(s1, h1) <= TAIL
            && var (s2, h2) := Put(s1, h1, c);
               Get(s2, h2).2 == NUL
  {
    CreateKeeps(s, dir);
    var (s1, h1) := Create(s);
    PutKeeps(s1, dir + [Entry([h1.curr], [], true)], |dir|, h1, c);
  }

  /** Rewriting page 0 in slot 0 leaves an old copy of it in slot 1 if one was there. */
  lemma PageZeroMayBeStale(s: Store, page: Page)
    requires s.b0.bnum == 0 && s.b1.bnum == 0
    ensures Slot1Fresh(Load0(s, 0).(b0 := Block(page, 0))) <==> page == s.b1.bytes
  {
  }

  /** The link that page `i` of a chain should hold. */
  function NextOf(e: Entry, i: nat): byte
    requires i < |e.pages|
  {
    if i + 1 < |e.pages| then e.pages[i + 1] else 0
  }

  lemma LogicalNext(s: Store, e: Entry, i: nat)
    requires Shape(e) && Chain(s, e) && i < |e.pages|
    ensures Logical(s, e.pages[i])[NEXT] == NextOf(e, i)
  {
  }

  /** `release` follows the links on the chip; while slot 0 holds a page of the chain they are the
      chain's own only if that page's link has not changed since it was loaded. */
  lemma ReleaseNeedsFlush(s: Store, e: Entry)
    requires Shape(e) && Chain(s, e)
    ensures (forall i :: 0 <= i < |e.pages| ==> PeekIn(s.chip, e.pages[i], NEXT) == NextOf(e, i))
            <==> (s.b0.bnum in e.pages ==> PeekIn(s.chip, s.b0.bnum, NEXT) == s.b0.bytes[NEXT])
  {
    hide Chain;
    forall i | 0 <= i < |e.pages|
      ensures (if s.b0.bnum == e.pages[i] then s.b0.bytes[NEXT] else PeekIn(s.chip, e.pages[i], NEXT)) == NextOf(e, i)
    {
      LogicalNext(s, e, i);
    }
  }

  ghost predicate LinksOnChip(s: Store, e: Entry)
    requires Shape(e)
  {
    forall i :: 0 <= i < |e.pages| ==> PeekIn(s.chip, e.pages[i], NEXT) == NextOf(e, i)
  }

  // ---- each of these can happen, from the start

  /** A stash just created is in slot 0 only: releasing it at once follows what the chip held before. */
  lemma ReleaseUnflushed(chip: Chip)
    ensures var s := Create(Boot(chip)).0;
            s.b0.bnum == 1 && (LinksOnChip(s, Entry([1], [], true)) <==> chip[1][NEXT] == 0)
  {
    FirstFree(chip);
    CreateEffect(Boot(chip), 1);
    var (s, e) := (Create(Boot(chip)).0, Entry([1], [], true));
    assert s.chip == chip[0 := Blank()];
    assert NextOf(e, 0) == 0 && e.pages[0] == 1;
  }

  lemma FirstFree(chip: Chip)
    ensures HasFree(Boot(chip).free) && LowestFree(Boot(chip).free, 0) == 1
  {
    assert Boot(chip).free[1];
  }

  lemma SizeOnNew(s: Store, h: Handle, c: byte)
    requires 1 <= h.last < PAGES && h.count == 0 && s.b0.bnum == h.last && s.b1 == s.b0 && s.b0.bytes[TAIL] == HEADER
    ensures TailByte(s, h) <= TAIL
    ensures var (s', h') := Put(s, h, c); Size(Load0(s', 0), h') == 0
  {
  }

  /** After one byte is put to a new stash and slot 0 moves on, `size` still says that it is empty. */
  lemma SizeBeforeSave(s: Store, dir: seq<Entry>, c: byte)
    requires Inv(s, dir) && HasFree(s.free)
    ensures var (s1, h1) := Create(s);
            && TailByte(s1, h1) <= TAIL
            && var (s2, h2) := Put(s1, h1, c);
               Size(Load0(s2, 0), h2) == 0
  {
    var p := LowestFree(s.free, 0);
    FreeIsApart(s, dir, p);
    CreateEffect(s, p);
    hide Inv;
    hide Create;
    SizeOnNew(Create(s).0, Create(s).1, c);
  }

  /** Saving a stash whose last page is in slot 0, not its first, and opening it leaves its first page in
      both slots, with every link on the chip. */
  lemma SavedAndOpened(s: Store, dir: seq<Entry>, k: nat, h: Handle)
    requires Inv(s, dir) && k < |dir| && Writer(h, dir[k]) && s.b0.bnum != h.first
    ensures var (s', e) := (Open(Save(s, h), h.first).0, dir[k].(saved := true));
            && Inv(s', dir[k := e]) && s'.free == s.free && LinksOnChip(s', e)
            && s'.b0.bnum == h.first && s'.b1.bnum == h.first && s'.b1.bytes[..HEADER] == [h.count, h.first, h.last]
  {
    var (s1, e, dir') := (Save(s, h), dir[k].(saved := true), dir[k := dir[k].(saved := true)]);
    SaveKeeps(s, dir, k, h);
    SaveEffect(s, h);
    OpenKeeps(s1, dir', k);
    InvEntry(s1, dir', k);
    FlushedLink(s, h);
    ReleaseNeedsFlush(Open(s1, h.first).0, e);
  }

  lemma FlushedLink(s: Store, h: Handle)
    requires s.b0.bnum < PAGES && 1 <= h.first < PAGES && s.b0.bnum != h.first
    ensures var s' := Save(s, h); s'.b0.bnum == h.first && s'.chip[h.first][NEXT] == s'.b0.bytes[NEXT]
  {
  }

  /** `create` after the release of a two-page stash that both slots still show. */
  lemma CreateAgain(s: Store, e: Entry)
    requires Shape(e) && |e.pages| == 2 && e.pages[0] == 1 && !s.free[0] && s.b0.bnum == s.b1.bnum == 1
    requires s.b1.bytes[..HEADER] == [1, 1, Last(e)]
    ensures Create(ReleaseChain(s, e.pages)).1 == Handle(1, 1, Last(e), 1, HEADER)
  {
    var s' := ReleaseChain(s, e.pages);
    assert s'.free[1] && !s'.free[0];
    assert LowestFree(s'.free, 0) == 1;
    assert s.b1.bytes[0] == s.b1.bytes[..HEADER][0] && s.b1.bytes[1] == s.b1.bytes[..HEADER][1]
        && s.b1.bytes[2] == s.b1.bytes[..HEADER][2];
  }

  // ---- runs from the start

  function Sixty(): seq<byte> { seq(60, _ => 1) }

  ghost function Start(chip: Chip): (w: StashRuns.World)
    ensures StashRuns.WorldInv(w)
  {
    StashRuns.BootWorld(chip);
    StashRuns.World(Boot(chip), [], [])
  }

  /** create, 60 puts: two pages, slot 0 on the last. */
  lemma SixtyWritten(chip: Chip) returns (w: StashRuns.World)
    ensures StashRuns.Enabled(w, StashRuns.Save(0, 0))
    ensures StashRuns.Written(w, 0, 0, Sixty()) && |w.dir[0].pages| == 2 && w.dir[0].pages[0] == 1
    ensures StashRuns.AllEnabled(Start(chip), StashRuns.WriteOps(0, 0, Sixty()))
    ensures StashRuns.Run(Start(chip), StashRuns.WriteOps(0, 0, Sixty())) == StashRuns.Step(w, StashRuns.Save(0, 0))
  {
    hide StashRuns.Step;
    hide Create;
    hide Chain;
    hide Logical;
    hide StashRuns.OnFirstOnly;
    var w0 := Start(chip);
    var (ops, save) := ([StashRuns.Create] + StashRuns.PutOps(0, 0, Sixty()), StashRuns.Save(0, 0));
    StashPages.PagesConserved(w0.s, w0.dir);
    StashRuns.CreateThenPuts(w0, Sixty());
    w := StashRuns.Run(w0, ops);
    InvEntry(w.s, w.dir, 0);
    StashRuns.RunConcat(w0, ops, [save]);
    StashRuns.RunOne(w, save);
    FirstFree(chip);
    FirstPageIs1(chip);
  }

  lemma FirstPageIs1(chip: Chip)
    ensures Create(Boot(chip)).1.curr == 1
  {
    FirstFree(chip);
    CreateEffect(Boot(chip), 1);
  }

  /** If the first stash is now opened and released, which frees just its pages, the next `create` names
      its last page in the new handle, where an empty stash would have page 1. */
  ghost predicate HandsOutOldHeader(w: StashRuns.World) {
    && StashRuns.LiveAt(w.dir, 0) && Shape(w.dir[0]) && w.dir[0].saved
    && var (s, e) := (Open(w.s, w.dir[0].pages[0]).0, w.dir[0]);
       && LinksOnChip(s, e) && e.pages[0] == 1 && Last(e) != 1
       && Create(ReleaseChain(s, e.pages)).1 == Handle(1, 1, Last(e), 1, HEADER)
  }

  /** That is so from the start after create, 60 puts, save. */
  lemma CreateTakesOldHeader(chip: Chip)
    ensures StashRuns.AllEnabled(Start(chip), StashRuns.WriteOps(0, 0, Sixty()))
    ensures HandsOutOldHeader(StashRuns.Run(Start(chip), StashRuns.WriteOps(0, 0, Sixty())))
  {
    hide HandsOutOldHeader;
    hide StashRuns.WorldInv;
    var w := SixtyWritten(chip);
    ReleasedBySaver(w);
  }

  lemma ReleasedBySaver(w: StashRuns.World)
    requires StashRuns.Written(w, 0, 0, Sixty()) && |w.dir[0].pages| == 2 && w.dir[0].pages[0] == 1
    ensures HandsOutOldHeader(StashRuns.Step(w, StashRuns.Save(0, 0)))
  {
    hide Create;
    hide Save;
    hide Chain;
    InvEntry(w.s, w.dir, 0);
    SavedAndOpened(w.s, w.dir, 0, w.hs[0].h);
    CreateAgain(Open(Save(w.s, w.hs[0].h), 1).0, w.dir[0].(saved := true));
  }

  /** Stash `k`, saved, holds `data` and `c`, but object `i`, having read `data`, gets NUL, and `size` is
      that of `data`. */
  ghost predicate MissesLast(w: StashRuns.World, k: nat, i: nat, data: seq<byte>, c: byte) {
    && StashRuns.WorldInv(w) && StashRuns.Writes(w, k, i) && w.dir[k].saved && w.dir[k].data == data + [c]
    && Reader(w.hs[i].h, w.dir[k], |data|) && !FreshFor(w.s, w.dir[k])
    && Size(w.s, w.hs[i].h) == |data| && Get(w.s, w.hs[i].h).2 == NUL
  }

  /** `size` and `get` with the fill level of `e` in slot 1, once slot 0 has left the last page. */
  lemma AsBefore(s: Store, h: Handle, e: Entry)
    requires Writer(h, e) && Reader(h, e, |e.data|) && |e.pages| > 1
    requires s.b0.bnum != h.last && s.b1.bnum == h.last && s.b1.bytes[TAIL] == Fill(e)
    ensures Size(s, h) == |e.data| && Get(s, h).2 == NUL
  {
    AtMost55Pages(e);
  }

  lemma PutInFront(w: StashRuns.World, k: nat, i: nat, c: byte)
    requires StashRuns.WorldInv(w) && StashRuns.IsFor(w, k, i) && StashRuns.At(w, k, i, |w.dir[k].data|)
    requires |w.dir[k].pages| > 1 && Fill(w.dir[k]) < TAIL && w.s.b0.bnum == w.s.b1.bnum == Last(w.dir[k])
    ensures StashRuns.Enabled(w, StashRuns.Put(k, i, c))
    ensures var w1 := StashRuns.Step(w, StashRuns.Put(k, i, c));
            && StashRuns.WorldInv(w1) && StashRuns.Writes(w1, k, i) && !FreshFor(w1.s, w1.dir[k])
            && w1.dir[k] == Entry(w.dir[k].pages, w.dir[k].data + [c], false)
            && w1.s.b1 == w.s.b1 && w.s.b1.bytes[TAIL] == Fill(w.dir[k]) && w1.hs[i].h == w.hs[i].h
  {
    InvEntry(w.s, w.dir, k);
    assert w.s.b1.bnum in w.dir[k].pages;
    StashRuns.PutStep(w, k, i, c);
    StashRuns.PutIs(w, k, i, c);
    PutKeeps(w.s, w.dir, k, w.hs[i].h, c);
    hide Inv;
    hide Shape;
    hide FreshFor;
  }

  lemma SaveBehind(w: StashRuns.World, k: nat, i: nat)
    requires StashRuns.WorldInv(w) && StashRuns.Writes(w, k, i) && |w.dir[k].pages| > 1
    requires w.s.b1.bnum == Last(w.dir[k]) && !FreshFor(w.s, w.dir[k])
    ensures var w' := StashRuns.Step(w, StashRuns.Save(k, i));
            && StashRuns.WorldInv(w') && StashRuns.Writes(w', k, i) && w'.dir[k] == w.dir[k].(saved := true)
            && !FreshFor(w'.s, w'.dir[k]) && w'.s.b1 == w.s.b1 && w'.s.b0.bnum != Last(w'.dir[k]) && w'.hs == w.hs
  {
    InvEntry(w.s, w.dir, k);
    StashRuns.SaveStep(w, k, i);
    SaveKeeps(w.s, w.dir, k, w.hs[i].h);
    SaveEffect(w.s, w.hs[i].h);
    hide Inv;
    hide Shape;
    hide FreshFor;
    hide Save;
  }

  /** An object that has read all that was put, so that both slots hold the last of several pages, and then
      puts one more byte and saves: slot 1 keeps an old copy of the last page, `size` does not count the
      byte and `get` does not return it. */
  lemma OldCopySaved(w: StashRuns.World, k: nat, i: nat, c: byte)
    requires StashRuns.WorldInv(w) && StashRuns.IsFor(w, k, i) && StashRuns.At(w, k, i, |w.dir[k].data|)
    requires |w.dir[k].pages| > 1 && Fill(w.dir[k]) < TAIL && w.s.b0.bnum == w.s.b1.bnum == Last(w.dir[k])
    ensures StashRuns.Enabled(w, StashRuns.Put(k, i, c))
    ensures var w1 := StashRuns.Step(w, StashRuns.Put(k, i, c));
            StashRuns.WorldInv(w1) && StashRuns.Enabled(w1, StashRuns.Save(k, i))
            && MissesLast(StashRuns.Step(w1, StashRuns.Save(k, i)), k, i, w.dir[k].data, c)
  {
    hide Inv;
    hide StashRuns.Step;
    hide FreshFor;
    hide Get;
    hide Size;
    var w1 := StashRuns.Step(w, StashRuns.Put(k, i, c));
    PutInFront(w, k, i, c);
    SaveBehind(w1, k, i);
    AsBefore(StashRuns.Step(w1, StashRuns.Save(k, i)).s, w.hs[i].h, w.dir[k]);
  }

  lemma FirstThen(w: StashRuns.World, op: StashRuns.Op, rest: seq<StashRuns.Op>)
    requires StashRuns.WorldInv(w) && StashRuns.Enabled(w, op)
    ensures StashRuns.WorldInv(StashRuns.Step(w, op))
    ensures StashRuns.AllEnabled(w, [op] + rest) <==> StashRuns.AllEnabled(StashRuns.Step(w, op), rest)
    ensures StashRuns.AllEnabled(w, [op] + rest) ==>
              StashRuns.Run(w, [op] + rest) == StashRuns.Run(StashRuns.Step(w, op), rest)
  {
    hide StashRuns.WorldInv;
    hide StashRuns.Enabled;
    hide StashRuns.Step;
    StashRuns.StepKeeps(w, op);
    assert ([op] + rest)[1..] == rest;
  }

  /** n + 1 reads, one put, save. */
  function Tail(n: nat): seq<StashRuns.Op> {
    StashRuns.GetOps(0, 0, n) + ([StashRuns.Get(0, 0)] + ([StashRuns.Put(0, 0, 1)] + [StashRuns.Save(0, 0)]))
  }

  /** One more byte after `save`: slot 0 goes to the last page, slot 1 holds no page of the stash. */
  lemma SixtyOne(w: StashRuns.World)
    requires StashRuns.WorldInv(w) && StashRuns.IsFor(w, 0, 0) && StashRuns.At(w, 0, 0, 0)
    requires |w.dir[0].pages| == 2 && |w.dir[0].data| == 60 && w.s.b0.bnum == w.dir[0].pages[0]
    ensures StashRuns.Enabled(w, StashRuns.Put(0, 0, 1))
    ensures var w' := StashRuns.Step(w, StashRuns.Put(0, 0, 1));
            && StashRuns.WorldInv(w') && StashRuns.IsFor(w', 0, 0) && StashRuns.At(w', 0, 0, 0)
            && |w'.dir[0].pages| == 2 && w'.dir[0].data == w.dir[0].data + [1] && w'.s.b0.bnum == Last(w'.dir[0])
  {
    InvEntry(w.s, w.dir, 0);
    StashRuns.PutStep(w, 0, 0, 1);
    StashRuns.PutIs(w, 0, 0, 1);
    PutKeeps(w.s, w.dir, 0, w.hs[0].h, 1);
    hide Inv;
    hide FreshFor;
  }

  lemma TailMisses(w: StashRuns.World, n: nat)
    requires StashRuns.WorldInv(w) && StashRuns.IsFor(w, 0, 0) && StashRuns.At(w, 0, 0, 0)
    requires |w.dir[0].pages| == 2 && |w.dir[0].data| == n + 1 == 61 && w.s.b0.bnum == Last(w.dir[0])
    ensures StashRuns.AllEnabled(w, Tail(n))
    ensures MissesLast(StashRuns.Run(w, Tail(n)), 0, 0, w.dir[0].data, 1)
  {
    hide StashRuns.WorldInv;
    hide StashRuns.Enabled;
    hide StashRuns.Step;
    hide StashRuns.At;
    hide MissesLast;
    var (get, put, save) := (StashRuns.Get(0, 0), StashRuns.Put(0, 0, 1), StashRuns.Save(0, 0));
    var w3 := SixtyRead(w, n);
    StashRuns.RunConcat(w, StashRuns.GetOps(0, 0, n), [get] + ([put] + [save]));
    LastRead(w3, n);
    var w4 := StashRuns.Step(w3, get);
    OldCopySaved(w4, 0, 0, 1);
    var w5 := StashRuns.Step(w4, put);
    FirstThen(w3, get, [put] + [save]);
    FirstThen(w4, put, [save]);
    StashRuns.RunOne(w5, save);
  }

  lemma SixtyRead(w: StashRuns.World, n: nat) returns (w': StashRuns.World)
    requires StashRuns.WorldInv(w) && StashRuns.IsFor(w, 0, 0) && StashRuns.At(w, 0, 0, 0)
    requires |w.dir[0].data| == n + 1 == 61
    ensures StashRuns.AllEnabled(w, StashRuns.GetOps(0, 0, n)) && w' == StashRuns.Run(w, StashRuns.GetOps(0, 0, n))
    ensures StashRuns.WorldInv(w') && StashRuns.IsFor(w', 0, 0) && StashRuns.At(w', 0, 0, n)
    ensures w'.dir == w.dir && w'.s.b0 == w.s.b0
  {
    StashRuns.GetsEnabled(w, 0, 0, n);
    StashRuns.InterleavedReads(w, StashRuns.GetOps(0, 0, n), 0, 0, 0);
    w' := StashRuns.Run(w, StashRuns.GetOps(0, 0, n));
  }

  lemma LastRead(w: StashRuns.World, n: nat)
    requires StashRuns.WorldInv(w) && StashRuns.IsFor(w, 0, 0) && StashRuns.At(w, 0, 0, n)
    requires |w.dir[0].pages| == 2 && |w.dir[0].data| == n + 1 == 61 && w.s.b0.bnum == Last(w.dir[0])
    ensures StashRuns.Enabled(w, StashRuns.Get(0, 0))
    ensures var w' := StashRuns.Step(w, StashRuns.Get(0, 0));
            && StashRuns.WorldInv(w') && StashRuns.IsFor(w', 0, 0) && StashRuns.At(w', 0, 0, n + 1)
            && w'.dir == w.dir && w'.s.b0.bnum == w'.s.b1.bnum == Last(w.dir[0])
  {
    StashRuns.AtStep(w, StashRuns.Get(0, 0), 0, 0, n);
    GetKeeps(w.s, w.dir, 0, w.hs[0].h, n);
  }

  /** That happens from the start with one stash: create, 60 puts, save, put, 61 gets, put, save. */
  lemma SaveLeavesOldCopy(chip: Chip)
    ensures var ops := StashRuns.WriteOps(0, 0, Sixty()) + ([StashRuns.Put(0, 0, 1)] + Tail(|Sixty()|));
            && StashRuns.AllEnabled(Start(chip), ops)
            && MissesLast(StashRuns.Run(Start(chip), ops), 0, 0, Sixty() + [1], 1)
  {
    hide StashRuns.WorldInv;
    hide StashRuns.Enabled;
    hide StashRuns.Step;
    hide StashRuns.At;
    hide MissesLast;
    hide Start;
    hide Tail;
    hide StashRuns.Run;
    hide StashRuns.AllEnabled;
    hide StashRuns.WriteOps;
    var w := SixtyWritten(chip);
    StashRuns.SaveWritten(w, 0, 0, Sixty());
    var w1 := StashRuns.Step(w, StashRuns.Save(0, 0));
    SixtyOne(w1);
    TailMisses(StashRuns.Step(w1, StashRuns.Put(0, 0, 1)), |Sixty()|);
    StashRuns.RunConcat(Start(chip), StashRuns.WriteOps(0, 0, Sixty()), [StashRuns.Put(0, 0, 1)] + Tail(|Sixty()|));
    FirstThen(w1, StashRuns.Put(0, 0, 1), Tail(|Sixty()|));
  }
}
