/** Runs: any sequence of calls through any number of handles on any number of interleaved stashes. */
module StashRuns {
  import opened Bytes
  import opened StashStore
  import opened StashWorld
  import opened StashReads
  import opened StashPages

  /** A `Stash` object, and the stash it was created or opened for. */
  datatype Opened = Opened(h: Handle, k: nat)

  /** The store, the registry, and all `Stash` objects in the order in which they were made. */
  datatype World = World(s: Store, dir: seq<Entry>, hs: seq<Opened>)

  datatype Op =
    | Create                         // a new stash and an object for it
    | Open(k: nat)                   // another object for stash k, saved or not
    | Put(k: nat, i: nat, c: byte)   // through object i, which is one for stash k
    | Save(k: nat, i: nat)
    | Get(k: nat, i: nat)
    | Record(page: Page)             // what prepare does to page 0
    | Flush                          // load(0, 0), as length, extract and cleanup begin with
    | Release(k: nat)

  ghost predicate WorldInv(w: World) {
    Inv(w.s, w.dir) && forall i :: 0 <= i < |w.hs| ==> w.hs[i].k < |w.dir|
  }

  predicate LiveAt(dir: seq<Entry>, k: nat) { k < |dir| && Live(dir[k]) }

  /** Object `i` is one for stash `k`, which is in use. */
  predicate IsFor(w: World, k: nat, i: nat) { i < |w.hs| && w.hs[i].k == k && LiveAt(w.dir, k) }

  /** Its cached header is that of the stash. */
  predicate Writes(w: World, k: nat, i: nat) { IsFor(w, k, i) && Writer(w.hs[i].h, w.dir[k]) }

  /** What each call asks of its caller. Writing and saving need a current header; reading only an offset
      inside the block. `Flush` right before it makes `Release` safe, as `cleanup` does. */
  predicate Enabled(w: World, op: Op) {
    match op
    case Create => HasFree(w.s.free)
    case Open(k) => LiveAt(w.dir, k)
    case Put(k, i, _) => Writes(w, k, i) && CanPut(w.s, w.dir[k])
    case Save(k, i) => Writes(w, k, i)
    case Get(k, i) => i < |w.hs| && w.hs[i].k == k && w.hs[i].h.offs < 64
    case Record(_) => true
    case Flush => true
    case Release(k) => LiveAt(w.dir, k) && w.s.b0.bnum !in w.dir[k].pages
  }

  ghost function Step(w: World, op: Op): (w': World)
    requires WorldInv(w) && Enabled(w, op)
  {
    match op
    case Create =>
      var (s, h) := StashStore.Create(w.s);
      World(s, w.dir + [Entry([h.curr], [], true)], w.hs + [Opened(h, |w.dir|)])
    case Open(k) =>
      var (s, h) := StashStore.Open(w.s, w.dir[k].pages[0]);
      World(s, w.dir, w.hs + [Opened(h, k)])
    case Put(k, i, c) =>
      PutKeeps(w.s, w.dir, k, w.hs[i].h, c);
      var (s, h) := StashStore.Put(w.s, w.hs[i].h, c);
      World(s, w.dir[k := AfterPut(w.dir[k], c, h.last)], w.hs[i := Opened(h, k)])
    case Save(k, i) => World(StashStore.Save(w.s, w.hs[i].h), w.dir[k := w.dir[k].(saved := true)], w.hs)
    case Get(k, i) =>
      var (s, h, _) := StashStore.Get(w.s, w.hs[i].h);
      World(s, w.dir, w.hs[i := Opened(h, k)])
    case Record(page) => w.(s := Load0(w.s, 0).(b0 := Block(page, 0)))
    case Flush => w.(s := Load0(w.s, 0))
    case Release(k) => w.(s := ReleaseChain(w.s, w.dir[k].pages), dir := w.dir[k := GONE])
  }

  /** The bytes put to stash `k` by a run. */
  function PutsTo(ops: seq<Op>, k: nat): seq<byte> {
    if ops == [] then []
    else (if ops[0].Put? && ops[0].k == k then [ops[0].c] else []) + PutsTo(ops[1..], k)
  }

  function DataOf(dir: seq<Entry>, k: nat): seq<byte> { if k < |dir| then dir[k].data else [] }

  predicate PutsIn(op: Op, k: nat) { op.Put? && op.k == k }

  /** What one call does to the data of all stashes. */
  ghost predicate DataStep(dir: seq<Entry>, dir': seq<Entry>, op: Op) {
    && |dir| <= |dir'|
    && (forall k: nat :: LiveAt(dir', k) && k < |dir| ==> LiveAt(dir, k))
    && (forall k: nat :: (LiveAt(dir', k) || k >= |dir'|) ==>
          DataOf(dir', k) == DataOf(dir, k) + (if op.Put? && op.k == k then [op.c] else []))
  }

  /** What one call leaves alone: of every stash still in use that it did not write to, the pages, the data
      and the fact that slot 1 holds no old copy. */
  ghost predicate OthersKept(w: World, w': World, op: Op) {
    forall k: nat :: LiveAt(w'.dir, k) && k < |w.dir| && !PutsIn(op, k) ==>
      && (w'.dir[k] == w.dir[k] || w'.dir[k] == w.dir[k].(saved := true))
      && (FreshFor(w.s, w.dir[k]) ==> FreshFor(w'.s, w'.dir[k]))
  }

  /** All of it. */
  ghost predicate Kept(w: World, w': World, op: Op) {
    WorldInv(w') && DataStep(w.dir, w'.dir, op) && OthersKept(w, w', op)
  }

  lemma FreshFrame(s: Store, s': Store, e: Entry)
    requires forall p :: p in e.pages ==> 1 <= p < PAGES && Logical(s', p) == Logical(s, p)
    requires s'.b1 == s.b1 || s'.b1.bnum in {0, NO_PAGE} || Slot1Fresh(s')
    ensures FreshFor(s, e) ==> FreshFor(s', e)
  {
  }

  /** Only the slots moved. */
  lemma SlotStep(w: World, w': World, op: Op)
    requires WorldInv(w) && WorldInv(w') && w'.dir == w.dir && !op.Put?
    requires forall p :: 1 <= p < PAGES ==> Logical(w'.s, p) == Logical(w.s, p)
    requires w'.s.b1 == w.s.b1 || w'.s.b1.bnum in {0, NO_PAGE} || Slot1Fresh(w'.s)
    ensures Kept(w, w', op)
  {
    hide Chain;
    hide Logical;
    hide Slot1Fresh;
    hide Slot1Ok;
    forall k: nat | LiveAt(w'.dir, k) ensures FreshFor(w.s, w.dir[k]) ==> FreshFor(w'.s, w'.dir[k]) {
      FreshFrame(w.s, w'.s, w.dir[k]);
    }
  }

  lemma CreateStep(w: World)
    requires WorldInv(w) && Enabled(w, Create)
    ensures Kept(w, Step(w, Create), Create)
  {
    hide Inv;
    hide StashStore.Create;
    CreateKeeps(w.s, w.dir);
  }

  lemma OpenStep(w: World, k: nat)
    requires WorldInv(w) && Enabled(w, Open(k))
    ensures Kept(w, Step(w, Open(k)), Open(k))
  {
    Load1Keeps(w.s, w.dir, w.dir[k].pages[0]);
    SlotStep(w, Step(w, Open(k)), Open(k));
  }

  lemma GetStep(w: World, k: nat, i: nat)
    requires WorldInv(w) && Enabled(w, Get(k, i))
    ensures Kept(w, Step(w, Get(k, i)), Get(k, i))
  {
    hide Inv;
    hide Slot1Fresh;
    Load1Keeps(w.s, w.dir, w.hs[i].h.curr);
    hide Load1;
    SlotStep(w, Step(w, Get(k, i)), Get(k, i));
  }

  lemma DataOfOne(dir: seq<Entry>, k: nat, e: Entry, op: Op)
    requires LiveAt(dir, k) && Live(e) && (op.Put? ==> op.k == k)
    requires e.data == dir[k].data + (if op.Put? then [op.c] else [])
    ensures DataStep(dir, dir[k := e], op)
  {
  }

  /** Stash `k` becomes `e` and nothing else changes outside its pages. */
  lemma EntryStep(w: World, w': World, op: Op, k: nat, e: Entry)
    requires WorldInv(w) && WorldInv(w') && LiveAt(w.dir, k) && Live(e) && w'.dir == w.dir[k := e]
    requires op.Put? ==> op.k == k
    requires e.data == w.dir[k].data + (if op.Put? then [op.c] else [])
    requires !op.Put? ==> e == w.dir[k].(saved := true) && (FreshFor(w.s, w.dir[k]) ==> FreshFor(w'.s, e))
    requires forall p :: 0 <= p < PAGES && p !in e.pages ==> Logical(w'.s, p) == Logical(w.s, p)
    requires w'.s.b1 == w.s.b1 || w'.s.b1.bnum in {0, NO_PAGE}
    ensures Kept(w, w', op)
  {
    DataOfOne(w.dir, k, e, op);
    OthersOfOne(w, w', op, k, e);
    hide DataStep;
    hide OthersKept;
    hide WorldInv;
    hide FreshFor;
    hide Logical;
  }

  lemma OthersOfOne(w: World, w': World, op: Op, k: nat, e: Entry)
    requires WorldInv(w) && WorldInv(w') && LiveAt(w.dir, k) && Live(e) && w'.dir == w.dir[k := e]
    requires op.Put? ==> op.k == k
    requires !op.Put? ==> e == w.dir[k].(saved := true) && (FreshFor(w.s, w.dir[k]) ==> FreshFor(w'.s, e))
    requires forall p :: 0 <= p < PAGES && p !in e.pages ==> Logical(w'.s, p) == Logical(w.s, p)
    requires w'.s.b1 == w.s.b1 || w'.s.b1.bnum in {0, NO_PAGE}
    ensures OthersKept(w, w', op)
  {
    hide Inv;
    hide FreshFor;
    hide Logical;
    forall l: nat | LiveAt(w'.dir, l) && l != k
      ensures w'.dir[l] == w.dir[l] && (FreshFor(w.s, w.dir[l]) ==> FreshFor(w'.s, w'.dir[l]))
    {
      OtherFresh(w, w', k, l);
    }
  }

  lemma OtherFresh(w: World, w': World, k: nat, l: nat)
    requires WorldInv(w) && WorldInv(w') && LiveAt(w.dir, k) && LiveAt(w'.dir, k) && LiveAt(w.dir, l) && l != k
    requires w'.dir == w.dir[k := w'.dir[k]]
    requires forall p :: 0 <= p < PAGES && p !in w'.dir[k].pages ==> Logical(w'.s, p) == Logical(w.s, p)
    requires w'.s.b1 == w.s.b1 || w'.s.b1.bnum in {0, NO_PAGE}
    ensures FreshFor(w.s, w.dir[l]) ==> FreshFor(w'.s, w.dir[l])
  {
    hide Chain;
    hide Logical;
    hide Slot1Ok;
    assert w'.dir[l] == w.dir[l];
    FreshFrame(w.s, w'.s, w.dir[l]);
  }

  lemma PutStep(w: World, k: nat, i: nat, c: byte)
    requires WorldInv(w) && Enabled(w, Put(k, i, c))
    ensures Kept(w, Step(w, Put(k, i, c)), Put(k, i, c))
  {
    hide Inv;
    hide Logical;
    hide StashStore.Put;
    PutKeeps(w.s, w.dir, k, w.hs[i].h, c);
    var w' := Step(w, Put(k, i, c));
    EntryStep(w, w', Put(k, i, c), k, w'.dir[k]);
  }

  lemma SaveStep(w: World, k: nat, i: nat)
    requires WorldInv(w) && Enabled(w, Save(k, i))
    ensures Kept(w, Step(w, Save(k, i)), Save(k, i))
  {
    hide Inv;
    hide Logical;
    hide StashStore.Save;
    SaveKeeps(w.s, w.dir, k, w.hs[i].h);
    var w' := Step(w, Save(k, i));
    EntryStep(w, w', Save(k, i), k, w'.dir[k]);
  }

  lemma ReleaseStep(w: World, k: nat)
    requires WorldInv(w) && Enabled(w, Release(k))
    ensures Kept(w, Step(w, Release(k)), Release(k))
  {
    ReleaseKeeps(w.s, w.dir, k);
    var w' := Step(w, Release(k));
    hide Inv;
    forall l: nat | LiveAt(w'.dir, l) ensures w'.dir[l] == w.dir[l] {}
  }

  /** Every call keeps the invariant, and of every other stash the data and the fact that slot 1 holds no
      old copy of it. */
  lemma StepKeeps(w: World, op: Op)
    requires WorldInv(w) && Enabled(w, op)
    ensures Kept(w, Step(w, op), op)
  {
    match op
    case Create => CreateStep(w);
    case Open(k) => OpenStep(w, k);
    case Put(k, i, c) => PutStep(w, k, i, c);
    case Save(k, i) => SaveStep(w, k, i);
    case Get(k, i) => GetStep(w, k, i);
    case Record(page) => RecordStep(w, op);
    case Flush => RecordStep(w, op);
    case Release(k) => ReleaseStep(w, k);
  }

  lemma RecordStep(w: World, op: Op)
    requires WorldInv(w) && (op.Record? || op.Flush?)
    ensures Kept(w, Step(w, op), op)
  {
    RecordKeeps(w.s, w.dir, if op.Record? then op.page else Blank());
    SlotStep(w, Step(w, op), op);
  }

  ghost predicate AllEnabled(w: World, ops: seq<Op>)
    requires WorldInv(w)
    decreases |ops|
  {
    ops == [] || (Enabled(w, ops[0]) && (StepKeeps(w, ops[0]); AllEnabled(Step(w, ops[0]), ops[1..])))
  }

  ghost function Run(w: World, ops: seq<Op>): World
    requires WorldInv(w) && AllEnabled(w, ops)
    decreases |ops|
  {
    if ops == [] then w else (StepKeeps(w, ops[0]); Run(Step(w, ops[0]), ops[1..]))
  }

  /** The registry `dir` becomes `dir1` in the first call and `dir2` in the rest. */
  lemma {:induction false} RunCons(dir: seq<Entry>, dir1: seq<Entry>, dir2: seq<Entry>, ops: seq<Op>, k: nat)
    requires ops != [] && DataStep(dir, dir1, ops[0]) && |dir1| <= |dir2|
    requires LiveAt(dir2, k) ==> DataOf(dir2, k) == DataOf(dir1, k) + PutsTo(ops[1..], k)
    requires LiveAt(dir2, k) && k < |dir1| ==> LiveAt(dir1, k)
    ensures |dir| <= |dir2|
    ensures LiveAt(dir2, k) ==> DataOf(dir2, k) == DataOf(dir, k) + PutsTo(ops, k)
    ensures LiveAt(dir2, k) && k < |dir| ==> LiveAt(dir, k)
  {
    if LiveAt(dir2, k) {
      var step := if ops[0].Put? && ops[0].k == k then [ops[0].c] else [];
      assert DataOf(dir1, k) == DataOf(dir, k) + step;
      assert PutsTo(ops, k) == step + PutsTo(ops[1..], k);
    }
  }

  /** Safety over whole runs, whatever was interleaved and through whatever objects: the invariant holds at
      the end, and a stash still in use holds exactly the bytes put to it. */
  lemma {:induction false} RunTheorem(w: World, ops: seq<Op>, k: nat)
    requires WorldInv(w) && AllEnabled(w, ops)
    ensures WorldInv(Run(w, ops)) && |w.dir| <= |Run(w, ops).dir|
    ensures LiveAt(Run(w, ops).dir, k) ==> DataOf(Run(w, ops).dir, k) == DataOf(w.dir, k) + PutsTo(ops, k)
    ensures LiveAt(Run(w, ops).dir, k) && k < |w.dir| ==> LiveAt(w.dir, k)
    decreases |ops|
  {
    hide WorldInv;
    hide Enabled;
    hide Step;
    hide OthersKept;
    hide DataStep;
    if ops != [] {
      StepKeeps(w, ops[0]);
      var w1 := Step(w, ops[0]);
      RunTheorem(w1, ops[1..], k);
      RunCons(w.dir, w1.dir, Run(w1, ops[1..]).dir, ops, k);
    }
  }

  lemma BootWorld(chip: Chip)
    ensures WorldInv(World(Boot(chip), [], []))
  {
    BootInv(chip);
  }

  /** In every run from the start, pages are conserved and page 0 is never handed out. */
  lemma RunConservesPages(chip: Chip, ops: seq<Op>)
    requires (BootWorld(chip); AllEnabled(World(Boot(chip), [], []), ops))
    ensures var w := (BootWorld(chip); Run(World(Boot(chip), [], []), ops));
            && FreeCount(w.s.free) + TotalPages(w.dir) == 55
            && Disjoint(w.dir) && !Owned(w.dir, 0) && !w.s.free[0]
            && forall p :: 1 <= p < PAGES ==> (w.s.free[p] <==> !Owned(w.dir, p))
  {
    BootWorld(chip);
    RunTheorem(World(Boot(chip), [], []), ops, 0);
    var w := Run(World(Boot(chip), [], []), ops);
    PagesConserved(w.s, w.dir);
  }

  // ---- objects kept open

  lemma WriterAfterPut(h: Handle, e: Entry, c: byte, page: byte)
    requires Shape(e) && Writer(h, e) && (Fill(e) == TAIL ==> page !in e.pages)
    ensures Writer(h, AfterPut(e, c, page)) <==> Fill(e) != TAIL
  {
  }

  /** A `put` step, field by field. */
  ghost predicate PutAs(w: World, w': World, k: nat, i: nat, c: byte)
    requires Writes(w, k, i)
  {
    var e := w.dir[k];
    && i < |w'.hs| && w'.hs == w.hs[i := w'.hs[i]] && w'.hs[i].k == k
    && (var (h, h') := (w.hs[i].h, w'.hs[i].h);
        && w'.dir == w.dir[k := AfterPut(e, c, h'.last)] && Shape(e) && Shape(w'.dir[k]) && Writer(h', w'.dir[k])
        && h'.curr == h.curr && h'.offs == h.offs
        && (Fill(e) == TAIL ==> h'.last !in e.pages)
        && w'.s.b0.bnum == h'.last && w'.s.b1 == Slot1AfterPut(w.s, h.last, h'.last))
  }

  lemma PutIs(w: World, k: nat, i: nat, c: byte)
    requires WorldInv(w) && Enabled(w, Put(k, i, c))
    ensures PutAs(w, Step(w, Put(k, i, c)), k, i, c)
  {
    hide Chain;
    hide Logical;
    hide Slot1Ok;
    hide Slot0Ok;
    hide StashStore.Put;
    hide Disjoint;
    hide FreshFor;
    var (s', h') := (Step(w, Put(k, i, c)).s, Step(w, Put(k, i, c)).hs[i].h);
    PutKeeps(w.s, w.dir, k, w.hs[i].h, c);
    if Fill(w.dir[k]) == TAIL { FreeIsApart(w.s, w.dir, h'.last); }
    InvEntry(s', Step(w, Put(k, i, c)).dir, k);
  }

  /** After one call the header in object `i` is still current, exactly unless a `put` through another
      object has just linked a new page. */
  lemma HandleKept(w: World, op: Op, k: nat, i: nat)
    requires WorldInv(w) && Enabled(w, op) && Writes(w, k, i) && LiveAt(Step(w, op).dir, k)
    ensures Writes(Step(w, op), k, i) <==> !(PutsIn(op, k) && op.i != i && Fill(w.dir[k]) == TAIL)
  {
    hide Inv;
    if op.Put? {
      PutIs(w, op.k, op.i, op.c);
      hide Step;
      hide Shape;
      if op.k == k && op.i != i {
        WriterAfterPut(w.hs[i].h, w.dir[k], op.c, Step(w, op).hs[op.i].h.last);
      }
    }
  }

  /** Nor does it lose its place while others read, write or save. */
  lemma PlaceKept(w: World, op: Op, k: nat, i: nat, j: nat)
    requires WorldInv(w) && Enabled(w, op) && Writes(w, k, i) && Reader(w.hs[i].h, w.dir[k], j)
    requires LiveAt(Step(w, op).dir, k) && Writes(Step(w, op), k, i) && !(op.Get? && op.i == i)
    ensures Reader(Step(w, op).hs[i].h, Step(w, op).dir[k], j)
  {
    hide Inv;
    if op.Put? {
      PutIs(w, op.k, op.i, op.c);
      hide Step;
    }
  }

  /** Object `i` for stash `k` has read `j` bytes, and slot 1 holds no old copy of the stash. */
  predicate At(w: World, k: nat, i: nat, j: nat) {
    Writes(w, k, i) && Reader(w.hs[i].h, w.dir[k], j) && FreshFor(w.s, w.dir[k])
  }

  predicate Gets(op: Op, i: nat) { op.Get? && op.i == i }

  /** How often object `i` reads in a run. */
  function GetCount(ops: seq<Op>, i: nat): nat {
    if ops == [] then 0 else (if Gets(ops[0], i) then 1 else 0) + GetCount(ops[1..], i)
  }

  /** What it gets. */
  ghost function Got(w: World, ops: seq<Op>, i: nat): seq<byte>
    requires WorldInv(w) && AllEnabled(w, ops)
    decreases |ops|
  {
    if ops == [] then []
    else
      StepKeeps(w, ops[0]);
      (if Gets(ops[0], i) then [StashStore.Get(w.s, w.hs[i].h).2] else []) + Got(Step(w, ops[0]), ops[1..], i)
  }

  /** No call of the run writes to stash `k` or releases it. */
  predicate Untouched(ops: seq<Op>, k: nat) {
    forall n :: 0 <= n < |ops| ==> !PutsIn(ops[n], k) && !(ops[n].Release? && ops[n].k == k)
  }

  lemma StillLive(w: World, op: Op, k: nat)
    requires WorldInv(w) && Enabled(w, op) && LiveAt(w.dir, k)
    ensures LiveAt(Step(w, op).dir, k) <==> !(op.Release? && op.k == k)
  {
  }

  /** One call seen from an open object. */
  lemma AtStep(w: World, op: Op, k: nat, i: nat, j: nat)
    requires WorldInv(w) && Enabled(w, op) && At(w, k, i, j) && Untouched([op], k)
    ensures var (w', data) := (Step(w, op), w.dir[k].data);
            && WorldInv(w') && LiveAt(w'.dir, k) && w'.dir[k].data == data
            && At(w', k, i, if Gets(op, i) && j < |data| then j + 1 else j)
            && (Gets(op, i) ==> StashStore.Get(w.s, w.hs[i].h).2 == if j < |data| then data[j] else NUL)
  {
    hide Inv;
    hide FreshFor;
    assert [op][0] == op;
    StillLive(w, op, k);
    StepKeeps(w, op);
    if Gets(op, i) {
      assert Current(w.s, w.hs[i].h.curr) by { FreshAt(w.s, w.dir[k], w.hs[i].h, j); }
      GetKeeps(w.s, w.dir, k, w.hs[i].h, j);
    } else {
      HandleKept(w, op, k, i);
      PlaceKept(w, op, k, i, j);
    }
  }

  lemma FreshAt(s: Store, e: Entry, h: Handle, j: nat)
    requires Reader(h, e, j) && FreshFor(s, e)
    ensures Current(s, h.curr)
  {
    assert h.curr in e.pages;
  }

  /** What `n` more reads of an object, which has read `j` bytes of stash `k`, come to. */
  ghost predicate ReadOn(w: World, w': World, got: seq<byte>, k: nat, i: nat, j: nat, n: nat)
    requires LiveAt(w.dir, k) && j <= |w.dir[k].data|
  {
    var data := w.dir[k].data;
    && WorldInv(w') && At(w', k, i, Min(j + n, |data|)) && w'.dir[k].data == data && got == Rest(data, j, n)
  }

  lemma ReadOnCons(w: World, w1: World, w': World, op: Op, got: seq<byte>, k: nat, i: nat, j: nat, n: nat)
    requires WorldInv(w) && Enabled(w, op) && At(w, k, i, j) && Untouched([op], k) && w1 == Step(w, op)
    requires var j1 := if Gets(op, i) && j < |w.dir[k].data| then j + 1 else j;
             LiveAt(w1.dir, k) && j1 <= |w1.dir[k].data| && ReadOn(w1, w', got, k, i, j1, n)
    ensures if Gets(op, i) then ReadOn(w, w', [StashStore.Get(w.s, w.hs[i].h).2] + got, k, i, j, n + 1)
            else ReadOn(w, w', got, k, i, j, n)
  {
    hide Inv;
    hide Enabled;
    hide Step;
    hide Reader;
    hide Writer;
    hide FreshFor;
    AtStep(w, op, k, i, j);
    if Gets(op, i) { RestCons(w.dir[k].data, j, n + 1); }
  }

  lemma {:induction false} ReadOnRun(w: World, ops: seq<Op>, k: nat, i: nat, j: nat)
    requires WorldInv(w) && AllEnabled(w, ops) && At(w, k, i, j) && Untouched(ops, k)
    ensures j <= |w.dir[k].data| && ReadOn(w, Run(w, ops), Got(w, ops, i), k, i, j, GetCount(ops, i))
    decreases |ops|
  {
    hide Inv;
    hide Enabled;
    hide Step;
    hide Reader;
    hide Writer;
    hide FreshFor;
    SizeAt(w, k, i, j);
    if ops == [] {
      assert Rest(w.dir[k].data, j, 0) == [];
    } else {
      var op := ops[0];
      assert ops[..1] == [op] && Untouched([op], k) && Untouched(ops[1..], k);
      AtStep(w, op, k, i, j);
      StepKeeps(w, op);
      var w1 := Step(w, op);
      ReadOnRun(w1, ops[1..], k, i, if Gets(op, i) && j < |w.dir[k].data| then j + 1 else j);
      ReadOnCons(w, w1, Run(w, ops), op, Got(w1, ops[1..], i), k, i, j, GetCount(ops[1..], i));
    }
  }

  /** Reading while other calls go on: from where it stands, an object gets the data in order and then NULs,
      and `size` stays right, whatever happens between its reads to all other stashes, and through other
      objects to this one short of writing to it or releasing it. */
  lemma InterleavedReads(w: World, ops: seq<Op>, k: nat, i: nat, j: nat)
    requires WorldInv(w) && AllEnabled(w, ops) && At(w, k, i, j) && Untouched(ops, k)
    ensures var (w', data, n) := (Run(w, ops), w.dir[k].data, GetCount(ops, i));
            && j <= |data| && Got(w, ops, i) == Rest(data, j, n)
            && WorldInv(w') && At(w', k, i, Min(j + n, |data|))
            && w'.dir[k].data == data && Size(w'.s, w'.hs[i].h) == |data|
  {
    hide Inv;
    hide Enabled;
    hide Step;
    hide Reader;
    hide Writer;
    hide FreshFor;
    ReadOnRun(w, ops, k, i, j);
    SizeAt(Run(w, ops), k, i, Min(j + GetCount(ops, i), |w.dir[k].data|));
  }

  lemma SizeAt(w: World, k: nat, i: nat, j: nat)
    requires WorldInv(w) && At(w, k, i, j)
    ensures j <= |w.dir[k].data| && Size(w.s, w.hs[i].h) == |w.dir[k].data|
  {
    assert w.hs[i].h.last in w.dir[k].pages;
    SizeIsLength(w.s, w.dir, k, w.hs[i].h);
  }

  /** An object just opened for a saved stash is at its start, whatever slot 1 held. */
  lemma OpenAt(w: World, k: nat)
    requires WorldInv(w) && LiveAt(w.dir, k) && w.dir[k].saved
    ensures var w' := Step(w, Open(k)); WorldInv(w') && w'.dir == w.dir && At(w', k, |w.hs|, 0)
  {
    StepKeeps(w, Open(k));
    OpenKeeps(w.s, w.dir, k);
  }

  /** After any run at all a saved stash reads back through an object newly opened for it: all bytes put to
      it, in order, then NULs; and `size` is their number. Other calls may go on between the reads. */
  lemma RunReadsBack(w: World, ops: seq<Op>, k: nat, reading: seq<Op>)
    requires WorldInv(w) && AllEnabled(w, ops)
    requires var w1 := Run(w, ops);
             LiveAt(w1.dir, k) && w1.dir[k].saved
             && (RunTheorem(w, ops, k); AllEnabled(w1, [Open(k)] + reading)) && Untouched(reading, k)
    ensures var (w1, all, data) := (Run(w, ops), [Open(k)] + reading, DataOf(w.dir, k) + PutsTo(ops, k));
            && WorldInv(w1)
            && Got(w1, all, |w1.hs|) == Rest(data, 0, GetCount(reading, |w1.hs|))
            && IsFor(Run(w1, all), k, |w1.hs|) && Size(Run(w1, all).s, Run(w1, all).hs[|w1.hs|].h) == |data|
  {
    hide WorldInv;
    hide Enabled;
    hide Step;
    RunTheorem(w, ops, k);
    var w1 := Run(w, ops);
    var all := [Open(k)] + reading;
    assert all[0] == Open(k) && all[1..] == reading;
    OpenAt(w1, k);
    hide At;
    InterleavedReads(Step(w1, Open(k)), reading, k, |w1.hs|, 0);
  }

  // ---- how many pages a stash costs

  function PutOps(k: nat, i: nat, data: seq<byte>): seq<Op> {
    if data == [] then [] else [Put(k, i, data[0])] + PutOps(k, i, data[1..])
  }

  /** Pages still to be taken when `n` more bytes are put. */
  function Need(e: Entry, n: nat): int { (|e.data| + n + HEADER) / 63 - (|e.pages| - 1) }

  /** Of a stash slot 1 holds the first page, if any. */
  predicate OnFirstOnly(s: Store, e: Entry)
    requires Live(e)
  {
    s.b1.bnum in e.pages ==> s.b1.bnum == e.pages[0]
  }

  /** What `put` through object `i` does to the object and to slot 1. */
  ghost predicate Wrote(w: World, w': World, k: nat, i: nat)
    requires Writes(w, k, i)
  {
    && WorldInv(w') && |w'.dir| == |w.dir| && |w'.hs| == |w.hs| && Writes(w', k, i)
    && w'.dir[k].pages[0] == w.dir[k].pages[0]
    && (OnFirstOnly(w.s, w.dir[k]) ==> OnFirstOnly(w'.s, w'.dir[k]))
    && w'.hs[i].h.curr == w.hs[i].h.curr && w'.hs[i].h.offs == w.hs[i].h.offs
  }

  /** A run of puts goes through exactly when the free pages cover it; slot 0 then holds the last page. */
  lemma {:induction false} PutsEnabled(w: World, k: nat, i: nat, data: seq<byte>)
    requires WorldInv(w) && Writes(w, k, i)
    ensures AllEnabled(w, PutOps(k, i, data)) <==> FreeCount(w.s.free) >= Need(w.dir[k], |data|)
    ensures AllEnabled(w, PutOps(k, i, data)) ==>
              var w' := Run(w, PutOps(k, i, data));
              && Wrote(w, w', k, i) && (data != [] ==> w'.s.b0.bnum == Last(w'.dir[k]))
              && (data != [] ==> !w'.dir[k].saved)
    decreases |data|
  {
    hide Enabled;
    hide Step;
    hide Inv;
    hide OnFirstOnly;
    var e := w.dir[k];
    if data == [] {
      NeedNothing(w, k);
    } else {
      FreeCountPositive(w.s.free);
      var (op, rest) := (Put(k, i, data[0]), PutOps(k, i, data[1..]));
      assert PutOps(k, i, data)[0] == op && PutOps(k, i, data)[1..] == rest;
      NeedOne(w, k, i, data);
      if Enabled(w, op) {
        PutWrote(w, k, i, data[0]);
        PutCost(w, k, i, data[0]);
        PutsEnabled(Step(w, op), k, i, data[1..]);
        if data[1..] == [] { assert rest == []; }
      }
    }
  }

  lemma NeedNothing(w: World, k: nat)
    requires WorldInv(w) && LiveAt(w.dir, k)
    ensures Need(w.dir[k], 0) == 0
  {
  }

  lemma NeedOne(w: World, k: nat, i: nat, data: seq<byte>)
    requires WorldInv(w) && Writes(w, k, i) && data != []
    ensures Need(w.dir[k], |data|) >= 0
    ensures !Enabled(w, Put(k, i, data[0])) ==> !HasFree(w.s.free) && Need(w.dir[k], |data|) >= 1
  {
  }

  lemma FirstOnlyAfterPut(s: Store, s': Store, e: Entry, e': Entry)
    requires Live(e) && Live(e') && s'.b1 == Slot1AfterPut(s, Last(e), Last(e'))
    requires e'.pages == e.pages || e'.pages == e.pages + [Last(e')]
    requires forall i :: 0 <= i < |e'.pages| ==> e'.pages[i] < PAGES
    requires OnFirstOnly(s, e)
    ensures OnFirstOnly(s', e')
  {
  }

  lemma PutWrote(w: World, k: nat, i: nat, c: byte)
    requires WorldInv(w) && Enabled(w, Put(k, i, c))
    ensures var w' := Step(w, Put(k, i, c));
            Wrote(w, w', k, i) && !w'.dir[k].saved && w'.s.b0.bnum == Last(w'.dir[k])
  {
    var w' := Step(w, Put(k, i, c));
    PutStep(w, k, i, c);
    PutIs(w, k, i, c);
    hide Inv;
    hide Step;
    if OnFirstOnly(w.s, w.dir[k]) { FirstOnlyAfterPut(w.s, w'.s, w.dir[k], w'.dir[k]); }
    hide OnFirstOnly;
  }

  lemma PutCost(w: World, k: nat, i: nat, c: byte)
    requires WorldInv(w) && Enabled(w, Put(k, i, c))
    ensures var w' := Step(w, Put(k, i, c));
            && FreeCount(w'.s.free) == FreeCount(w.s.free) - (if Fill(w.dir[k]) == TAIL then 1 else 0)
            && |w'.dir[k].pages| == |w.dir[k].pages| + (if Fill(w.dir[k]) == TAIL then 1 else 0)
            && |w'.dir[k].data| == |w.dir[k].data| + 1
  {
    PutKeeps(w.s, w.dir, k, w.hs[i].h, c);
    InvEntry(w.s, w.dir, k);
    if Fill(w.dir[k]) == TAIL {
      FreeCountUpdate(w.s.free, StashStore.Put(w.s, w.hs[i].h, c).1.last);
    }
  }

  lemma ConsConcat(a: seq<Op>, b: seq<Op>)
    requires a != []
    ensures (a + b)[0] == a[0] && (a + b)[1..] == a[1..] + b
  {
  }

  lemma {:induction false} RunConcat(w: World, a: seq<Op>, b: seq<Op>)
    requires WorldInv(w) && AllEnabled(w, a)
    ensures WorldInv(Run(w, a))
    ensures AllEnabled(w, a + b) <==> AllEnabled(Run(w, a), b)
    ensures AllEnabled(w, a + b) ==> Run(w, a + b) == Run(Run(w, a), b)
    decreases |a|
  {
    hide WorldInv;
    hide Enabled;
    hide Step;
    if a == [] {
      assert a + b == b;
    } else {
      StepKeeps(w, a[0]);
      ConsConcat(a, b);
      var w1 := Step(w, a[0]);
      RunConcat(w1, a[1..], b);
      assert Run(w, a) == Run(w1, a[1..]);
      assert AllEnabled(w, a + b) <==> AllEnabled(w1, a[1..] + b);
    }
  }

  lemma {:induction false} EnabledPrefix(w: World, a: seq<Op>, b: seq<Op>)
    requires WorldInv(w) && AllEnabled(w, a + b)
    ensures AllEnabled(w, a)
    decreases |a|
  {
    hide WorldInv;
    hide Enabled;
    hide Step;
    if a != [] {
      StepKeeps(w, a[0]);
      ConsConcat(a, b);
      EnabledPrefix(Step(w, a[0]), a[1..], b);
    }
  }

  lemma RunOne(w: World, op: Op)
    requires WorldInv(w)
    ensures AllEnabled(w, [op]) <==> Enabled(w, op)
    ensures AllEnabled(w, [op]) ==> Run(w, [op]) == Step(w, op)
  {
    assert [op][1..] == [];
  }

  /** `create`, then `data` byte by byte, then `save`. */
  function WriteOps(k: nat, i: nat, data: seq<byte>): seq<Op> { [Create] + PutOps(k, i, data) + [Save(k, i)] }

  lemma CreateCost(w: World)
    requires WorldInv(w) && Enabled(w, Create)
    ensures var (w', k, i) := (Step(w, Create), |w.dir|, |w.hs|);
            && WorldInv(w') && |w'.dir| == k + 1 && |w'.hs| == i + 1 && Writes(w', k, i)
            && w'.dir[k] == Entry([StashStore.Create(w.s).1.curr], [], true) && Reader(w'.hs[i].h, w'.dir[k], 0)
            && OnFirstOnly(w'.s, w'.dir[k]) && FreeCount(w'.s.free) == FreeCount(w.s.free) - 1
  {
    CreateStep(w);
    CreateKeeps(w.s, w.dir);
    FreeCountUpdate(w.s.free, StashStore.Create(w.s).1.curr);
  }

  /** A stash that is written from its creation on, before its `save`. */
  ghost predicate Written(w: World, k: nat, i: nat, data: seq<byte>) {
    && WorldInv(w) && |w.dir| == k + 1 && |w.hs| == i + 1 && Writes(w, k, i)
    && w.dir[k].data == data && OnFirstOnly(w.s, w.dir[k])
    && Reader(w.hs[i].h, w.dir[k], 0) && (data != [] ==> w.s.b0.bnum == Last(w.dir[k]) && !w.dir[k].saved)
  }

  lemma CreateThenPuts(w: World, data: seq<byte>)
    requires WorldInv(w)
    ensures var ops := [Create] + PutOps(|w.dir|, |w.hs|, data);
            && (AllEnabled(w, ops) <==> FreeCount(w.s.free) >= 1 + (|data| + HEADER) / 63)
            && (AllEnabled(w, ops) ==> Written(Run(w, ops), |w.dir|, |w.hs|, data)
                                       && Run(w, ops).dir[|w.dir|].pages[0] == StashStore.Create(w.s).1.curr)
  {
    hide Step;
    hide StashStore.Create;
    hide Inv;
    hide OnFirstOnly;
    var (k, i) := (|w.dir|, |w.hs|);
    var rest := PutOps(k, i, data);
    var ops := [Create] + rest;
    assert ops[0] == Create && ops[1..] == rest;
    FreeCountPositive(w.s.free);
    if Enabled(w, Create) {
      CreateCost(w);
      var w1 := Step(w, Create);
      PutsEnabled(w1, k, i, data);
      if AllEnabled(w1, rest) {
        RunTheorem(w1, rest, k);
        PutsToPuts(k, i, data);
        ReaderAgain(w1, Run(w1, rest), k, i);
      }
    }
  }

  /** The start of a stash stays where it is while the stash is written. */
  lemma ReaderAgain(w: World, w': World, k: nat, i: nat)
    requires WorldInv(w) && Writes(w, k, i) && Wrote(w, w', k, i) && Reader(w.hs[i].h, w.dir[k], 0)
    ensures Reader(w'.hs[i].h, w'.dir[k], 0)
  {
  }

  lemma {:induction false} PutsToPuts(k: nat, i: nat, data: seq<byte>)
    ensures PutsTo(PutOps(k, i, data), k) == data
  {
    if data != [] {
      var ops := PutOps(k, i, data);
      assert ops[0] == Put(k, i, data[0]) && ops[1..] == PutOps(k, i, data[1..]);
      PutsToPuts(k, i, data[1..]);
    }
  }

  /** `save` with slot 1 not on a later page of the stash: slot 1 then holds no page of it. */
  lemma SaveWritten(w: World, k: nat, i: nat, data: seq<byte>)
    requires Written(w, k, i, data)
    ensures var w' := Step(w, Save(k, i));
            && WorldInv(w') && |w'.dir| == k + 1 && |w'.hs| == i + 1 && At(w', k, i, 0)
            && w'.dir[k] == w.dir[k].(saved := true) && Size(w'.s, w'.hs[i].h) == |data|
            && w'.s.b0.bnum == w.dir[k].pages[0] && w'.s.free == w.s.free
  {
    SaveStep(w, k, i);
    SaveKeeps(w.s, w.dir, k, w.hs[i].h);
    SaveEffect(w.s, w.hs[i].h);
    var w' := Step(w, Save(k, i));
    SizeIsLength(w'.s, w'.dir, k, w'.hs[i].h);
  }

  /** The round trip: `data` of any length can be written exactly when one page plus one for every
      63 bytes (header included) is free, and then it reads back unchanged, followed by NULs. */
  lemma RoundTrip(w: World, data: seq<byte>, n: nat)
    requires WorldInv(w)
    ensures AllEnabled(w, WriteOps(|w.dir|, |w.hs|, data)) <==> FreeCount(w.s.free) >= 1 + (|data| + HEADER) / 63
    ensures AllEnabled(w, WriteOps(|w.dir|, |w.hs|, data)) ==>
              var (w', k, i) := (Run(w, WriteOps(|w.dir|, |w.hs|, data)), |w.dir|, |w.hs|);
              && WorldInv(w') && Writes(w', k, i) && w'.dir[k].saved && w'.dir[k].data == data
              && Size(w'.s, w'.hs[i].h) == |data|
              && (OpenKeeps(w'.s, w'.dir, k);
                  var (s, h) := StashStore.Open(w'.s, w'.dir[k].pages[0]);
                  GetMany(s, w'.dir, k, h, n).2 == Rest(data, 0, n))
  {
    hide Step;
    hide Inv;
    var (k, i) := (|w.dir|, |w.hs|);
    var ops := [Create] + PutOps(k, i, data);
    CreateThenPuts(w, data);
    if AllEnabled(w, WriteOps(k, i, data)) { EnabledPrefix(w, ops, [Save(k, i)]); }
    if AllEnabled(w, ops) {
      var w1 := Run(w, ops);
      RunConcat(w, ops, [Save(k, i)]);
      RunOne(w1, Save(k, i));
      SaveWritten(w1, k, i, data);
      var w' := Step(w1, Save(k, i));
      OpenKeeps(w'.s, w'.dir, k);
      var (s, h) := StashStore.Open(w'.s, w'.dir[k].pages[0]);
      GetManyReads(s, w'.dir, k, h, 0, n);
    }
  }

  function GetOps(k: nat, i: nat, n: nat): seq<Op> {
    if n == 0 then [] else [Get(k, i)] + GetOps(k, i, n - 1)
  }

  /** Any number of reads go through, and move slot 1 and the object only. */
  lemma {:induction false} GetsEnabled(w: World, k: nat, i: nat, n: nat)
    requires WorldInv(w) && IsFor(w, k, i) && Knows(w.dir, k, w.hs[i].h)
    ensures Untouched(GetOps(k, i, n), k) && GetCount(GetOps(k, i, n), i) == n
    ensures AllEnabled(w, GetOps(k, i, n))
    ensures var w' := Run(w, GetOps(k, i, n)); w'.dir == w.dir && w'.s == w.s.(b1 := w'.s.b1)
    decreases n
  {
    hide Inv;
    if n > 0 {
      var (op, rest) := (Get(k, i), GetOps(k, i, n - 1));
      assert GetOps(k, i, n)[0] == op && GetOps(k, i, n)[1..] == rest;
      StepKeeps(w, op);
      GetSafe(w.s, w.dir, k, w.hs[i].h);
      GetsEnabled(Step(w, op), k, i, n - 1);
    }
  }
}
