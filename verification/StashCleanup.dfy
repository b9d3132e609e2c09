/** `cleanup`: every stash that the record on page 0 names is released. */
module StashCleanup {
  import opened Bytes
  import opened StashStore
  import opened StashWorld
  import opened StashText
  import opened StashObjects
  import opened StashFormat

  /** The `$H` arguments of a format, in order. */
  function Fds(f: seq<byte>, args: seq<u16>): seq<u16>
    requires WellFormed(f) && Slots(f) <= |args|
  {
    if f == [] then []
    else if f[0] != DOLLAR then Fds(f[1..], args)
    else (if f[1] == H then [args[0]] else []) + Fds(f[2..], args[1..])
  }

  ghost predicate Named(e: Entry, fds: seq<u16>) { Live(e) && e.pages[0] in fds }

  /** The registry once all stashes named in `fds` are gone. */
  ghost function Without(dir: seq<Entry>, fds: seq<u16>): seq<Entry> {
    seq(|dir|, k requires 0 <= k < |dir| => if Named(dir[k], fds) then GONE else dir[k])
  }

  /** The bitmap once their pages are back. */
  ghost function Freed(free: Bitmap, dir: seq<Entry>, fds: seq<u16>): Bitmap {
    seq(256, p requires 0 <= p < 256 =>
      free[p] || exists k :: 0 <= k < |dir| && Named(dir[k], fds) && p in dir[k].pages)
  }

  lemma FreedNone(free: Bitmap, dir: seq<Entry>)
    ensures Freed(free, dir, []) == free && Without(dir, []) == dir
  {
  }

  /** Naming stash `k` once more frees its pages, if an earlier name has not done so. */
  lemma FreedSnoc(s: Store, dir: seq<Entry>, fds: seq<u16>, k: nat)
    requires Inv(s, dir) && k < |dir| && Live(dir[k])
    ensures Freed(s.free, dir, fds + [dir[k].pages[0]])
         == ReleaseChain(s.(free := Freed(s.free, dir, fds)), dir[k].pages).free
    ensures Without(dir, fds + [dir[k].pages[0]]) == Without(dir, fds)[k := GONE]
  {
    var fds' := fds + [dir[k].pages[0]];
    forall l | 0 <= l < |dir| ensures Named(dir[l], fds') <==> Named(dir[l], fds) || l == k {
      if l != k && Live(dir[l]) { assert dir[k].pages[0] in dir[k].pages && dir[l].pages[0] in dir[l].pages; }
    }
    var (a, b) := (Freed(s.free, dir, fds), Freed(s.free, dir, fds'));
    forall p | 0 <= p < 256 ensures b[p] == (a[p] || p in dir[k].pages) {
      if p in dir[k].pages { assert Named(dir[k], fds'); }
    }
  }

  /** Releasing any list of saved stashes, even naming one twice, keeps the invariant. */
  lemma {:induction false} ReleaseAll(s: Store, dir: seq<Entry>, fds: seq<u16>)
    requires Inv(s, dir) && s.b0.bnum == 0
    requires forall i :: 0 <= i < |fds| ==> IsSaved(dir, fds[i])
    ensures Inv(s.(free := Freed(s.free, dir, fds)), Without(dir, fds))
  {
    if fds == [] {
      FreedNone(s.free, dir);
    } else {
      var n := |fds| - 1;
      var (pre, s1, dir1) := (fds[..n], s.(free := Freed(s.free, dir, fds[..n])), Without(dir, fds[..n]));
      assert forall i :: 0 <= i < n ==> pre[i] == fds[i];
      ReleaseAll(s, dir, pre);
      var k := FdIndex(dir, fds[n]);
      FreedSnoc(s, dir, pre, k);
      assert fds == pre + [dir[k].pages[0]];
      if Live(dir1[k]) {
        NotOnPage0(s1, dir1, k);
        ReleaseKeeps(s1, dir1, k);
      } else {
        GoneTwice(s, dir, pre, k);
      }
    }
  }

  lemma NotOnPage0(s: Store, dir: seq<Entry>, k: nat)
    requires Inv(s, dir) && k < |dir| && Live(dir[k])
    ensures 0 !in dir[k].pages
  {
  }

  lemma GoneTwice(s: Store, dir: seq<Entry>, fds: seq<u16>, k: nat)
    requires Inv(s, dir) && k < |dir| && Named(dir[k], fds)
    ensures ReleaseChain(s.(free := Freed(s.free, dir, fds)), dir[k].pages).free == Freed(s.free, dir, fds)
    ensures Without(dir, fds)[k := GONE] == Without(dir, fds)
  {
  }

  lemma FdsArg(m: Strings, dir: seq<Entry>, fp: int, args: seq<u16>)
    requires Parses(m, dir, fp, args) && m.flash[fp] == DOLLAR
    ensures fp + 2 < 0x1_0000 && args != [] && ArgOk(m, dir, m.flash[fp + 1], args[0])
    ensures Parses(m, dir, fp + 2, args[1..])
    ensures Slots(CStr(m.flash, fp)) == 1 + Slots(CStr(m.flash, fp + 2))
    ensures Slots(CStr(m.flash, fp)) <= |args| ==>
              Fds(CStr(m.flash, fp), args)
              == (if m.flash[fp + 1] == H then [args[0]] else []) + Fds(CStr(m.flash, fp + 2), args[1..])
  {
    ArgStep(m, dir, fp, args);
    CStrTail(m.flash, fp);
    CStrTail(m.flash, fp + 1);
    assert CStr(m.flash, fp)[2..] == CStr(m.flash, fp + 2);
  }

  lemma FdsLiteral(m: Strings, dir: seq<Entry>, fp: int, args: seq<u16>)
    requires Parses(m, dir, fp, args) && m.flash[fp] != NUL && m.flash[fp] != DOLLAR
    ensures Parses(m, dir, fp + 1, args) && Slots(CStr(m.flash, fp + 1)) == Slots(CStr(m.flash, fp))
    ensures Slots(CStr(m.flash, fp)) <= |args| ==> Fds(CStr(m.flash, fp), args) == Fds(CStr(m.flash, fp + 1), args)
  {
    LiteralStep(m, dir, fp, args);
    CStrTail(m.flash, fp);
    assert CStr(m.flash, fp)[1..] == CStr(m.flash, fp + 1);
  }

  /** `cleanup` in progress: only the bitmap differs from a store in which `dir` still holds. */
  ghost predicate Releasing(mem: StashMemory, dir: seq<Entry>, start: Store, done: seq<u16>)
    reads mem.Footprint()
  {
    && mem.Valid() && Inv(mem.View().(free := start.free), dir)
    && mem.View().chip == start.chip && mem.View().b0 == start.b0 && start.b0.bnum == 0
    && mem.View().free == Freed(start.free, dir, done)
  }

  /** `Stash stash (arg); stash.release();` */
  method ReleaseArg(mem: StashMemory, arg: byte, ghost dir: seq<Entry>, ghost start: Store, ghost done: seq<u16>)
    requires Releasing(mem, dir, start, done) && IsSaved(dir, arg)
    modifies mem.Footprint()
    ensures Releasing(mem, dir, start, done + [arg])
  {
    ghost var k := FdIndex(dir, arg);
    ghost var s := mem.View();
    OpenKeeps(s.(free := start.free), dir, k);
    var stash := new Stash(mem);
    assert mem.View() == s;
    stash.Open(arg);
    ghost var s1 := mem.View();
    assert Inv(s1.(free := start.free), dir) && stash.first == arg;
    ChainOnChip(s1.(free := start.free), dir, k);
    stash.Release(dir[k].pages);
    FreedSnoc(s1.(free := start.free), dir, done, k);
  }

  /** With page 0 in slot 0, the links of every chain are on the chip. */
  lemma ChainOnChip(s: Store, dir: seq<Entry>, k: nat)
    requires Inv(s, dir) && k < |dir| && Live(dir[k]) && s.b0.bnum == 0
    ensures forall i :: 0 <= i < |dir[k].pages| ==>
              && 0 < dir[k].pages[i] < PAGES
              && s.chip[dir[k].pages[i]][NEXT] == if i + 1 < |dir[k].pages| then dir[k].pages[i + 1] else 0
  {
    var e := dir[k];
    forall i | 0 <= i < |e.pages|
      ensures s.chip[e.pages[i]][NEXT] == if i + 1 < |e.pages| then e.pages[i + 1] else 0
    {
      assert Logical(s, e.pages[i]) == s.chip[e.pages[i]];
    }
  }

  ghost predicate RecordRest(m: Strings, dir: seq<Entry>, fp: int, args: seq<u16>, done: seq<u16>, fds: seq<u16>) {
    && Parses(m, dir, fp, args) && Slots(CStr(m.flash, fp)) <= |args|
    && done + Fds(CStr(m.flash, fp), args) == fds
  }

  lemma RestLiteral(m: Strings, dir: seq<Entry>, fp: int, args: seq<u16>, done: seq<u16>, fds: seq<u16>)
    requires RecordRest(m, dir, fp, args, done, fds) && m.flash[fp] != NUL && m.flash[fp] != DOLLAR
    ensures RecordRest(m, dir, fp + 1, args, done, fds)
  {
    FdsLiteral(m, dir, fp, args);
  }

  lemma RestArg(m: Strings, dir: seq<Entry>, fp: int, args: seq<u16>, done: seq<u16>, fds: seq<u16>)
    requires RecordRest(m, dir, fp, args, done, fds) && m.flash[fp] == DOLLAR
    ensures fp + 2 < 0x1_0000 && args != [] && ArgOk(m, dir, m.flash[fp + 1], args[0])
    ensures RecordRest(m, dir, fp + 2, args[1..], if m.flash[fp + 1] == H then done + [args[0]] else done, fds)
  {
    hide CStr;
    hide Fds;
    hide Slots;
    FdsArg(m, dir, fp, args);
    var (x, y) := (if m.flash[fp + 1] == H then [args[0]] else [], Fds(CStr(m.flash, fp + 2), args[1..]));
    assert done + (x + y) == (done + x) + y;
  }

  /** Every name in a record's `$H` slots is a saved stash. */
  lemma {:induction false} FdsSaved(m: Strings, dir: seq<Entry>, f: seq<byte>, args: seq<u16>)
    requires WellFormed(f) && Slots(f) <= |args| && ArgsOk(m, dir, f, args)
    ensures forall i :: 0 <= i < |Fds(f, args)| ==> IsSaved(dir, Fds(f, args)[i])
  {
    if f == [] {
    } else if f[0] != DOLLAR {
      FdsSaved(m, dir, f[1..], args);
    } else {
      FdsSaved(m, dir, f[2..], args[1..]);
    }
  }

  /** The names in the record on page `p`. */
  ghost function RecordFds(m: Strings, dir: seq<Entry>, p: Page): seq<u16>
    requires RecordOk(m, dir, p)
  {
    Fds(CStr(m.flash, Word(p, 1)), RecordArgs(p, Slots(CStr(m.flash, Word(p, 1)))))
  }

  /** `cleanup` releases exactly the stashes the record names, each page going back to the bitmap. */
  method Cleanup(mem: StashMemory, m: Strings, ghost dir: seq<Entry>)
    requires mem.Valid() && Inv(mem.View(), dir) && RecordOk(m, dir, Logical(mem.View(), 0))
    modifies mem.Footprint()
    ensures var fds := RecordFds(m, dir, Logical(old(mem.View()), 0));
            && RecordLoaded(mem, Without(dir, fds))
            && mem.View().free == Freed(old(mem.View().free), dir, fds)
    ensures forall p :: 0 <= p < PAGES ==> Logical(mem.View(), p) == Logical(old(mem.View()), p)
  {
    ghost var p := Logical(mem.View(), 0);
    LoadRecord(mem, dir);
    ghost var start := mem.View();
    assert start.b0.bytes == p;
    CleanupLoop(mem, m, dir);
    ghost var f := CStr(m.flash, Word(p, 1));
    FdsSaved(m, dir, f, RecordArgs(p, Slots(f)));
    ghost var s := mem.View().(free := start.free);
    ReleaseAll(s, dir, RecordFds(m, dir, p));
    assert s.(free := Freed(start.free, dir, RecordFds(m, dir, p))) == mem.View();
  }

  method CleanupLoop(mem: StashMemory, m: Strings, ghost dir: seq<Entry>)
    requires RecordLoaded(mem, dir) && RecordOk(m, dir, mem.bytes0[..])
    modifies mem.Footprint()
    ensures Releasing(mem, dir, old(mem.View()), RecordFds(m, dir, old(mem.bytes0[..])))
  {
    hide Inv;
    hide Pages;
    hide CStr;
    hide Freed;
    hide Fds;
    hide Slots;
    hide WellFormed;
    hide ArgsOk;
    hide Logical;
    ghost var start := mem.View();
    ghost var p: Page := mem.bytes0[..];
    ghost var fds := RecordFds(m, dir, p);
    ghost var args := RecordArgs(p, Slots(CStr(m.flash, Word(p, 1))));
    FreedNone(start.free, dir);
    assert mem.View().(free := start.free) == start;
    var fp: int := mem.bytes0[2] as int + 256 * (mem.bytes0[3] as int);
    var a := 0;
    ghost var done: seq<u16> := [];
    assert args[0..] == args && [] + fds == fds;
    while m.flash[fp] != NUL
      invariant Releasing(mem, dir, start, done)
      invariant a <= |args| && RecordRest(m, dir, fp, args[a..], done, fds)
      decreases 0x1_0000 - fp
    {
      if m.flash[fp] == DOLLAR {
        RestArg(m, dir, fp, args[a..], done, fds);
        assert args[a..][1..] == args[a + 1..];
        assert mem.bytes0[..] == p;
        var arg := mem.bytes0[2 * (2 + a)] as int + 256 * (mem.bytes0[2 * (2 + a) + 1] as int);
        if m.flash[fp + 1] == H {
          ReleaseArg(mem, arg, dir, start, done);
          done := done + [arg];
        }
        fp := fp + 2;
        a := a + 1;
      } else {
        RestLiteral(m, dir, fp, args[a..], done, fds);
        fp := fp + 1;
      }
    }
    AtFormatEnd(m, dir, fp, args[a..], done, fds);
  }

  lemma AtFormatEnd(m: Strings, dir: seq<Entry>, fp: int, args: seq<u16>, done: seq<u16>, fds: seq<u16>)
    requires RecordRest(m, dir, fp, args, done, fds) && m.flash[fp] == NUL
    ensures done == fds
  {
  }
}
