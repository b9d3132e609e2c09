/** Every stash at once: which chain of pages each one owns and which bytes it holds.
    `Inv` is what all operations keep; the registry is ghost bookkeeping, the program keeps none. */
module StashWorld {
  import opened Bytes
  import opened StashStore

  /** One stash: its pages in order, the bytes put so far, and whether the header on the page is
      up to date (false from the first `put` until the next `save`). Released stashes own no page. */
  datatype Entry = Entry(pages: seq<byte>, data: seq<byte>, saved: bool)

  const GONE := Entry([], [], true)

  predicate Live(e: Entry) { e.pages != [] }

  /** How far the last page is filled; its first free offset. */
  function Fill(e: Entry): int { |e.data| + HEADER - 63 * (|e.pages| - 1) }

  predicate Shape(e: Entry) {
    && Live(e)
    && (forall i :: 0 <= i < |e.pages| ==> 1 <= e.pages[i] < PAGES)
    && (forall i, j :: 0 <= i < j < |e.pages| ==> e.pages[i] != e.pages[j])
    && 0 <= Fill(e) <= TAIL
  }

  function Last(e: Entry): byte
    requires Live(e)
  {
    e.pages[|e.pages| - 1]
  }

  /** The logical pages of `e` form its chain and hold its data: full pages hold 63 bytes,
      their `tail` byte among them, the first page three fewer. */
  ghost predicate Chain(s: Store, e: Entry)
    requires Shape(e)
  {
    && (forall i :: 0 <= i < |e.pages| - 1 ==> Logical(s, e.pages[i])[NEXT] == e.pages[i + 1])
    && Logical(s, Last(e))[NEXT] == 0
    && Logical(s, Last(e))[TAIL] == Fill(e)
    && (forall j :: 0 <= j < |e.data| ==> Logical(s, e.pages[(j + HEADER) / 63])[(j + HEADER) % 63] == e.data[j])
    && (e.saved ==> Logical(s, e.pages[0])[..HEADER] == [|e.pages| - 1, e.pages[0], Last(e)])
  }

  ghost predicate Owned(dir: seq<Entry>, p: int) {
    exists k :: 0 <= k < |dir| && p in dir[k].pages
  }

  ghost predicate Disjoint(dir: seq<Entry>) {
    forall k, l, p :: 0 <= k < |dir| && 0 <= l < |dir| && k != l && p in dir[k].pages ==> p !in dir[l].pages
  }

  /** Slot 1 holds a page of a stash as it was when it was the last one, before the latest puts to it:
      a fill level since exceeded, no link, and the right bytes below that level. */
  predicate OldCopy(s: Store, e: Entry)
    requires Shape(e) && s.b1.bnum in e.pages
  {
    var t := s.b1.bytes[TAIL];
    && t <= TAIL && (s.b1.bnum == Last(e) ==> t < Fill(e)) && s.b1.bytes[NEXT] == 0
    && forall o :: 0 <= o < t ==> s.b1.bytes[o] == Logical(s, s.b1.bnum)[o]
  }

  /** What slot 1 may hold of a stash: current contents, or an old copy; of a saved stash not of its
      first page, which `save` takes out of slot 1. */
  predicate Slot1Known(s: Store, e: Entry)
    requires Shape(e) && s.b1.bnum in e.pages
  {
    Slot1Fresh(s) || (OldCopy(s, e) && (e.saved ==> s.b1.bnum != e.pages[0]))
  }

  /** Slot 1 holds no old copy of a page of `e`. */
  predicate FreshFor(s: Store, e: Entry) { s.b1.bnum in e.pages ==> Slot1Fresh(s) }

  /** Slot 1 holds no old copy of page `p`. */
  predicate Current(s: Store, p: byte) { s.b1.bnum == p ==> Slot1Fresh(s) }

  /** Among the pages of stashes, slot 1 may be stale in that way only. (Page 0 is never read through
      slot 1 and may be stale there too.) */
  ghost predicate Slot1Ok(s: Store, dir: seq<Entry>) {
    forall k :: 0 <= k < |dir| && s.b1.bnum in dir[k].pages ==> Shape(dir[k]) && Slot1Known(s, dir[k])
  }

  /** Of a saved stash slot 0 holds the first page, if any. */
  ghost predicate Slot0Ok(s: Store, dir: seq<Entry>) {
    forall k :: 0 <= k < |dir| && dir[k].saved && s.b0.bnum in dir[k].pages ==> s.b0.bnum == dir[k].pages[0]
  }

  ghost predicate Inv(s: Store, dir: seq<Entry>) {
    && s.b0.bnum < PAGES
    && (forall k :: 0 <= k < |dir| && Live(dir[k]) ==> Shape(dir[k]) && Chain(s, dir[k]))
    && Disjoint(dir)
    && (forall p :: 0 <= p < 256 ==> (s.free[p] <==> 1 <= p < PAGES && !Owned(dir, p)))
    && (s.b0.bnum == 0 || Owned(dir, s.b0.bnum))
    && Slot0Ok(s, dir) && Slot1Ok(s, dir)
  }

  /** A handle whose cached header is current, as its creator's is. */
  predicate Writer(h: Handle, e: Entry) {
    Live(e) && h.count == |e.pages| - 1 && h.first == e.pages[0] && h.last == Last(e)
  }

  /** A handle that has read `j` bytes. */
  predicate Reader(h: Handle, e: Entry, j: nat) {
    && Shape(e) && j <= |e.data|
    && h.last == Last(e)
    && h.curr == e.pages[(j + HEADER) / 63] && h.offs == (j + HEADER) % 63
  }

  /** The pages 1 .. n - 1 as a set. */
  function PageRange(n: nat): (r: set<int>)
    ensures forall p :: p in r <==> 1 <= p < n
    ensures |r| == if n == 0 then 0 else n - 1
  {
    if n <= 1 then {} else PageRange(n - 1) + {n - 1}
  }

  function Elems(pages: seq<byte>): (r: set<int>)
    ensures forall p :: p in r <==> p in pages
    ensures (forall i, j :: 0 <= i < j < |pages| ==> pages[i] != pages[j]) ==> |r| == |pages|
  {
    if pages == [] then {}
    else
      var n := |pages| - 1;
      assert pages == pages[..n] + [pages[n]];
      Elems(pages[..n]) + {pages[n]}
  }

  lemma SubsetSize(a: set<int>, b: set<int>)
    requires a <= b
    ensures |a| <= |b|
  {
    assert b == a + (b - a);
  }

  /** A chain cannot be longer than the pages there are, so its one-byte counter never wraps. */
  lemma AtMost55Pages(e: Entry)
    requires Shape(e)
    ensures |e.pages| <= 55
  {
    SubsetSize(Elems(e.pages), PageRange(PAGES));
  }

  // ---- framing

  lemma ChainFrame(s: Store, s': Store, e: Entry)
    requires Shape(e) && Chain(s, e)
    requires forall i :: 0 <= i < |e.pages| ==> Logical(s', e.pages[i]) == Logical(s, e.pages[i])
    ensures Chain(s', e)
  {
  }

  /** Only slot contents moved: no page, no bitmap bit changed. */
  lemma SlotsMoved(s: Store, s': Store, dir: seq<Entry>)
    requires Inv(s, dir) && s'.free == s.free
    requires s'.b0.bnum < PAGES
    requires forall p :: 1 <= p < PAGES ==> Logical(s', p) == Logical(s, p)
    requires s'.b0.bnum == 0 || Owned(dir, s'.b0.bnum)
    requires Slot0Ok(s', dir) && Slot1Ok(s', dir)
    ensures Inv(s', dir)
  {
    forall k | 0 <= k < |dir| && Live(dir[k]) ensures Shape(dir[k]) && Chain(s', dir[k]) {
      ChainFrame(s, s', dir[k]);
    }
  }

  /** No other stash owns a page of `e`, which stash `k` took from its own and from the free pages. */
  lemma OthersApart(s: Store, dir: seq<Entry>, k: nat, e: Entry)
    requires Inv(s, dir) && k < |dir|
    requires forall p :: p in e.pages ==> p in dir[k].pages || s.free[p]
    ensures forall l, p :: 0 <= l < |dir| && l != k && p in dir[l].pages ==> p !in e.pages && 1 <= p < PAGES
  {
    hide Chain;
    hide Slot0Ok;
    hide Slot1Ok;
    forall l, p | 0 <= l < |dir| && l != k && p in dir[l].pages ensures p !in e.pages && 1 <= p < PAGES {
      assert Owned(dir, p) && Live(dir[l]);
    }
  }

  lemma OwnedReplaced(dir: seq<Entry>, k: nat, e: Entry, p: int)
    requires k < |dir| && forall q :: q in dir[k].pages ==> q in e.pages
    ensures Owned(dir[k := e], p) <==> Owned(dir, p) || p in e.pages
  {
    var dir' := dir[k := e];
    if p in e.pages {
      assert p in dir'[k].pages;
    } else if Owned(dir, p) {
      var l :| 0 <= l < |dir| && p in dir[l].pages;
      assert p in dir'[l].pages;
    }
  }

  /** Stash `k` became `e`, taking over some free pages; every other page is unchanged. */
  lemma EntryReplaced(s: Store, s': Store, dir: seq<Entry>, k: nat, e: Entry)
    requires Inv(s, dir) && k < |dir| && Shape(e) && Chain(s', e)
    requires s'.b0.bnum < PAGES
    requires forall p :: 1 <= p < PAGES && p !in e.pages ==> Logical(s', p) == Logical(s, p)
    requires forall p :: p in dir[k].pages ==> p in e.pages
    requires forall p :: p in e.pages ==> p in dir[k].pages || s.free[p]
    requires forall p :: 0 <= p < 256 ==> s'.free[p] == (s.free[p] && p !in e.pages)
    requires s'.b0.bnum == 0 || s'.b0.bnum in e.pages
    requires Slot1Ok(s', dir[k := e]) && (e.saved && s'.b0.bnum in e.pages ==> s'.b0.bnum == e.pages[0])
    ensures Inv(s', dir[k := e])
  {
    hide Chain;
    hide Logical;
    hide Slot1Ok;
    hide Owned;
    var dir' := dir[k := e];
    OthersApart(s, dir, k, e);
    forall l | 0 <= l < |dir'| && Live(dir'[l]) ensures Shape(dir'[l]) && Chain(s', dir'[l]) {
      if l != k { ChainFrame(s, s', dir[l]); }
    }
    forall p | 0 <= p < 256 ensures s'.free[p] <==> 1 <= p < PAGES && !Owned(dir', p) {
      OwnedReplaced(dir, k, e, p);
    }
    OwnedReplaced(dir, k, e, s'.b0.bnum);
  }

  lemma AppendGone(s: Store, dir: seq<Entry>)
    requires Inv(s, dir)
    ensures Inv(s, dir + [GONE])
  {
    var dir' := dir + [GONE];
    forall p ensures Owned(dir', p) == Owned(dir, p) {
      if Owned(dir, p) {
        var k :| 0 <= k < |dir| && p in dir[k].pages;
        assert p in dir'[k].pages;
      }
    }
  }

  // ---- each operation keeps the invariant and does what it says to its own stash

  lemma AllocBlockFacts(s: Store)
    requires HasFree(s.free)
    ensures var (s', p) := AllocBlock(s); s.free[p] && s' == s.(free := s.free[p := false])
  {
  }

  /** What `create` does to a store whose slot 0 does not hold the page it takes. */
  lemma CreateEffect(s: Store, p: byte)
    requires HasFree(s.free) && p == LowestFree(s.free, 0) < PAGES && s.b0.bnum < PAGES && s.b0.bnum != p
    ensures var (s', h) := Create(s);
            && s.free[p] && s'.free == s.free[p := false] && h == Handle(0, p, p, p, HEADER)
            && s'.b0.bnum == p && s'.b1 == s'.b0
            && Logical(s', p)[..HEADER] == [0, p, p] && Logical(s', p)[TAIL] == HEADER && Logical(s', p)[NEXT] == 0
            && forall q :: 0 <= q < PAGES && q != p ==> Logical(s', q) == Logical(s, q)
  {
    AllocBlockFacts(s);
  }

  lemma SlotsOnNew(s: Store, dir: seq<Entry>, e: Entry)
    requires s.b1.bnum < PAGES && Slot1Fresh(s) && Shape(e) && s.b1.bnum in e.pages
    requires forall l :: 0 <= l < |dir| ==> s.b1.bnum !in dir[l].pages
    ensures Slot1Ok(s, (dir + [GONE])[|dir| := e])
  {
    var dir' := (dir + [GONE])[|dir| := e];
    forall l | 0 <= l < |dir'| && s.b1.bnum in dir'[l].pages ensures dir'[l] == e {}
  }

  lemma FreeIsApart(s: Store, dir: seq<Entry>, p: byte)
    requires Inv(s, dir) && s.free[p]
    ensures 1 <= p < PAGES && s.b0.bnum != p && forall l :: 0 <= l < |dir| ==> p !in dir[l].pages
  {
    assert !Owned(dir, p);
  }

  lemma NewChain(s: Store, p: byte)
    requires 1 <= p < PAGES && Logical(s, p)[..HEADER] == [0, p, p]
    requires Logical(s, p)[TAIL] == HEADER && Logical(s, p)[NEXT] == 0
    ensures Shape(Entry([p], [], true)) && Chain(s, Entry([p], [], true))
  {
  }

  /** The invariant once the new stash is on its page. */
  lemma CreatedInv(s: Store, s': Store, dir: seq<Entry>, p: byte, e: Entry)
    requires Inv(s, dir) && s.free[p] && s'.free == s.free[p := false] && s'.b0.bnum == p && s'.b1 == s'.b0
    requires e == Entry([p], [], true) && Shape(e) && Chain(s', e)
    requires forall q :: 0 <= q < PAGES && q != p ==> Logical(s', q) == Logical(s, q)
    ensures Inv(s', dir + [e])
  {
    FreeIsApart(s, dir, p);
    AppendGone(s, dir);
    SlotsOnNew(s', dir, e);
    hide Inv;
    hide Chain;
    hide Slot1Ok;
    EntryReplaced(s, s', dir + [GONE], |dir|, e);
    assert (dir + [GONE])[|dir| := e] == dir + [e];
  }

  /** `create` starts an empty stash on a free page and returns a handle at its start. */
  lemma CreateKeeps(s: Store, dir: seq<Entry>)
    requires Inv(s, dir) && HasFree(s.free)
    ensures var (s', h) := Create(s);
            var e := Entry([h.curr], [], true);
            && s.free[h.curr] && s'.free == s.free[h.curr := false]
            && Inv(s', dir + [e]) && Writer(h, e) && Reader(h, e, 0)
            && s'.b1.bnum == h.curr && Slot1Fresh(s')
            && forall p :: 0 <= p < PAGES && p != h.curr ==> Logical(s', p) == Logical(s, p)
  {
    hide Create;
    hide Chain;
    hide Logical;
    var p := LowestFree(s.free, 0);
    FreeIsApart(s, dir, p);
    CreateEffect(s, p);
    hide Inv;
    var (s', h) := Create(s);
    NewChain(s', p);
    CreatedInv(s, s', dir, p, Entry([p], [], true));
  }

  /** Moving slot 1, for a handle on whatever page: it then holds current contents, unless it was on that
      page already with an old copy. */
  lemma Load1Keeps(s: Store, dir: seq<Entry>, blk: byte)
    requires Inv(s, dir)
    ensures var s' := Load1(s, blk);
            && Inv(s', dir) && s' == s.(b1 := s'.b1) && s'.b1.bnum == blk
            && (Slot1Fresh(s') <==> Current(s, blk))
            && (blk == s.b1.bnum ==> s' == s)
  {
    var s' := Load1(s, blk);
    if blk != s.b1.bnum { SlotsMoved(s, s', dir); }
  }

  /** Slot 1 never holds an old copy of the first page of a saved stash. */
  lemma FirstIsCurrent(s: Store, dir: seq<Entry>, k: nat)
    requires Inv(s, dir) && k < |dir| && Live(dir[k]) && dir[k].saved
    ensures Current(s, dir[k].pages[0])
  {
    var e := dir[k];
    assert s.b1.bnum == e.pages[0] ==> s.b1.bnum in e.pages;
  }

  /** `open` on a saved stash yields a handle that knows the whole header, and leaves current contents of
      the first page in slot 1, whatever the slots held. */
  lemma OpenKeeps(s: Store, dir: seq<Entry>, k: nat)
    requires Inv(s, dir) && k < |dir| && Live(dir[k]) && dir[k].saved
    ensures var (s', h) := Open(s, dir[k].pages[0]);
            && Inv(s', dir) && s' == s.(b1 := s'.b1) && s'.b1.bnum == h.first && Slot1Fresh(s')
            && Writer(h, dir[k]) && Reader(h, dir[k], 0)
  {
    var e := dir[k];
    var blk := e.pages[0];
    FirstIsCurrent(s, dir, k);
    Load1Keeps(s, dir, blk);
    var (s', h) := Open(s, blk);
    assert Logical(s, blk)[..HEADER] == [|e.pages| - 1, e.pages[0], Last(e)];
    assert s'.b1.bytes[..HEADER] == [h.count, h.first, h.last];
  }

  /** What `put` needs: a free page when the byte fills the last page. */
  predicate CanPut(s: Store, e: Entry) { Live(e) && (Fill(e) == TAIL ==> HasFree(s.free)) }

  function AfterPut(e: Entry, c: byte, page: byte): Entry {
    Entry(if Fill(e) < TAIL then e.pages else e.pages + [page], e.data + [c], false)
  }

  /** Slot 1 after a `put` that took the last page from `last` to `last'`: forgotten if slot 0 moved to
      the page it held, untouched otherwise. */
  function Slot1AfterPut(s: Store, last: byte, last': byte): Block {
    if (s.b1.bnum == last && s.b0.bnum != last) || (s.b1.bnum == last' && last' != last)
    then s.b1.(bnum := NO_PAGE) else s.b1
  }

  /** `put` appends one byte, taking the lowest free page when the byte fills the last one. It leaves an
      old copy in slot 1 exactly when both slots held the last page, or an old copy of another page of
      the stash was there before. */
  lemma PutKeeps(s: Store, dir: seq<Entry>, k: nat, h: Handle, c: byte)
    requires Inv(s, dir) && k < |dir| && CanPut(s, dir[k]) && Writer(h, dir[k])
    ensures TailByte(s, h) == Fill(dir[k])
    ensures var (s', h') := Put(s, h, c);
            var e := AfterPut(dir[k], c, h'.last);
            && Inv(s', dir[k := e]) && Writer(h', e)
            && h'.curr == h.curr && h'.offs == h.offs
            && s'.free == (if Fill(dir[k]) < TAIL then s.free else s.free[h'.last := false])
            && (Fill(dir[k]) == TAIL ==> s.free[h'.last])
            && s'.b0.bnum == h'.last && s'.b1 == Slot1AfterPut(s, h.last, h'.last)
            && (FreshFor(s', e) <==> if s.b1.bnum == h.last then s.b0.bnum != h.last else FreshFor(s, dir[k]))
            && forall p :: 0 <= p < PAGES && p !in e.pages ==> Logical(s', p) == Logical(s, p)
  {
    Load0KeepsPages(s, h.last);
    if Fill(dir[k]) < TAIL {
      PutInPage(s, dir, k, h, c);
    } else {
      assert !s.free[h.last] by { assert Owned(dir, h.last); }
      PutCrossing(s, h, c);
      var (s', h') := Put(s, h, c);
      PutNewPage(s, dir, k, h, c, s', h');
    }
  }

  /** A byte put at the fill level of stash `e`, on the last of its pages, makes it `e'`. */
  ghost predicate ByteAdded(s: Store, s': Store, e: Entry, e': Entry)
    requires Shape(e) && Shape(e')
  {
    && !e'.saved && |e'.data| == |e.data| + 1 && (e'.pages == e.pages || e'.pages == e.pages + [Last(e')])
    && s'.b1 == Slot1AfterPut(s, Last(e), Last(e'))
    && (forall i :: 0 <= i < |e.pages| - 1 ==> Logical(s', e.pages[i]) == Logical(s, e.pages[i]))
    && (forall o :: 0 <= o < Fill(e) ==> Logical(s', Last(e))[o] == Logical(s, Last(e))[o])
  }

  /** What slot 1 holds of the stash that was just written. */
  lemma SlotAfterPut(s: Store, s': Store, e: Entry, e': Entry)
    requires Shape(e) && Shape(e') && Chain(s, e) && Chain(s', e') && ByteAdded(s, s', e, e')
    requires s.b1.bnum in e.pages ==> Slot1Known(s, e)
    ensures s'.b1.bnum in e'.pages ==> Slot1Known(s', e')
    ensures FreshFor(s', e') <==> if s.b1.bnum == Last(e) then s.b0.bnum != Last(e) else FreshFor(s, e)
  {
    var last := Logical(s', Last(e));
    assert last[NEXT] != 0 || last[TAIL] == Fill(e) + 1;
    if s.b1.bnum == Last(e) {
      assert s.b1.bytes[NEXT] == 0 && s.b1.bytes[TAIL] <= Fill(e);
      if s.b0.bnum == Last(e) { assert s'.b1.bytes != last; }
    }
  }

  /** Writing stash `k` leaves slot 1 as good as `Slot1Ok` asks for. */
  lemma Slot1KeptByPut(s: Store, s': Store, dir: seq<Entry>, k: nat, e: Entry)
    requires Slot1Ok(s, dir) && k < |dir| && Live(dir[k]) && Live(e) && !e.saved
    requires s'.b1 == s.b1 || s'.b1.bnum == NO_PAGE
    requires forall q :: 0 <= q < PAGES && q !in e.pages ==> Logical(s', q) == Logical(s, q)
    requires forall l, p :: 0 <= l < |dir| && p in dir[l].pages ==> p < PAGES
    requires s'.b1.bnum in e.pages ==> Shape(e) && Slot1Known(s', e)
    requires forall l, p :: 0 <= l < |dir| && l != k && p in dir[l].pages ==> p !in e.pages
    ensures Slot1Ok(s', dir[k := e])
  {
    var dir' := dir[k := e];
    forall l | 0 <= l < |dir'| && s'.b1.bnum in dir'[l].pages
      ensures Shape(dir'[l]) && Slot1Known(s', dir'[l])
    {
      if l != k { assert s'.b1.bnum in dir[l].pages && s'.b1.bnum !in e.pages; }
    }
  }

  lemma PutInPage(s: Store, dir: seq<Entry>, k: nat, h: Handle, c: byte)
    requires Inv(s, dir) && k < |dir| && CanPut(s, dir[k]) && Writer(h, dir[k])
    requires Fill(dir[k]) < TAIL && TailByte(s, h) == Fill(dir[k])
    ensures var (s', h') := Put(s, h, c);
            var e := AfterPut(dir[k], c, h'.last);
            && h' == h && Inv(s', dir[k := e]) && s'.free == s.free
            && s'.b0.bnum == h.last && s'.b1 == Slot1AfterPut(s, h.last, h.last)
            && (FreshFor(s', e) <==> if s.b1.bnum == h.last then s.b0.bnum != h.last else FreshFor(s, dir[k]))
            && forall p :: 0 <= p < PAGES && p !in e.pages ==> Logical(s', p) == Logical(s, p)
  {
    Load0KeepsPages(s, h.last);
    PutInside(s, Put(s, h, c).0, dir, k, c);
  }

  lemma PutInside(s: Store, s': Store, dir: seq<Entry>, k: nat, c: byte)
    requires Inv(s, dir) && k < |dir| && CanPut(s, dir[k]) && Fill(dir[k]) < TAIL
    requires s'.free == s.free && s'.b0.bnum == Last(dir[k])
    requires Shape(dir[k]) && s'.b1 == Slot1AfterPut(s, Last(dir[k]), Last(dir[k]))
    requires Logical(s', Last(dir[k])) == Logical(s, Last(dir[k]))[Fill(dir[k]) := c][TAIL := Fill(dir[k]) + 1]
    requires forall p :: 0 <= p < PAGES && p != Last(dir[k]) ==> Logical(s', p) == Logical(s, p)
    ensures var (e, e') := (dir[k], Entry(dir[k].pages, dir[k].data + [c], false));
            && Inv(s', dir[k := e'])
            && (FreshFor(s', e') <==> if s.b1.bnum == Last(e) then s.b0.bnum != Last(e) else FreshFor(s, e))
  {
    var (e, e') := (dir[k], Entry(dir[k].pages, dir[k].data + [c], false));
    assert Shape(e');
    assert Chain(s', e') by {
      forall j | 0 <= j < |e'.data|
        ensures Logical(s', e.pages[(j + HEADER) / 63])[(j + HEADER) % 63] == e'.data[j]
      {
        if j < |e.data| { assert Logical(s, e.pages[(j + HEADER) / 63])[(j + HEADER) % 63] == e.data[j]; }
      }
    }
    SlotAfterPut(s, s', e, e');
    Slot1KeptByPut(s, s', dir, k, e');
    EntryReplaced(s, s', dir, k, e');
  }

  /** What a page-crossing `put` does to the store: the full page gets the byte at its own `tail`
      offset and a link, the new page gets an empty fill level. */
  ghost predicate Crossed(s: Store, h: Handle, c: byte, s': Store, h': Handle)
    requires h.last < PAGES && h'.last < PAGES
  {
    var p := h'.last;
    && s.free[p] && s'.free == s.free[p := false]
    && s'.b0.bnum == p && s'.b1 == Slot1AfterPut(s, h.last, p)
    && Logical(s', h.last) == Logical(s, h.last)[TAIL := c][NEXT := p]
    && Logical(s', p)[TAIL] == 0 && Logical(s', p)[NEXT] == 0
    && (forall q :: 0 <= q < PAGES && q != p && q != h.last ==> Logical(s', q) == Logical(s, q))
    && h' == h.(last := p, count := (h.count + 1) % 256)
  }

  lemma PutCrossing(s: Store, h: Handle, c: byte)
    requires s.b0.bnum < PAGES && h.last < PAGES && TailByte(s, h) == TAIL && HasFree(s.free)
    requires !s.free[s.b0.bnum] && !s.free[h.last] && forall p :: PAGES <= p < 256 ==> !s.free[p]
    ensures var (s', h') := Put(s, h, c);
            h'.last < PAGES && Crossed(s, h, c, s', h')
  {
    var s1 := Load0(s, h.last);
    Load0KeepsPages(s, h.last);
    AllocBlockFacts(s1);
  }

  /** One byte of the data of a chain whose last page got the byte at `tail` and a link. */
  lemma GrownByte(s: Store, s': Store, e: Entry, c: byte, p: byte, j: nat)
    requires Shape(e) && Chain(s, e) && Fill(e) == TAIL && p !in e.pages && j <= |e.data|
    requires Logical(s', Last(e)) == Logical(s, Last(e))[TAIL := c][NEXT := p]
    requires forall q :: 0 <= q < PAGES && q != p && q != Last(e) ==> Logical(s', q) == Logical(s, q)
    ensures (j + HEADER) / 63 < |e.pages|
    ensures Logical(s', e.pages[(j + HEADER) / 63])[(j + HEADER) % 63] == (e.data + [c])[j]
  {
    var (i, o) := ((j + HEADER) / 63, (j + HEADER) % 63);
    if j < |e.data| {
      assert Logical(s, e.pages[i])[o] == e.data[j];
      assert i == |e.pages| - 1 ==> o < TAIL;
    } else {
      assert i == |e.pages| - 1 && o == TAIL;
    }
  }

  lemma GrownChain(s: Store, s': Store, e: Entry, e': Entry, c: byte, p: byte)
    requires Shape(e) && Chain(s, e) && Fill(e) == TAIL && 1 <= p < PAGES && p !in e.pages
    requires e' == Entry(e.pages + [p], e.data + [c], false)
    requires Logical(s', Last(e)) == Logical(s, Last(e))[TAIL := c][NEXT := p]
    requires Logical(s', p)[TAIL] == 0 && Logical(s', p)[NEXT] == 0
    requires forall q :: 0 <= q < PAGES && q != p && q != Last(e) ==> Logical(s', q) == Logical(s, q)
    ensures Shape(e') && Chain(s', e')
  {
    hide Logical;
    forall j | 0 <= j < |e'.data|
      ensures (j + HEADER) / 63 < |e.pages| && Logical(s', e'.pages[(j + HEADER) / 63])[(j + HEADER) % 63] == e'.data[j]
    {
      GrownByte(s, s', e, c, p, j);
    }
  }

  lemma NewPageTaken(s: Store, s': Store, dir: seq<Entry>, k: nat, e: Entry, p: byte)
    requires Inv(s, dir) && k < |dir| && Live(dir[k]) && s.free[p] && e.pages == dir[k].pages + [p]
    requires !e.saved && Shape(e) && Chain(s', e) && ByteAdded(s, s', dir[k], e)
    requires s'.b0.bnum == p
    requires forall q :: 0 <= q < PAGES && q !in e.pages ==> Logical(s', q) == Logical(s, q)
    requires s'.free == s.free[p := false]
    ensures Inv(s', dir[k := e])
    ensures var d := dir[k];
            FreshFor(s', e) <==> if s.b1.bnum == Last(d) then s.b0.bnum != Last(d) else FreshFor(s, d)
  {
    forall l, q | 0 <= l < |dir| && q in dir[l].pages ensures q != p && q < PAGES {
      assert Owned(dir, q) && Live(dir[l]);
    }
    SlotAfterPut(s, s', dir[k], e);
    Slot1KeptByPut(s, s', dir, k, e);
    EntryReplaced(s, s', dir, k, e);
  }

  lemma PutNewPage(s: Store, dir: seq<Entry>, k: nat, h: Handle, c: byte, s': Store, h': Handle)
    requires Inv(s, dir) && k < |dir| && CanPut(s, dir[k]) && Writer(h, dir[k])
    requires Fill(dir[k]) == TAIL && h'.last < PAGES && Crossed(s, h, c, s', h')
    ensures var e := AfterPut(dir[k], c, h'.last);
            && Inv(s', dir[k := e]) && Writer(h', e)
            && (FreshFor(s', e) <==> if s.b1.bnum == h.last then s.b0.bnum != h.last else FreshFor(s, dir[k]))
            && forall p :: 0 <= p < PAGES && p !in e.pages ==> Logical(s', p) == Logical(s, p)
  {
    hide Slot1Known;
    hide FreshFor;
    var e := dir[k];
    var e' := AfterPut(e, c, h'.last);
    forall q | q in e.pages ensures q != h'.last { assert Owned(dir, q); }
    GrownChain(s, s', e, e', c, h'.last);
    AtMost55Pages(e');
    NewPageTaken(s, s', dir, k, e', h'.last);
  }

  lemma SavedChain(s: Store, s': Store, e: Entry)
    requires Shape(e) && Chain(s, e)
    requires Logical(s', e.pages[0])[..HEADER] == [|e.pages| - 1, e.pages[0], Last(e)]
    requires forall o :: HEADER <= o < 64 ==> Logical(s', e.pages[0])[o] == Logical(s, e.pages[0])[o]
    requires forall p :: 0 <= p < PAGES && p != e.pages[0] ==> Logical(s', p) == Logical(s, p)
    ensures Chain(s', e.(saved := true))
  {
    forall j | 0 <= j < |e.data| ensures Logical(s', e.pages[(j + HEADER) / 63])[(j + HEADER) % 63] == e.data[j] {
      assert Logical(s, e.pages[(j + HEADER) / 63])[(j + HEADER) % 63] == e.data[j];
    }
  }

  /** `save` brings the header on the first page up to date and takes that page out of slot 1. An old copy
      of any other page stays there. */
  lemma SaveKeeps(s: Store, dir: seq<Entry>, k: nat, h: Handle)
    requires Inv(s, dir) && k < |dir| && Writer(h, dir[k])
    ensures var s' := Save(s, h);
            var e := dir[k].(saved := true);
            && Inv(s', dir[k := e]) && Writer(h, e) && s'.free == s.free
            && (FreshFor(s', e) <==> s.b1.bnum == h.first || FreshFor(s, dir[k]))
            && (if s.b1.bnum == h.first then s'.b1.bnum in {0, NO_PAGE} else s'.b1 == s.b1)
            && forall p :: 0 <= p < PAGES && p != h.first ==> Logical(s', p) == Logical(s, p)
  {
    hide Chain;
    hide Logical;
    hide Save;
    hide Slot1Ok;
    var (e, e') := (dir[k], dir[k].(saved := true));
    var s' := Save(s, h);
    SaveEffect(s, h);
    SavedChain(s, s', e);
    SavedSlot1(s, s', dir, k, e');
    EntryReplaced(s, s', dir, k, e');
  }

  lemma SaveEffect(s: Store, h: Handle)
    requires s.b0.bnum < PAGES && 1 <= h.first < PAGES
    ensures var s' := Save(s, h);
            && s'.b0.bnum == h.first && s'.b1.bnum != h.first && s'.free == s.free
            && (if s.b1.bnum == h.first then s'.b1.bnum in {0, NO_PAGE} else s'.b1 == s.b1)
            && Logical(s', h.first)[..HEADER] == [h.count, h.first, h.last]
            && Logical(s', h.first)[HEADER..] == Logical(s, h.first)[HEADER..]
            && (forall o :: HEADER <= o < 64 ==> Logical(s', h.first)[o] == Logical(s, h.first)[o])
            && forall p :: 0 <= p < PAGES && p != h.first ==> Logical(s', p) == Logical(s, p)
  {
    Load0KeepsPages(s, h.first);
  }

  lemma KnownFrame(s: Store, s': Store, e: Entry, e': Entry)
    requires Shape(e) && s.b1.bnum in e.pages && Slot1Known(s, e) && s'.b1 == s.b1
    requires Logical(s', s.b1.bnum) == Logical(s, s.b1.bnum)
    requires e' == e || (e' == e.(saved := true) && s.b1.bnum != e.pages[0])
    ensures Shape(e') && Slot1Known(s', e')
  {
  }

  lemma SavedSlot1(s: Store, s': Store, dir: seq<Entry>, k: nat, e: Entry)
    requires Inv(s, dir) && k < |dir| && Live(dir[k]) && e == dir[k].(saved := true)
    requires if s.b1.bnum == e.pages[0] then s'.b1.bnum in {0, NO_PAGE} else s'.b1 == s.b1
    requires forall p :: 0 <= p < PAGES && p != e.pages[0] ==> Logical(s', p) == Logical(s, p)
    ensures Slot1Ok(s', dir[k := e])
    ensures FreshFor(s', e) <==> s.b1.bnum == e.pages[0] || FreshFor(s, dir[k])
  {
    hide Chain;
    hide Slot0Ok;
    hide Slot1Known;
    hide Logical;
    var dir' := dir[k := e];
    forall l | 0 <= l < |dir'| && s'.b1.bnum in dir'[l].pages
      ensures Shape(dir'[l]) && Slot1Known(s', dir'[l])
    {
      assert dir'[l].pages == dir[l].pages && Live(dir[l]);
      KnownFrame(s, s', dir[l], dir'[l]);
    }
  }

  lemma InvEntry(s: Store, dir: seq<Entry>, k: nat)
    requires Inv(s, dir) && k < |dir| && Live(dir[k])
    ensures Shape(dir[k]) && Chain(s, dir[k])
  {
  }

  /** The page on which a reader that has read `j` bytes stands. */
  lemma PageOf(s: Store, e: Entry, j: nat)
    requires Shape(e) && Chain(s, e) && j <= |e.data|
    ensures var (i, o) := ((j + HEADER) / 63, (j + HEADER) % 63);
            && i < |e.pages| && (j < |e.data| ==> Logical(s, e.pages[i])[o] == e.data[j])
            && (e.pages[i] == Last(e) <==> i == |e.pages| - 1)
            && (if i == |e.pages| - 1 then Logical(s, e.pages[i])[TAIL] == Fill(e) && (o < Fill(e) <==> j < |e.data|)
                else j < |e.data| && Logical(s, e.pages[i])[NEXT] == e.pages[i + 1])
  {
    if j < |e.data| { assert Logical(s, e.pages[(j + HEADER) / 63])[(j + HEADER) % 63] == e.data[j]; }
  }

  lemma OneOn(j: nat)
    ensures var (i, o) := ((j + HEADER) / 63, (j + HEADER) % 63);
            if o == 62 then (j + 1 + HEADER) / 63 == i + 1 && (j + 1 + HEADER) % 63 == 0
            else (j + 1 + HEADER) / 63 == i && (j + 1 + HEADER) % 63 == o + 1
  {
  }

  /** `get` with current contents in slot 1. */
  lemma GetFresh(s: Store, e: Entry, h: Handle, j: nat)
    requires Shape(e) && Chain(s, e) && Reader(h, e, j)
    requires Load1(s, h.curr).b1.bytes == Logical(s, h.curr)
    ensures var (_, h', b) := Get(s, h);
            if j == |e.data| then b == NUL && h' == h else b == e.data[j] && Reader(h', e, j + 1)
  {
    hide Chain;
    hide Logical;
    PageOf(s, e, j);
    OneOn(j);
  }

  /** `get` with an old copy in slot 1. */
  lemma GetStale(s: Store, e: Entry, h: Handle, j: nat)
    requires Shape(e) && Chain(s, e) && Reader(h, e, j) && s.b1.bnum == h.curr && OldCopy(s, e)
    ensures var (_, h', b) := Get(s, h);
            if j == |e.data| then b == NUL && h' == h
            else if h.offs < s.b1.bytes[TAIL] then b == e.data[j] && Reader(h', e, j + 1)
            else if h.curr == h.last then b == NUL && h' == h
            else b == s.b1.bytes[h.offs]
                 && h' == if h.offs == 62 then h.(curr := 0, offs := 0) else h.(offs := h.offs + 1)
  {
    hide Chain;
    hide Logical;
    PageOf(s, e, j);
    OneOn(j);
    assert h.offs < s.b1.bytes[TAIL] ==> s.b1.bytes[h.offs] == Logical(s, h.curr)[h.offs];
  }

  /** One `get` through a handle that knows the last page and has read `j` bytes, on a stash saved or not:
      the next byte, or NUL once all have been read. If slot 1 is on the page with an old copy, then
      below its fill level the byte is still right; from there on `get` returns NUL on the last page, and
      on a full page whatever slot 1 holds, until it leaves the page for page 0. */
  lemma GetKeeps(s: Store, dir: seq<Entry>, k: nat, h: Handle, j: nat)
    requires Inv(s, dir) && k < |dir| && Live(dir[k]) && Reader(h, dir[k], j)
    ensures var (s', h', b) := Get(s, h);
            && Inv(s', dir) && s' == s.(b1 := s'.b1) && s'.b1.bnum == h.curr
            && (Slot1Fresh(s') <==> Current(s, h.curr))
            && if j == |dir[k].data| then b == NUL && h' == h
               else if Current(s, h.curr) || h.offs < s.b1.bytes[TAIL]
               then b == dir[k].data[j] && Reader(h', dir[k], j + 1)
               else if h.curr == h.last then b == NUL && h' == h
               else b == s.b1.bytes[h.offs]
                    && h' == if h.offs == 62 then h.(curr := 0, offs := 0) else h.(offs := h.offs + 1)
  {
    hide Inv;
    hide Chain;
    InvEntry(s, dir, k);
    Load1Keeps(s, dir, h.curr);
    assert h.curr in dir[k].pages;
    if Current(s, h.curr) {
      GetFresh(s, dir[k], h, j);
    } else {
      OldCopyOf(s, dir, k, h.curr);
      GetStale(s, dir[k], h, j);
    }
  }

  lemma OldCopyOf(s: Store, dir: seq<Entry>, k: nat, p: byte)
    requires Inv(s, dir) && k < |dir| && p in dir[k].pages && !Current(s, p)
    ensures Shape(dir[k]) && s.b1.bnum == p && OldCopy(s, dir[k])
  {
    assert s.b1.bnum in dir[k].pages;
  }

  /** `size` is the number of bytes put, exactly unless slot 0 has left the last page while slot 1 holds an
      old copy of it. */
  lemma SizeIsLength(s: Store, dir: seq<Entry>, k: nat, h: Handle)
    requires Inv(s, dir) && k < |dir| && Writer(h, dir[k])
    ensures Size(s, h) == |dir[k].data| <==> s.b0.bnum == h.last || Current(s, h.last)
  {
    AtMost55Pages(dir[k]);
    assert h.last in dir[k].pages;
    assert Chain(s, dir[k]);
  }

  lemma OwnedAfterRelease(dir: seq<Entry>, k: nat, p: int)
    requires Disjoint(dir) && k < |dir|
    ensures Owned(dir[k := GONE], p) <==> Owned(dir, p) && p !in dir[k].pages
  {
    var dir' := dir[k := GONE];
    if Owned(dir, p) && p !in dir[k].pages {
      var l :| 0 <= l < |dir| && p in dir[l].pages;
      assert p in dir'[l].pages;
    }
    if Owned(dir', p) {
      var l :| 0 <= l < |dir'| && p in dir'[l].pages;
      assert p in dir[l].pages;
    }
  }

  /** `Slot1Ok` of a smaller registry, over the same pages. */
  lemma Slot1Fewer(s: Store, s': Store, dir: seq<Entry>, dir': seq<Entry>)
    requires Slot1Ok(s, dir) && |dir'| == |dir| && forall l :: 0 <= l < |dir| ==> dir'[l] == dir[l] || dir'[l] == GONE
    requires s'.b0 == s.b0 && s'.b1 == s.b1 && s'.chip == s.chip
    ensures Slot1Ok(s', dir')
  {
    forall l | 0 <= l < |dir'| && s'.b1.bnum in dir'[l].pages
      ensures Shape(dir'[l]) && Slot1Known(s', dir'[l])
    {
      assert s.b1.bnum in dir[l].pages;
    }
  }

  /** `release` frees the whole chain; it must have been written back, since `release` follows the
      links on the chip itself. */
  lemma ReleaseKeeps(s: Store, dir: seq<Entry>, k: nat)
    requires Inv(s, dir) && k < |dir| && Live(dir[k]) && s.b0.bnum !in dir[k].pages
    ensures Inv(ReleaseChain(s, dir[k].pages), dir[k := GONE])
  {
    hide Chain;
    hide Slot1Ok;
    hide Owned;
    var dir' := dir[k := GONE];
    var s' := ReleaseChain(s, dir[k].pages);
    forall l | 0 <= l < |dir'| && Live(dir'[l]) ensures Shape(dir'[l]) && Chain(s', dir'[l]) {
      ChainFrame(s, s', dir[l]);
    }
    forall p | 0 <= p < 256 ensures s'.free[p] <==> 1 <= p < PAGES && !Owned(dir', p) {
      OwnedAfterRelease(dir, k, p);
    }
    OwnedAfterRelease(dir, k, s.b0.bnum);
    Slot1Fewer(s, s', dir, dir');
  }

  /** Loading page 0 into slot 0, and then overwriting it, touches no stash. */
  lemma RecordKeeps(s: Store, dir: seq<Entry>, page: Page)
    requires Inv(s, dir)
    ensures var s1 := Load0(s, 0);
            && Inv(s1, dir) && s1.b0 == Block(Logical(s, 0), 0) && s1.free == s.free
            && (s1.b1 == s.b1 || s1.b1.bnum == NO_PAGE)
            && Inv(s1.(b0 := Block(page, 0)), dir)
            && forall p :: 0 <= p < PAGES ==> Logical(s1, p) == Logical(s, p)
  {
    var s1 := Load0(s, 0);
    Load0KeepsPages(s, 0);
    forall k | 0 <= k < |dir| && s1.b1.bnum in dir[k].pages
      ensures Shape(dir[k]) && Slot1Known(s1, dir[k])
    {
      assert Live(dir[k]);
    }
    SlotsMoved(s, s1, dir);
    var s2 := s1.(b0 := Block(page, 0));
    forall k | 0 <= k < |dir| && s2.b1.bnum in dir[k].pages
      ensures Shape(dir[k]) && Slot1Known(s2, dir[k])
    {
      assert Live(dir[k]);
    }
    SlotsMoved(s1, s2, dir);
  }

  // ---- the start of a run

  /** After `initMap(56)`: both slots claim page 0, the chip holds anything. */
  function Boot(chip: Chip): Store { Store(chip, Block(Blank(), 0), Block(Blank(), 0), InitMap()) }

  lemma BootInv(chip: Chip)
    ensures Inv(Boot(chip), [])
  {
  }
}
