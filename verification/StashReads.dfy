/** Reading: any number of calls of `get` through one handle, on a stash saved or still being written. */
module StashReads {
  import opened Bytes
  import opened StashStore
  import opened StashWorld

  /** A handle that knows the last page of a stash in use; it may stand anywhere. */
  predicate Knows(dir: seq<Entry>, k: nat, h: Handle) {
    k < |dir| && Live(dir[k]) && h.last == Last(dir[k]) && h.offs < 63
  }

  /** The fill level that slot 1 shows of a last page stays below its `tail` byte. */
  lemma TailInSlot1(s: Store, dir: seq<Entry>, k: nat)
    requires Inv(s, dir) && k < |dir| && Live(dir[k]) && s.b1.bnum == Last(dir[k])
    ensures Shape(dir[k]) && s.b1.bytes[TAIL] <= Fill(dir[k])
  {
    assert s.b1.bnum in dir[k].pages && Chain(s, dir[k]);
  }

  /** `get` through such a handle reads inside its page and keeps the invariant, wherever it stands. */
  lemma GetSafe(s: Store, dir: seq<Entry>, k: nat, h: Handle)
    requires Inv(s, dir) && Knows(dir, k, h)
    ensures var (s', h', _) := Get(s, h);
            Inv(s', dir) && s' == s.(b1 := s'.b1) && Knows(dir, k, h') && h'.count == h.count && h'.first == h.first
    ensures Slot1Fresh(Get(s, h).0) || Get(s, h).0 == s
  {
    hide Inv;
    Load1Keeps(s, dir, h.curr);
    if h.curr == h.last { TailInSlot1(Load1(s, h.curr), dir, k); }
  }

  /** `n` calls of `get`: the store, the handle and the bytes returned. */
  ghost function GetMany(s: Store, dir: seq<Entry>, k: nat, h: Handle, n: nat): (Store, Handle, seq<byte>)
    requires Inv(s, dir) && Knows(dir, k, h)
    decreases n
  {
    if n == 0 then (s, h, [])
    else
      GetSafe(s, dir, k, h);
      var (s1, h1, b) := Get(s, h);
      var r := GetMany(s1, dir, k, h1, n - 1);
      (r.0, r.1, [b] + r.2)
  }

  /** What `n` calls of `get` return from position `j`: the data, then NULs. */
  function Rest(data: seq<byte>, j: nat, n: nat): seq<byte>
    requires j <= |data|
  {
    seq(n, i requires 0 <= i => if j + i < |data| then data[j + i] else NUL)
  }

  lemma RestCons(data: seq<byte>, j: nat, n: nat)
    requires j <= |data| && n > 0
    ensures Rest(data, j, n) == if j < |data| then [data[j]] + Rest(data, j + 1, n - 1) else [NUL] + Rest(data, j, n - 1)
  {
  }

  function Min(a: int, b: int): int { if a < b then a else b }

  /** What `n` calls of `get` come to for a reader of stash `e` that has read `j` bytes. */
  predicate ReadsOn(s: Store, r: (Store, Handle, seq<byte>), e: Entry, j: nat, n: nat)
    requires j <= |e.data|
  {
    r.2 == Rest(e.data, j, n) && Reader(r.1, e, Min(j + n, |e.data|)) && r.0 == s.(b1 := r.0.b1)
  }

  lemma ReadsOnCons(s: Store, s1: Store, r: (Store, Handle, seq<byte>), b: byte, e: Entry, j: nat, n: nat)
    requires j <= |e.data| && n > 0 && s1 == s.(b1 := s1.b1)
    requires if j < |e.data| then b == e.data[j] && ReadsOn(s1, r, e, j + 1, n - 1)
             else b == NUL && ReadsOn(s1, r, e, j, n - 1)
    ensures ReadsOn(s, (r.0, r.1, [b] + r.2), e, j, n)
  {
    hide Reader;
    RestCons(e.data, j, n);
  }

  /** From a page of which slot 1 holds no old copy, `n` gets return the data in order across all pages,
      then NULs, and the handle stands behind the last byte returned. */
  lemma {:induction false} GetManyReads(s: Store, dir: seq<Entry>, k: nat, h: Handle, j: nat, n: nat)
    requires Inv(s, dir) && k < |dir| && Live(dir[k]) && Reader(h, dir[k], j)
    requires j == |dir[k].data| || Current(s, h.curr)
    ensures Inv(GetMany(s, dir, k, h, n).0, dir) && ReadsOn(s, GetMany(s, dir, k, h, n), dir[k], j, n)
    decreases n
  {
    hide Inv;
    hide Get;
    hide Slot1Fresh;
    if n > 0 {
      GetKeeps(s, dir, k, h, j);
      var (s1, h1, b) := Get(s, h);
      hide ReadsOn;
      GetManyReads(s1, dir, k, h1, if j < |dir[k].data| then j + 1 else j, n - 1);
      ReadsOnCons(s, s1, GetMany(s1, dir, k, h1, n - 1), b, dir[k], j, n);
    } else {
      assert Rest(dir[k].data, j, n) == [];
    }
  }

  /** The unread bytes on the page of a reader that has read `j` bytes. */
  function Left(e: Entry, j: nat): int {
    if (j + HEADER) / 63 == |e.pages| - 1 then |e.data| - j else 63 - (j + HEADER) % 63
  }

  /** With an old copy of a full page in slot 1 the handle ends up on page 0, on the last page it stops at
      the old fill level. */
  lemma {:induction false} StaleRead(s: Store, dir: seq<Entry>, k: nat, h: Handle, n: nat)
    requires Inv(s, dir) && Knows(dir, k, h) && s.b1.bnum == h.curr && s.b1.bytes[NEXT] == 0
    requires h.curr != h.last ==> n == 63 - h.offs
    ensures var r := GetMany(s, dir, k, h, n);
            if h.curr != h.last then r.1.curr == 0
            else r.1.curr == h.curr && (r.1.offs <= h.offs || r.1.offs <= s.b1.bytes[TAIL])
    decreases n
  {
    hide Inv;
    if n > 0 {
      GetSafe(s, dir, k, h);
      var (s1, h1, _) := Get(s, h);
      assert s1 == s;
      if h.curr == h.last || h.offs < 62 {
        StaleRead(s1, dir, k, h1, n - 1);
      } else {
        assert GetMany(s, dir, k, h, 1).1 == h1;
      }
    }
  }

  lemma LeftInRange(h: Handle, e: Entry, j: nat)
    requires Reader(h, e, j)
    ensures 0 <= Left(e, j) && j + Left(e, j) <= |e.data|
    ensures h.curr == h.last ==> j + Left(e, j) == |e.data| && Fill(e) == (|e.data| + HEADER) % 63
    ensures h.curr != h.last ==> j < |e.data| && Left(e, j) == 63 - h.offs
    ensures h.curr == h.last && j < |e.data| ==> h.offs < Fill(e)
  {
  }

  /** Where a reader of an old copy ends up, the next unread page is not. */
  lemma Astray(e: Entry, h: Handle, h': Handle, j: nat, t: byte)
    requires Reader(h, e, j) && j < |e.data| && (h.curr == h.last ==> t < Fill(e))
    requires if h.curr != h.last then h'.curr == 0 else h'.offs <= h.offs || h'.offs <= t
    ensures Left(e, j) >= 0 && !Reader(h', e, j + Left(e, j))
  {
    LeftInRange(h, e, j);
  }

  lemma StaleAstray(s: Store, dir: seq<Entry>, k: nat, h: Handle, j: nat)
    requires Inv(s, dir) && k < |dir| && Live(dir[k]) && Reader(h, dir[k], j)
    requires j < |dir[k].data| && !Current(s, h.curr) && 0 <= Left(dir[k], j)
    ensures !Reader(GetMany(s, dir, k, h, Left(dir[k], j)).1, dir[k], j + Left(dir[k], j))
  {
    hide Inv;
    hide GetMany;
    var e := dir[k];
    assert h.curr in e.pages;
    OldCopyOf(s, dir, k, h.curr);
    LeftInRange(h, e, j);
    StaleRead(s, dir, k, h, Left(e, j));
    Astray(e, h, GetMany(s, dir, k, h, Left(e, j)).1, j, s.b1.bytes[TAIL]);
  }

  /** Reading to the end of a page of a stash, saved or not, returns its bytes and leads to the next page
      exactly if slot 1 held no old copy of it, or nothing was left. */
  lemma PageReadIff(s: Store, dir: seq<Entry>, k: nat, h: Handle, j: nat)
    requires Inv(s, dir) && k < |dir| && Live(dir[k]) && Reader(h, dir[k], j)
    ensures var (e, m) := (dir[k], Left(dir[k], j));
            && 0 <= m && j + m <= |e.data|
            && var r := GetMany(s, dir, k, h, m);
               (Reader(r.1, e, j + m) && r.2 == e.data[j..j + m]) <==> (j == |e.data| || Current(s, h.curr))
  {
    hide Inv;
    hide Slot1Fresh;
    hide Left;
    hide Fill;
    hide Shape;
    hide Reader;
    hide OldCopy;
    hide GetMany;
    var (e, m) := (dir[k], Left(dir[k], j));
    LeftInRange(h, e, j);
    if j == |e.data| || Current(s, h.curr) {
      GetManyReads(s, dir, k, h, j, m);
      assert Rest(e.data, j, m) == e.data[j..j + m];
    } else {
      StaleAstray(s, dir, k, h, j);
    }
  }
}
