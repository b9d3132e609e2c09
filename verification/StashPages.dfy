/** Page accounting: free pages and chain pages always add up to the 55 that `initMap(56)` frees. */
module StashPages {
  import opened StashStore
  import opened StashWorld

  function TotalPages(dir: seq<Entry>): nat {
    if dir == [] then 0 else TotalPages(dir[..|dir| - 1]) + |dir[|dir| - 1].pages|
  }

  function FreeSet(m: seq<bool>): (r: set<int>)
    ensures forall p :: p in r <==> 0 <= p < |m| && m[p]
    ensures |r| == FreeCount(m)
  {
    if m == [] then {}
    else
      var n := |m| - 1;
      FreeSet(m[..n]) + (if m[n] then {n} else {})
  }

  /** All pages of all chains. */
  function ChainPages(dir: seq<Entry>): set<int> {
    if dir == [] then {} else ChainPages(dir[..|dir| - 1]) + Elems(dir[|dir| - 1].pages)
  }

  lemma OwnedSnoc(pre: seq<Entry>, e: Entry, p: int)
    ensures Owned(pre + [e], p) <==> Owned(pre, p) || p in e.pages
  {
    var dir := pre + [e];
    if Owned(pre, p) {
      var k :| 0 <= k < |pre| && p in pre[k].pages;
      assert p in dir[k].pages;
    } else if p in e.pages {
      assert p in dir[|pre|].pages;
    }
  }

  lemma {:induction false} ChainPagesOwned(dir: seq<Entry>, p: int)
    ensures p in ChainPages(dir) <==> Owned(dir, p)
  {
    if dir != [] {
      var n := |dir| - 1;
      ChainPagesOwned(dir[..n], p);
      OwnedSnoc(dir[..n], dir[n], p);
      assert dir == dir[..n] + [dir[n]];
    }
  }

  lemma DisjointPrefix(pre: seq<Entry>, e: Entry)
    requires Disjoint(pre + [e])
    ensures Disjoint(pre)
    ensures forall p :: p in ChainPages(pre) ==> p !in e.pages
  {
    var dir := pre + [e];
    assert forall k :: 0 <= k < |pre| ==> dir[k] == pre[k];
    forall p | p in ChainPages(pre) ensures p !in e.pages {
      ChainPagesOwned(pre, p);
      var k :| 0 <= k < |pre| && p in pre[k].pages;
      assert p in dir[k].pages && dir[|pre|] == e;
    }
  }

  lemma {:induction false} ChainPagesSize(dir: seq<Entry>)
    requires Disjoint(dir) && forall k :: 0 <= k < |dir| && Live(dir[k]) ==> Shape(dir[k])
    ensures |ChainPages(dir)| == TotalPages(dir)
  {
    if dir != [] {
      var n := |dir| - 1;
      assert dir == dir[..n] + [dir[n]];
      DisjointPrefix(dir[..n], dir[n]);
      ChainPagesSize(dir[..n]);
      var (a, b) := (ChainPages(dir[..n]), Elems(dir[n].pages));
      assert |a + b| == |a| + |b|;
      assert |b| == |dir[n].pages|;
    }
  }

  lemma DisjointSize(a: set<int>, b: set<int>, c: set<int>)
    requires forall p :: p in c <==> p in a || p in b
    requires forall p :: p in a ==> p !in b
    ensures |a| + |b| == |c|
  {
    var both := a + b;
    forall p ensures p in c <==> p in both {}
    assert c == both;
    assert |both| == |a| + |b| - |a * b|;
    forall p | p in a * b ensures false {}
    assert a * b == {};
  }

  lemma FreeAndChained(free: Bitmap, dir: seq<Entry>)
    requires forall p :: 0 <= p < 256 ==> (free[p] <==> 1 <= p < PAGES && !Owned(dir, p))
    requires forall p :: Owned(dir, p) ==> 1 <= p < PAGES
    ensures FreeCount(free) + |ChainPages(dir)| == 55
  {
    hide Owned;
    hide ChainPages;
    hide FreeSet;
    hide PageRange;
    var (a, b, c) := (FreeSet(free), ChainPages(dir), PageRange(PAGES));
    forall p: int ensures p in b <==> Owned(dir, p) {
      ChainPagesOwned(dir, p);
    }
    DisjointSize(a, b, c);
  }

  /** No page is lost or handed out twice: free pages and chain pages always add up to 55. */
  lemma PagesConserved(s: Store, dir: seq<Entry>)
    requires Inv(s, dir)
    ensures FreeCount(s.free) + TotalPages(dir) == 55
    ensures !s.free[0] && !Owned(dir, 0)
  {
    OwnedInRange(dir);
    ChainPagesSize(dir);
    FreeAndChained(s.free, dir);
  }

  lemma OwnedInRange(dir: seq<Entry>)
    requires forall k :: 0 <= k < |dir| && Live(dir[k]) ==> Shape(dir[k])
    ensures forall p :: Owned(dir, p) ==> 1 <= p < PAGES
  {
    forall p | Owned(dir, p) ensures 1 <= p < PAGES {
      var k :| 0 <= k < |dir| && p in dir[k].pages;
      assert Live(dir[k]);
    }
  }

  lemma FreeCountUpdate(m: seq<bool>, p: nat)
    requires p < |m| && m[p]
    ensures FreeCount(m[p := false]) == FreeCount(m) - 1
  {
    var (a, b) := (FreeSet(m[p := false]), FreeSet(m));
    forall q | q in a ensures q in b - {p} {}
    forall q | q in b - {p} ensures q in a { assert m[p := false][q]; }
    assert a == b - {p};
  }

  lemma FreeCountPositive(m: Bitmap)
    ensures FreeCount(m) > 0 <==> HasFree(m)
  {
    var a := FreeSet(m);
    if HasFree(m) {
      var p :| 0 <= p < 256 && m[p];
      assert p in a;
    } else {
      forall p | p in a ensures false {}
    }
  }
}
