/** The stash library in its own form: static arrays changed in place, and `Stash` objects over them.
    Every method is tied to its value in `StashStore`, about which the other modules prove things. */
module StashObjects {
  import opened Bytes
  import opened StashStore

  const SCRATCH_START: int := 0x1200
  const SCRATCH_LIMIT: int := 0x2000

  /** The 3584 bytes of scratch memory as 56 pages. */
  function Pages(bytes: seq<byte>): Chip
    requires |bytes| == 3584
  {
    seq(PAGES, i requires 0 <= i < PAGES => bytes[64 * i..64 * i + 64])
  }

  lemma PageWritten(was: seq<byte>, now: seq<byte>, page: nat, data: Page)
    requires |was| == |now| == 3584 && page < PAGES
    requires forall k :: 0 <= k < 3584 ==>
               now[k] == if 64 * page <= k < 64 * page + 64 then data[k - 64 * page] else was[k]
    ensures Pages(now) == Pages(was)[page := data]
  {
    forall i | 0 <= i < PAGES ensures Pages(now)[i] == Pages(was)[page := data][i] {
      var (a, b) := (now[64 * i..64 * i + 64], was[64 * i..64 * i + 64]);
      forall o | 0 <= o < 64 ensures a[o] == if i == page then data[o] else b[o] {
        assert a[o] == now[64 * i + o] && b[o] == was[64 * i + o];
      }
    }
  }

  lemma LowestIs(m: Bitmap, p: byte)
    requires m[p] && forall q :: 0 <= q < p ==> !m[q]
    ensures HasFree(m) && LowestFree(m, 0) == p
  {
  }

  lemma NoneFree(m: Bitmap)
    requires forall q :: 0 <= q < 256 ==> !m[q]
    ensures !HasFree(m) && LowestFree(m, 0) == 0
  {
  }

  /** The statics of class Stash: `bufs[0]`, `bufs[1]` and `map` (one entry per bit of the bitmap),
      and the chip memory behind them. */
  class StashMemory {
    const chip: array<byte>
    const bytes0: array<byte>
    const bytes1: array<byte>
    const freeMap: array<bool>
    var bnum0: byte
    var bnum1: byte

    ghost predicate Valid() {
      && chip.Length == 3584 && bytes0.Length == 64 && bytes1.Length == 64 && freeMap.Length == 256
      && chip != bytes0 && chip != bytes1 && bytes0 != bytes1
    }

    ghost function Footprint(): set<object> { {this, chip, bytes0, bytes1, freeMap} }

    ghost function View(): Store
      requires Valid()
      reads Footprint()
    {
      Store(Pages(chip[..]), Block(bytes0[..], bnum0), Block(bytes1[..], bnum1), freeMap[..])
    }

    constructor (chipRam: array<byte>)
      requires chipRam.Length == 3584
      ensures Valid() && chip == chipRam && fresh(Footprint() - {chipRam})
      ensures View() == Store(Pages(old(chipRam[..])), Block(Blank(), 0), Block(Blank(), 0), seq(256, _ => false))
    {
      chip := chipRam;
      bytes0 := new byte[64](_ => 0);
      bytes1 := new byte[64](_ => 0);
      freeMap := new bool[256](_ => false);
      bnum0, bnum1 := 0, 0;
    }

    method CopyOut(page: byte, data: array<byte>)
      requires Valid() && data.Length == 64 && data != chip
      modifies chip
      ensures Pages(chip[..]) == StashStore.CopyOut(old(Pages(chip[..])), page, data[..])
    {
      var destPos := SCRATCH_START + page * 64;
      if destPos < SCRATCH_START || destPos > SCRATCH_LIMIT - 64 {
        return;
      }
      for i := 0 to 64
        invariant forall k :: 0 <= k < 3584 ==>
                    chip[k] == if 64 * page <= k < 64 * page + i then data[k - 64 * page] else old(chip[k])
      {
        chip[destPos - SCRATCH_START + i] := data[i];
      }
      PageWritten(old(chip[..]), chip[..], page, data[..]);
    }

    method CopyIn(page: byte, data: array<byte>)
      requires Valid() && data.Length == 64 && data != chip
      modifies data
      ensures data[..] == StashStore.CopyIn(Pages(chip[..]), page, old(data[..]))
    {
      var destPos := SCRATCH_START + page * 64;
      if destPos < SCRATCH_START || destPos > SCRATCH_LIMIT - 64 {
        return;
      }
      for i := 0 to 64
        invariant forall k :: 0 <= k < i ==> data[k] == chip[64 * page + k]
      {
        data[i] := chip[destPos - SCRATCH_START + i];
      }
    }

    method PeekIn(page: byte, off: byte) returns (b: byte)
      requires Valid()
      ensures b == StashStore.PeekIn(Pages(chip[..]), page, off)
    {
      b := 0;
      var destPos := SCRATCH_START + page * 64 + off;
      if SCRATCH_START <= destPos < SCRATCH_LIMIT {
        b := chip[destPos - SCRATCH_START];
      }
    }

    method AllocBlock() returns (p: byte)
      requires Valid()
      modifies freeMap
      ensures (View(), p) == StashStore.AllocBlock(old(View()))
    {
      hide Pages;
      hide LowestFree;
      ghost var m := freeMap[..];
      for i := 0 to 32
        invariant freeMap[..] == m
        invariant forall q :: 0 <= q < 8 * i ==> !m[q]
      {
        if exists q :: 8 * i <= q < 8 * i + 8 && freeMap[q] {
          for j := 0 to 8
            invariant freeMap[..] == m
            invariant forall q :: 0 <= q < 8 * i + j ==> !m[q]
          {
            if freeMap[8 * i + j] {
              LowestIs(m, 8 * i + j);
              freeMap[8 * i + j] := false;
              return 8 * i + j;
            }
          }
        }
      }
      NoneFree(m);
      return 0;
    }

    method FreeBlock(block: byte)
      requires Valid()
      modifies freeMap
      ensures View() == old(View()).(free := StashStore.FreeBlock(old(View()).free, block))
    {
      freeMap[block] := true;
    }

    method FetchByte(blk: byte, off: byte) returns (b: byte)
      requires Valid() && off < 64
      ensures b == StashStore.FetchByte(View(), blk, off)
    {
      if blk == bnum0 {
        b := bytes0[off];
      } else if blk == bnum1 {
        b := bytes1[off];
      } else {
        b := PeekIn(blk, off);
      }
    }

    /** `initMap(56)` on a cleared bitmap frees exactly the pages 1 to 55. From 0 the counter wraps, and
        all pages but page 0 are freed. */
    method InitMap(last: byte)
      requires Valid()
      modifies freeMap
      ensures forall p :: 0 <= p < 256 ==> freeMap[p] == (1 <= p < (if last == 0 then 256 else last) || old(freeMap[p]))
      ensures last == PAGES && old(freeMap[..]) == seq(256, _ => false) ==> freeMap[..] == StashStore.InitMap()
    {
      var n: byte := (last as int - 1) % 256;
      ghost var top := n;
      while n > 0
        invariant 0 <= n <= top
        invariant forall p :: 0 <= p < 256 ==> freeMap[p] == (n < p <= top || old(freeMap[p]))
      {
        freeMap[n] := true;
        n := n - 1;
      }
    }

    method FreeCount() returns (count: byte)
      requires Valid()
      ensures count == StashStore.FreeCount(freeMap[..]) % 256
    {
      count := 0;
      for i := 0 to 256
        invariant count == StashStore.FreeCount(freeMap[..i]) % 256
      {
        assert freeMap[..i + 1][..i] == freeMap[..i];
        if freeMap[i] {
          count := (count + 1) % 256;
        }
      }
      assert freeMap[..256] == freeMap[..];
    }

    /** `bufs[0].bytes[off] = b`. */
    method Poke(off: byte, b: byte)
      requires Valid() && off < 64
      modifies bytes0
      ensures View() == old(View()).(b0 := Block(old(View()).b0.bytes[off := b], bnum0))
    {
      hide Pages;
      bytes0[off] := b;
    }

    method Load(idx: byte, blk: byte)
      requires Valid() && idx < 2
      modifies this, chip, bytes0, bytes1
      ensures View() == if idx == 0 then Load0(old(View()), blk) else Load1(old(View()), blk)
    {
      if idx == 0 {
        if blk != bnum0 {
          CopyOut(bnum0, bytes0);
          if blk == bnum1 {
            bnum1 := NO_PAGE;
          }
          bnum0 := blk;
          CopyIn(bnum0, bytes0);
        }
      } else if blk != bnum1 {
        if blk == bnum0 {
          forall i | 0 <= i < 64 { bytes1[i] := bytes0[i]; }
          bnum1 := bnum0;
          assert bytes1[..] == bytes0[..] == old(bytes0[..]) && chip[..] == old(chip[..]);
          assert freeMap[..] == old(freeMap[..]);
          return;
        }
        bnum1 := blk;
        CopyIn(bnum1, bytes1);
      }
    }
  }

  /** A `Stash`: the cached header and the read position. */
  class Stash {
    const mem: StashMemory
    var count: byte
    var first: byte
    var last: byte
    var curr: byte
    var offs: byte

    ghost function Value(): Handle
      reads this
    {
      Handle(count, first, last, curr, offs)
    }

    ghost predicate Valid() { mem.Valid() && this as object !in mem.Footprint() }

    /** `Stash()`: a handle on no page. */
    constructor (m: StashMemory)
      requires m.Valid()
      ensures Valid() && mem == m && first == 0 && curr == 0 && fresh(this)
    {
      mem := m;
      count, first, last, curr, offs := 0, 0, 0, 0, 0;
    }

    method Open(blk: byte)
      requires Valid()
      modifies this, mem.Footprint()
      ensures (mem.View(), Value()) == StashStore.Open(old(mem.View()), blk)
    {
      curr := blk;
      offs := HEADER;
      mem.Load(1, curr);
      count, first, last := mem.bytes1[0], mem.bytes1[1], mem.bytes1[2];
    }

    method Create() returns (fd: byte)
      requires Valid()
      modifies this, mem.Footprint()
      ensures (mem.View(), Value()) == StashStore.Create(old(mem.View())) && fd == curr
    {
      hide Pages;
      var blk := mem.AllocBlock();
      mem.Load(0, blk);
      mem.Poke(0, 0);
      mem.Poke(1, blk);
      mem.Poke(2, blk);
      mem.Poke(TAIL, HEADER);
      mem.Poke(NEXT, 0);
      Open(blk);
      fd := curr;
    }

    method Save()
      requires Valid()
      modifies mem.Footprint()
      ensures mem.View() == StashStore.Save(old(mem.View()), Value())
    {
      hide Pages;
      mem.Load(0, first);
      mem.Poke(0, count);
      mem.Poke(1, first);
      mem.Poke(2, last);
      if mem.bnum1 == first {
        mem.Load(1, 0);
      }
    }

    /** `release` follows the links on the chip; `pages` is the chain they form. */
    method Release(ghost pages: seq<byte>)
      requires Valid() && pages != [] && first == pages[0]
      requires forall i :: 0 <= i < |pages| ==> 0 < pages[i] < PAGES
      requires forall i :: 0 <= i < |pages| ==>
                 Pages(mem.chip[..])[pages[i]][NEXT] == if i + 1 < |pages| then pages[i + 1] else 0
      modifies this`first, mem.freeMap
      ensures mem.View() == ReleaseChain(old(mem.View()), pages) && first == 0
    {
      ghost var i := 0;
      ghost var chip := Pages(mem.chip[..]);
      while first > 0
        invariant Pages(mem.chip[..]) == chip
        invariant 0 <= i <= |pages| && first == if i < |pages| then pages[i] else 0
        invariant mem.View() == old(mem.View()).(free := mem.freeMap[..])
        invariant forall p :: 0 <= p < 256 ==> mem.freeMap[p] == (old(mem.freeMap[p]) || p in pages[..i])
        decreases |pages| - i
      {
        mem.FreeBlock(first);
        assert forall p :: 0 <= p < 256 ==> mem.freeMap[p] == mem.View().free[p];
        assert chip[pages[i]][NEXT] == if i + 1 < |pages| then pages[i + 1] else 0;
        first := mem.PeekIn(first, NEXT);
        assert pages[..i + 1] == pages[..i] + [pages[i]];
        i := i + 1;
      }
      assert pages[..i] == pages;
    }

    /** The branch of `put` in which the byte has filled the page. */
    method LinkPage()
      requires Valid()
      modifies this`last, this`count, mem.Footprint()
      ensures var (s, p) := StashStore.AllocBlock(old(mem.View()));
              var s1 := Load0(s.(b0 := s.b0.(bytes := s.b0.bytes[NEXT := p])), p);
              && mem.View() == s1.(b0 := s1.b0.(bytes := s1.b0.bytes[NEXT := 0][TAIL := 0]))
              && last == p && count == (old(count) + 1) % 256
    {
      hide Pages;
      hide StashStore.AllocBlock;
      hide Load0;
      var p := mem.AllocBlock();
      mem.Poke(NEXT, p);
      last := mem.bytes0[NEXT];
      mem.Load(0, last);
      mem.Poke(NEXT, 0);
      mem.Poke(TAIL, mem.bytes0[NEXT]);
      count := (count + 1) % 256;
    }

    method Put(c: byte)
      requires Valid() && TailByte(mem.View(), Value()) <= TAIL
      modifies this, mem.Footprint()
      ensures (mem.View(), Value()) == StashStore.Put(old(mem.View()), old(Value()), c)
    {
      hide Pages;
      hide StashStore.AllocBlock;
      hide Load0;
      mem.Load(0, last);
      var t := mem.bytes0[TAIL];
      mem.Poke(t, c);
      t := t + 1;
      if t <= TAIL {
        mem.Poke(TAIL, t);
      } else {
        LinkPage();
      }
    }

    method Get() returns (b: byte)
      requires Valid() && offs < 64
      modifies this, mem.Footprint()
      ensures (mem.View(), Value(), b) == StashStore.Get(old(mem.View()), old(Value()))
    {
      mem.Load(1, curr);
      if curr == last && offs >= mem.bytes1[TAIL] {
        return 0;
      }
      b := mem.bytes1[offs];
      offs := offs + 1;
      if offs >= 63 && curr != last {
        curr := mem.bytes1[NEXT];
        offs := 0;
      }
    }

    method Size() returns (n: u16)
      requires Valid()
      ensures n == StashStore.Size(mem.View(), Value())
    {
      var tail := mem.FetchByte(last, TAIL);
      n := (63 * count + tail - HEADER) % 0x1_0000;
    }
  }
}
