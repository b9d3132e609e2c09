/** The stash memory as values: chip pages, the two cached blocks, the free-page bitmap,
    and the effect of every `Stash` operation on them (EtherCard.cpp, EtherCard.h, enc28j60.cpp). */
module StashStore {
  import opened Bytes

  const PAGES: int := 56       // SCRATCH_START .. SCRATCH_LIMIT holds 56 pages of 64 bytes
  const HEADER: int := 3       // sizeof (StashHeader)
  const TAIL: int := 62        // offset of `tail` in the Block union
  const NEXT: int := 63        // offset of `next` in the Block union
  const NO_PAGE: byte := 255   // bnum of a forgotten slot

  type Page = p: seq<byte> | |p| == 64 witness seq(64, _ => 0)
  type Chip = c: seq<Page> | |c| == PAGES witness seq<Page>(PAGES, _ => Blank())
  type Bitmap = m: seq<bool> | |m| == 256 witness seq(256, _ => false)

  function Blank(): Page { seq(64, _ => 0) }

  datatype Block = Block(bytes: Page, bnum: byte)
  datatype Store = Store(chip: Chip, b0: Block, b1: Block, free: Bitmap)

  /** The fields of a `Stash` object: its cached header, then the read position. */
  datatype Handle = Handle(count: byte, first: byte, last: byte, curr: byte, offs: byte)

  // ---- chip access (enc28j60.cpp): pages past the scratch area are ignored

  function CopyOut(chip: Chip, page: byte, data: Page): Chip {
    if page < PAGES then chip[page := data] else chip
  }

  function CopyIn(chip: Chip, page: byte, data: Page): Page {
    if page < PAGES then chip[page] else data
  }

  /** An offset from 64 on reads from a later page. */
  function PeekIn(chip: Chip, page: byte, off: byte): (b: byte)
    ensures off < 64 ==> b == if page < PAGES then chip[page][off] else 0
  {
    var pos := 64 * page + off;
    if pos < 64 * PAGES then chip[pos / 64][pos % 64] else 0
  }

  // ---- page allocation

  /** The bitmap after `initMap(56)`. */
  function InitMap(): Bitmap { seq(256, p => 0 < p && p < PAGES) }

  predicate HasFree(m: Bitmap) { exists p :: 0 <= p < 256 && m[p] }

  /** The lowest free page from `from` on, or 0 when there is none. */
  function LowestFree(m: Bitmap, from: nat): (p: byte)
    requires from <= 256
    ensures (forall q :: from <= q < 256 ==> !m[q]) ==> p == 0
    ensures (exists q :: from <= q < 256 && m[q]) ==> from <= p && m[p] && forall q :: from <= q < p ==> !m[q]
    decreases 256 - from
  {
    if from == 256 then 0 else if m[from] then from else LowestFree(m, from + 1)
  }

  function AllocBlock(s: Store): (Store, byte) {
    var p := LowestFree(s.free, 0);
    (if HasFree(s.free) then s.(free := s.free[p := false]) else s, p)
  }

  function FreeBlock(m: Bitmap, p: byte): Bitmap { m[p := true] }

  function FreeCount(m: seq<bool>): (n: nat)
    ensures n <= |m|
  {
    if m == [] then 0 else (if m[|m| - 1] then 1 else 0) + FreeCount(m[..|m| - 1])
  }

  // ---- the two slots

  function Load0(s: Store, blk: byte): Store {
    if blk == s.b0.bnum then s
    else
      var chip := CopyOut(s.chip, s.b0.bnum, s.b0.bytes);
      s.(chip := chip,
         b0 := Block(CopyIn(chip, blk, s.b0.bytes), blk),
         b1 := if blk == s.b1.bnum then s.b1.(bnum := NO_PAGE) else s.b1)
  }

  function Load1(s: Store, blk: byte): Store {
    if blk == s.b1.bnum then s
    else if blk == s.b0.bnum then s.(b1 := s.b0)
    else s.(b1 := Block(CopyIn(s.chip, blk, s.b1.bytes), blk))
  }

  function FetchByte(s: Store, blk: byte, off: byte): byte
    requires off < 64
  {
    if blk == s.b0.bnum then s.b0.bytes[off]
    else if blk == s.b1.bnum then s.b1.bytes[off]
    else PeekIn(s.chip, blk, off)
  }

  // ---- Stash objects

  function SetHeader(p: Page, count: byte, first: byte, last: byte): Page {
    p[0 := count][1 := first][2 := last]
  }

  function Create(s: Store): (Store, Handle) {
    var (s1, blk) := AllocBlock(s);
    var s2 := Load0(s1, blk);
    var bytes := SetHeader(s2.b0.bytes, 0, blk, blk)[TAIL := HEADER][NEXT := 0];
    Open(s2.(b0 := s2.b0.(bytes := bytes)), blk)
  }

  function Open(s: Store, blk: byte): (Store, Handle) {
    var s1 := Load1(s, blk);
    (s1, Handle(s1.b1.bytes[0], s1.b1.bytes[1], s1.b1.bytes[2], blk, HEADER))
  }

  function Save(s: Store, h: Handle): Store {
    var s1 := Load0(s, h.first);
    var s2 := s1.(b0 := s1.b0.(bytes := SetHeader(s1.b0.bytes, h.count, h.first, h.last)));
    if s2.b1.bnum == h.first then Load1(s2, 0) else s2
  }

  /** `release` on a chain that is on the chip: every page goes back to the bitmap. */
  function ReleaseChain(s: Store, pages: seq<byte>): Store {
    s.(free := seq(256, p requires 0 <= p < 256 => s.free[p] || p in pages))
  }

  /** The fill level that `put` is about to use; up to 62 the write stays inside the page. */
  function TailByte(s: Store, h: Handle): byte { Load0(s, h.last).b0.bytes[TAIL] }

  function Put(s: Store, h: Handle, c: byte): (Store, Handle)
    requires TailByte(s, h) <= TAIL
  {
    var s1 := Load0(s, h.last);
    var t := s1.b0.bytes[TAIL];
    var s2 := s1.(b0 := s1.b0.(bytes := s1.b0.bytes[t := c]));
    if t < TAIL then
      (s2.(b0 := s2.b0.(bytes := s2.b0.bytes[TAIL := t + 1])), h)
    else
      var (s3, p) := AllocBlock(s2);
      var s4 := Load0(s3.(b0 := s3.b0.(bytes := s3.b0.bytes[NEXT := p])), p);
      (s4.(b0 := s4.b0.(bytes := s4.b0.bytes[NEXT := 0][TAIL := 0])),
       h.(last := p, count := (h.count + 1) % 256))
  }

  function Get(s: Store, h: Handle): (Store, Handle, byte)
    requires h.offs < 64
  {
    var s1 := Load1(s, h.curr);
    if h.curr == h.last && h.offs >= s1.b1.bytes[TAIL] then (s1, h, NUL)
    else
      var b := s1.b1.bytes[h.offs];
      if h.offs + 1 >= 63 && h.curr != h.last
      then (s1, h.(curr := s1.b1.bytes[NEXT], offs := 0), b)
      else (s1, h.(offs := h.offs + 1), b)
  }

  function Size(s: Store, h: Handle): u16 {
    (63 * h.count + FetchByte(s, h.last, TAIL) - HEADER) % 0x1_0000
  }

  // ---- the memory that the two slots stand for

  /** What page `p` holds: slot 0 is a write-back buffer, so it wins over the chip. */
  function Logical(s: Store, p: int): Page
    requires 0 <= p < PAGES
  {
    if s.b0.bnum == p then s.b0.bytes else s.chip[p]
  }

  /** Slot 1 holds the current contents of the page it names. */
  predicate Slot1Fresh(s: Store) {
    s.b1.bnum < PAGES ==> s.b1.bytes == Logical(s, s.b1.bnum)
  }

  lemma Load0KeepsPages(s: Store, blk: byte)
    requires s.b0.bnum < PAGES && blk < PAGES
    ensures forall p :: 0 <= p < PAGES ==> Logical(Load0(s, blk), p) == Logical(s, p)
    ensures Slot1Fresh(s) ==> Slot1Fresh(Load0(s, blk))
    ensures Load0(s, blk).b0.bytes == Logical(s, blk)
  {
  }

  lemma Load1KeepsPages(s: Store, blk: byte)
    requires blk < PAGES
    ensures forall p :: 0 <= p < PAGES ==> Logical(Load1(s, blk), p) == Logical(s, p)
    ensures s.b1.bnum != blk ==> Slot1Fresh(Load1(s, blk))
    ensures Slot1Fresh(s) ==> Load1(s, blk).b1.bytes == Logical(s, blk)
  {
  }

  /** `fetchByte` through the two slots reads logical memory, exactly when slot 1 is not a stale copy. */
  lemma FetchByteReadsLogical(s: Store, blk: byte, off: byte)
    requires blk < PAGES && off < 64
    ensures FetchByte(s, blk, off) == Logical(s, blk)[off]
            <==> (s.b0.bnum == blk || s.b1.bnum != blk || s.b1.bytes[off] == s.chip[blk][off])
  {
  }
}
