/**
 The heap's memory: one byte array, with the headers of the blocks inside it,
 and the four routines that rewrite headers.
 */
module HeapMemory {
  import opened Word32
  import opened HeapSpec
  import opened HeapLaws
  import opened HeapConservation

  const BLOCK_MAGIC: nat := 0x4B48_4541

  /** The five words of a block header; `prev` and `next` are addresses, 0 for null. */
  datatype Header = Header(magic: nat, size: nat, free: nat, prev: nat, next: nat)

  const HEADER_BYTES: nat := 20

  /** The word at `a` of a memory image. */
  function WordIn(m: seq<byte>, a: nat): nat
    requires a + 4 <= |m|
  {
    Join(m[a], m[a + 1], m[a + 2], m[a + 3])
  }

  /** What the header of block `i` must hold. */
  function HeaderOf(bs: seq<Block>, i: nat): Header
    requires i < |bs|
  {
    Header(BLOCK_MAGIC, bs[i].size, if bs[i].free then 1 else 0,
           if i == 0 then 0 else bs[i - 1].addr,
           if i + 1 == |bs| then 0 else bs[i + 1].addr)
  }

  ghost function Heads(bs: seq<Block>): set<nat> {
    set b | b in bs :: b.addr
  }

  /** Some header starting in `heads` covers the address. */
  ghost predicate InHeader(heads: set<nat>, address: nat) {
    exists h :: h in heads && h <= address < h + HEADER_SIZE
  }

  /** Every block lies in the memory, off the null address, clear of the others. */
  ghost predicate Placed(bs: seq<Block>) {
    && (forall i :: 0 <= i < |bs| ==> 0 < bs[i].addr && bs[i].End() <= HEAP_VIRT_LIMIT)
    && (forall i, j :: 0 <= i < j < |bs| ==> bs[i].End() <= bs[j].addr)
  }

  lemma TiledIsPlaced(bs: seq<Block>)
    requires Tiled(bs) && (bs != [] ==> 0 < bs[0].addr && Brk(bs) <= HEAP_VIRT_LIMIT)
    ensures Placed(bs)
  {
    forall i, j | 0 <= i < j < |bs| ensures bs[i].End() <= bs[j].addr { Ordered(bs, i, j); }
  }

  lemma LastInside(bs: seq<Block>)
    requires Placed(bs) && bs != []
    ensures 0 < bs[0].addr && Brk(bs) <= HEAP_VIRT_LIMIT
  {}

  /** Only bytes in headers starting in `heads` differ. */
  ghost predicate SameOutside(before: seq<byte>, after: seq<byte>, heads: set<nat>) {
    && |before| == |after|
    && forall k :: 0 <= k < |after| && !InHeader(heads, k) ==> after[k] == before[k]
  }

  /** No byte outside `[lo, hi)` has changed. */
  ghost predicate KeptOutside(m0: seq<byte>, m1: seq<byte>, lo: nat, hi: nat) {
    && |m0| == |m1|
    && forall k :: 0 <= k < |m1| && !(lo <= k < hi) ==> m1[k] == m0[k]
  }

  /** The `n` bytes at `to` are those that were at `from`. */
  ghost predicate Copied(m0: seq<byte>, from: nat, m1: seq<byte>, to: nat, n: nat) {
    && from + n <= |m0| && to + n <= |m1|
    && forall a :: to <= a < to + n ==> m1[a] == m0[a - to + from]
  }

  lemma CopyNothing(m: seq<byte>, from: nat, to: nat)
    requires from <= |m| && to <= |m|
    ensures Copied(m, from, m, to, 0) && KeptOutside(m, m, to, to + 0)
  {}

  /** One more byte of a copy between two stretches that lie apart. */
  lemma CopyStep(m0: seq<byte>, m1: seq<byte>, from: nat, to: nat, n: nat)
    requires Copied(m0, from, m1, to, n) && KeptOutside(m0, m1, to, to + n)
    requires (from + n < to || to + n < from) && from + n < |m0| && to + n < |m0|
    ensures |m1| == |m0|
    ensures var m2 := m1[to + n := m1[from + n]];
            Copied(m0, from, m2, to, n + 1) && KeptOutside(m0, m2, to, to + (n + 1))
  {}

  lemma NothingChanged(m: seq<byte>, heads: set<nat>, lo: nat, hi: nat)
    ensures SameOutside(m, m, heads) && KeptOutside(m, m, lo, hi)
  {}

  lemma SameLength(m0: seq<byte>, m1: seq<byte>, heads: set<nat>)
    requires SameOutside(m0, m1, heads)
    ensures |m0| == |m1|
  {}

  /** Two such steps make one, if the headers of the middle list are found on either side. */
  lemma SameOutsideTwice(m0: seq<byte>, m1: seq<byte>, m2: seq<byte>, a: seq<Block>, b: seq<Block>, c: seq<Block>)
    requires SameOutside(m0, m1, Heads(a) + Heads(b)) && SameOutside(m1, m2, Heads(b) + Heads(c))
    requires Heads(b) <= Heads(a) + Heads(c)
    ensures SameOutside(m0, m2, Heads(a) + Heads(c))
  {
    hide Heads, InHeader;
    forall k | 0 <= k < |m2| && !InHeader(Heads(a) + Heads(c), k) ensures m2[k] == m0[k] {
      if InHeader(Heads(a) + Heads(b), k) { InHeaderMonotone(Heads(a) + Heads(b), Heads(a) + Heads(c), k); }
      if InHeader(Heads(b) + Heads(c), k) { InHeaderMonotone(Heads(b) + Heads(c), Heads(a) + Heads(c), k); }
    }
  }

  lemma InHeaderMonotone(some: set<nat>, more: set<nat>, k: nat)
    requires some <= more && InHeader(some, k)
    ensures InHeader(more, k)
  {}

  lemma HeadsOfSplit(bs: seq<Block>, i: nat, required: nat)
    requires i < |bs|
    ensures Heads(bs) <= Heads(SplitAt(bs, i, required))
  {
    var cs := SplitAt(bs, i, required);
    forall h | h in Heads(bs) ensures h in Heads(cs) {
      var k :| 0 <= k < |bs| && bs[k].addr == h;
      if cs != bs {
        assert k <= i ==> cs[k].addr == h;
        assert k > i ==> cs[k + 1].addr == h;
      }
    }
  }

  /** A split makes no live header where none was. */
  lemma LiveOfSplit(bs: seq<Block>, i: nat, required: nat, c: Block)
    requires i < |bs| && c in SplitAt(bs, i, required) && !c.free
    ensures exists b :: b in bs && !b.free && b.addr == c.addr
  {
    var cs := SplitAt(bs, i, required);
    var k :| 0 <= k < |cs| && cs[k] == c;
    if cs != bs {
      var b := bs[if k <= i then k else k - 1];
      assert b in bs && !b.free && b.addr == c.addr;
    }
  }

  lemma HeadsOfTake(bs: seq<Block>, i: nat, required: nat)
    requires i < |bs|
    ensures Heads(SplitAt(bs, i, required)) <= Heads(Take(bs, i, required))
    ensures Heads(bs) <= Heads(Take(bs, i, required))
  {
    var cs := SplitAt(bs, i, required);
    HeadsOfSplit(bs, i, required);
    forall h | h in Heads(cs) ensures h in Heads(Mark(cs, i, false)) {
      var k :| 0 <= k < |cs| && cs[k].addr == h;
      assert Mark(cs, i, false)[k].addr == h;
    }
  }

  lemma HeadsOfGrow(s: State, required: nat)
    requires 0 < required <= MAX_REQUEST
    ensures Heads(s.blocks) <= Heads(Grow(s, required).0.blocks)
  {
    hide GrowthBytes, Fits;
    var bs, cs := s.blocks, Grow(s, required).0.blocks;
    forall h | h in Heads(bs) ensures h in Heads(cs) {
      var k :| 0 <= k < |bs| && bs[k].addr == h;
      assert cs[k].addr == h;
    }
  }

  /** Allocation moves no header. */
  lemma HeadsOfAlloc(s: State, size: nat)
    requires size <= MAX_REQUEST
    ensures Heads(s.blocks) <= Heads(Alloc(s, size).0.blocks)
  {
    hide Heads, Take, Grow, FirstFit, BlockSize;
    if size != 0 && s.blocks != [] {
      var required := BlockSize(size);
      HeadsOfGrow(s, required);
      var i := FirstFit(s.blocks, required, 0);
      var g := Grow(s, required).0;
      var j := FirstFit(g.blocks, required, 0);
      if i < |s.blocks| { HeadsOfTake(s.blocks, i, required); }
      if j < |g.blocks| { HeadsOfTake(g.blocks, j, required); }
    }
  }

  lemma HeadsOfMark(bs: seq<Block>, i: nat, free: bool)
    requires i < |bs|
    ensures Heads(Mark(bs, i, free)) == Heads(bs)
  {
    var cs := Mark(bs, i, free);
    forall h | h in Heads(bs) ensures h in Heads(cs) {
      var k :| 0 <= k < |bs| && bs[k].addr == h;
      assert cs[k].addr == h;
    }
    forall h | h in Heads(cs) ensures h in Heads(bs) {
      var k :| 0 <= k < |cs| && cs[k].addr == h;
      assert bs[k].addr == h;
    }
  }

  lemma HeadsOfMerge(bs: seq<Block>, i: nat)
    requires i < |bs|
    ensures Heads(MergeNext(bs, i)) <= Heads(bs)
  {
    var cs := MergeNext(bs, i);
    forall h | h in Heads(cs) ensures h in Heads(bs) {
      var k :| 0 <= k < |cs| && cs[k].addr == h;
      if cs != bs {
        assert bs[if k <= i then k else k + 1].addr == h;
      }
    }
  }

  lemma HeadsAt(bs: seq<Block>, i: nat)
    requires i < |bs|
    ensures bs[i].addr in Heads(bs)
  {
    assert bs[i] in bs;
  }

  lemma SplitLength(bs: seq<Block>, i: nat, required: nat)
    requires i < |bs| && Splits(bs[i], required)
    ensures |SplitAt(bs, i, required)| == |bs| + 1
  {}

  // The headers after a split, in terms of those before.

  lemma SplitHeaderBefore(bs: seq<Block>, i: nat, required: nat, j: nat)
    requires i < |bs| && Splits(bs[i], required) && j < i && |SplitAt(bs, i, required)| == |bs| + 1
    ensures var cs := SplitAt(bs, i, required);
            cs[j].addr == bs[j].addr && HeaderOf(cs, j) == HeaderOf(bs, j)
  {
    var cs := SplitAt(bs, i, required);
    assert cs[j] == bs[j] && cs[j + 1].addr == bs[j + 1].addr;
    assert j > 0 ==> cs[j - 1] == bs[j - 1];
  }

  lemma SplitHeadersAt(bs: seq<Block>, i: nat, required: nat)
    requires i < |bs| && Splits(bs[i], required) && |SplitAt(bs, i, required)| == |bs| + 1
    ensures var cs := SplitAt(bs, i, required);
            var newBlock := bs[i].Payload() + required;
            && cs[i].addr == bs[i].addr && HeaderOf(cs, i) == HeaderOf(bs, i).(size := required, next := newBlock)
            && cs[i + 1].addr == newBlock
            && HeaderOf(cs, i + 1) ==
               Header(BLOCK_MAGIC, bs[i].size - required - HEADER_SIZE, 1, bs[i].addr, HeaderOf(bs, i).next)
  {
    var cs := SplitAt(bs, i, required);
    assert i > 0 ==> cs[i - 1] == bs[i - 1];
    assert i + 1 < |bs| ==> cs[i + 2] == bs[i + 1];
  }

  lemma SplitHeaderAfter(bs: seq<Block>, i: nat, required: nat, k: nat)
    requires i < |bs| && Splits(bs[i], required) && i < k < |bs| && |SplitAt(bs, i, required)| == |bs| + 1
    ensures var cs := SplitAt(bs, i, required);
            && cs[k + 1].addr == bs[k].addr
            && HeaderOf(cs, k + 1) ==
               if k == i + 1 then HeaderOf(bs, k).(prev := bs[i].Payload() + required) else HeaderOf(bs, k)
  {
    var cs := SplitAt(bs, i, required);
    assert cs[k + 1] == bs[k];
    assert k > i + 1 ==> cs[k] == bs[k - 1];
    assert k + 1 < |bs| ==> cs[k + 2] == bs[k + 1];
  }

  // ----- stale headers -----

  /** What lies at `h` is not taken for the header of a live block. */
  predicate Dead(m: seq<byte>, h: nat) {
    h + HEADER_BYTES <= |m| ==> WordIn(m, h) != BLOCK_MAGIC || WordIn(m, h + 8) != 0
  }

  /** The words at `b.addr` that the pointer test reads, and a `next` field that is an address of the heap. */
  predicate Stamped(m: seq<byte>, b: Block) {
    && b.addr % ALLOC_ALIGN == 0 && b.End() <= |m|
    && WordIn(m, b.addr) == BLOCK_MAGIC
    && WordIn(m, b.addr + 8) == (if b.free then 1 else 0)
    && WordIn(m, b.addr + 16) < HEAP_VIRT_LIMIT
  }

  ghost predicate Stamps(m: seq<byte>, bs: seq<Block>) {
    forall b :: b in bs ==> Stamped(m, b)
  }

  /** The header address of a pointer that was granted; none for null. */
  function Granted(ptr: nat): set<nat> {
    if ptr < HEADER_SIZE then {} else {ptr - HEADER_SIZE}
  }

  /** Nothing at an aligned address has become the header of a live block, except at `granted`. */
  ghost predicate NoneRevived(m0: seq<byte>, m1: seq<byte>, granted: set<nat>) {
    && |m0| == |m1|
    && forall h: nat :: h % ALLOC_ALIGN == 0 && h !in granted && Dead(m0, h) ==> Dead(m1, h)
  }

  lemma NoneRevivedReflexive(m: seq<byte>)
    ensures NoneRevived(m, m, {})
  {}

  lemma NoneRevivedTwice(m0: seq<byte>, m1: seq<byte>, m2: seq<byte>, granted: set<nat>)
    requires NoneRevived(m0, m1, granted) && NoneRevived(m1, m2, {})
    ensures NoneRevived(m0, m2, granted)
  {
    hide Dead;
  }

  /**
   Stores into stamped headers revive nothing: where such a header overlaps a
   stale one, the word that the pointer test reads is a flag, an address or a magic
   number in the wrong place.
   */
  lemma StampsReviveNone(m0: seq<byte>, m1: seq<byte>, bs: seq<Block>, granted: set<nat>)
    requires SameOutside(m0, m1, Heads(bs)) && Stamps(m1, bs)
    requires forall b :: b in bs && !b.free && b.addr !in granted ==> !Dead(m0, b.addr)
    ensures NoneRevived(m0, m1, granted)
  {
    forall h: nat | h % ALLOC_ALIGN == 0 && h !in granted && Dead(m0, h) ensures Dead(m1, h) {
      if h + HEADER_BYTES <= |m1| {
        StaysDead(m0, m1, bs, granted, h);
      }
    }
  }

  lemma StaysDead(m0: seq<byte>, m1: seq<byte>, bs: seq<Block>, granted: set<nat>, h: nat)
    requires SameOutside(m0, m1, Heads(bs)) && Stamps(m1, bs)
    requires forall b :: b in bs && !b.free && b.addr !in granted ==> !Dead(m0, b.addr)
    requires h % ALLOC_ALIGN == 0 && h + HEADER_BYTES <= |m1| && h !in granted && Dead(m0, h)
    ensures Dead(m1, h)
  {
    hide Heads, InHeader, SameOutside, WordIn;
    if b :| b in bs && b.addr <= h < b.addr + HEADER_SIZE {
      assert Stamped(m1, b);
      WordOffset(b.addr, h);
    } else if b :| b in bs && b.addr <= h + 8 < b.addr + HEADER_SIZE {
      assert Stamped(m1, b);
      WordOffset(b.addr, h + 8);
    } else {
      SameLength(m0, m1, Heads(bs));
      AlignedHeads(m1, bs);
      AwayFromHeads(m0, m1, bs, h);
      AwayFromHeads(m0, m1, bs, h + 8);
    }
  }

  lemma WordOffset(c: nat, a: nat)
    requires c % ALLOC_ALIGN == 0 && a % ALLOC_ALIGN == 0 && c <= a < c + HEADER_SIZE
    ensures a == c || a == c + 8 || a == c + 16
  {}

  lemma AlignedHeads(m: seq<byte>, bs: seq<Block>)
    requires Stamps(m, bs)
    ensures forall b :: b in bs ==> b.addr % ALLOC_ALIGN == 0
  {
    hide WordIn;
    forall b | b in bs ensures b.addr % ALLOC_ALIGN == 0 {
      assert Stamped(m, b);
    }
  }

  lemma AwayFromHeads(m0: seq<byte>, m1: seq<byte>, bs: seq<Block>, a: nat)
    requires SameOutside(m0, m1, Heads(bs)) && (forall b :: b in bs ==> b.addr % ALLOC_ALIGN == 0)
    requires a % ALLOC_ALIGN == 0 && a + 4 <= |m1|
    requires forall b :: b in bs ==> !(b.addr <= a < b.addr + HEADER_SIZE)
    ensures WordIn(m1, a) == WordIn(m0, a)
  {
    forall k | a <= k < a + 4 ensures !InHeader(Heads(bs), k) {
      forall b | b in bs ensures !(b.addr <= k < b.addr + HEADER_SIZE) {
        WordsApart(b.addr, a, k);
      }
    }
  }

  lemma WordsApart(c: nat, a: nat, k: nat)
    requires c % ALLOC_ALIGN == 0 && a % ALLOC_ALIGN == 0 && a <= k < a + 4
    requires !(c <= a < c + HEADER_SIZE)
    ensures !(c <= k < c + HEADER_SIZE)
  {}

  /** The same for the headers whose tested words lie clear of the bytes from `lo` to `hi`. */
  ghost predicate NoneRevivedOutside(m0: seq<byte>, m1: seq<byte>, granted: set<nat>, lo: nat, hi: nat) {
    && |m0| == |m1|
    && forall h: nat :: h % ALLOC_ALIGN == 0 && h !in granted && Clear(h, lo, hi) && Dead(m0, h) ==> Dead(m1, h)
  }

  predicate Clear(h: nat, lo: nat, hi: nat) {
    h + 12 <= lo || hi <= h
  }

  lemma WritesReviveNoneOutside(m0: seq<byte>, m1: seq<byte>, lo: nat, hi: nat)
    requires KeptOutside(m0, m1, lo, hi)
    ensures NoneRevivedOutside(m0, m1, {}, lo, hi)
  {
    hide WordIn;
    forall h: nat | h % ALLOC_ALIGN == 0 && Clear(h, lo, hi) && Dead(m0, h) ensures Dead(m1, h) {
      if h + HEADER_BYTES <= |m1| {
        SameWord(m0, m1, h);
        SameWord(m0, m1, h + 8);
      }
    }
  }

  lemma NoneRevivedAround(m0: seq<byte>, m1: seq<byte>, m2: seq<byte>, m3: seq<byte>, granted: set<nat>,
                         lo: nat, hi: nat)
    requires NoneRevived(m0, m1, granted) && NoneRevivedOutside(m1, m2, {}, lo, hi) && NoneRevived(m2, m3, {})
    ensures NoneRevivedOutside(m0, m3, granted, lo, hi)
  {
    hide Dead;
  }

  ghost predicate Zeros(m: seq<byte>, from: nat, n: int) {
    from + n <= |m| && forall k :: from <= k < from + n ==> m[k] == 0
  }

  lemma ZeroStep(m0: seq<byte>, m1: seq<byte>, from: nat, n: nat)
    requires Zeros(m1, from, n) && KeptOutside(m0, m1, from, from + n) && from + n < |m1|
    ensures var m2 := m1[from + n := 0]; Zeros(m2, from, n + 1) && KeptOutside(m0, m2, from, from + (n + 1))
  {}

  /** Clearing bytes of a payload revives nothing: no byte of the magic number is zero. */
  lemma ZerosReviveNone(m0: seq<byte>, m1: seq<byte>, b: Block, total: nat)
    requires Stamped(m0, b) && total <= b.size && KeptOutside(m0, m1, b.Payload(), b.Payload() + total)
    requires Zeros(m1, b.Payload(), total)
    ensures NoneRevived(m0, m1, {})
  {
    hide WordIn;
    var from, to := b.Payload(), b.Payload() + total;
    forall h: nat | h % ALLOC_ALIGN == 0 && Dead(m0, h) ensures Dead(m1, h) {
      if h + HEADER_BYTES <= |m1| {
        if from < h + 4 && h < to && from < to {
          ZeroByteInWord(m1, h, if h < from then from else h);
        } else {
          SameWord(m0, m1, h);
          if from < h + 12 && h + 8 < to && from < to {
            assert from % ALLOC_ALIGN == 0 && h + 8 == from == b.addr + HEADER_SIZE;
          } else {
            SameWord(m0, m1, h + 8);
          }
        }
      }
    }
  }

  lemma ZeroByteInWord(m: seq<byte>, a: nat, k: nat)
    requires a <= k < a + 4 <= |m| && m[k] == 0
    ensures WordIn(m, a) != BLOCK_MAGIC
  {}

  lemma SameWord(m0: seq<byte>, m1: seq<byte>, a: nat)
    requires a + 4 <= |m0| && a + 4 <= |m1| && forall k :: a <= k < a + 4 ==> m1[k] == m0[k]
    ensures WordIn(m1, a) == WordIn(m0, a)
  {}

  class Memory {
    const mem: array<byte>

    constructor (mem: array<byte>)
      ensures this.mem == mem
    {
      this.mem := mem;
    }

    function Word(a: nat): (w: nat)
      requires a + 4 <= mem.Length
      reads mem
      ensures w == Join(mem[a], mem[a + 1], mem[a + 2], mem[a + 3]) < TWO32
    {
      WordIn(mem[..], a)
    }

    function HeaderAt(a: nat): Header
      requires a + HEADER_BYTES <= mem.Length
      reads mem
    {
      Header(Word(a), Word(a + 4), Word(a + 8), Word(a + 12), Word(a + 16))
    }

    method StoreWord(a: nat, w: nat)
      requires a + 4 <= mem.Length && w < TWO32
      modifies mem
      ensures Word(a) == w
      ensures forall k :: 0 <= k < mem.Length && !(a <= k < a + 4) ==> mem[k] == old(mem[k])
    {
      var b := Split(w);
      mem[a], mem[a + 1], mem[a + 2], mem[a + 3] := b.0, b.1, b.2, b.3;
    }

    /** Only the header at `a` has changed, to `h`. */
    twostate predicate Stored(a: nat, h: Header)
      requires a + HEADER_BYTES <= mem.Length
      reads mem
    {
      && HeaderAt(a) == h
      && (forall c: nat :: c + HEADER_BYTES <= mem.Length && (c + HEADER_SIZE <= a || a + HEADER_SIZE <= c) ==>
            HeaderAt(c) == old(HeaderAt(c)))
      && (forall k: nat :: k < mem.Length && !(a <= k < a + HEADER_SIZE) ==> mem[k] == old(mem[k]))
    }

    method SetMagic(a: nat, w: nat)
      requires a + HEADER_BYTES <= mem.Length && w < TWO32
      modifies mem
      ensures Stored(a, old(HeaderAt(a)).(magic := w))
    {
      StoreWord(a, w);
    }

    method SetSize(a: nat, w: nat)
      requires a + HEADER_BYTES <= mem.Length && w < TWO32
      modifies mem
      ensures Stored(a, old(HeaderAt(a)).(size := w))
    {
      StoreWord(a + 4, w);
    }

    method SetFree(a: nat, w: nat)
      requires a + HEADER_BYTES <= mem.Length && w < TWO32
      modifies mem
      ensures Stored(a, old(HeaderAt(a)).(free := w))
    {
      StoreWord(a + 8, w);
    }

    method SetPrev(a: nat, w: nat)
      requires a + HEADER_BYTES <= mem.Length && w < TWO32
      modifies mem
      ensures Stored(a, old(HeaderAt(a)).(prev := w))
    {
      StoreWord(a + 12, w);
    }

    method SetNext(a: nat, w: nat)
      requires a + HEADER_BYTES <= mem.Length && w < TWO32
      modifies mem
      ensures Stored(a, old(HeaderAt(a)).(next := w))
    {
      StoreWord(a + 16, w);
    }

    /** The five stores that make a new free block. */
    method InitFreeBlock(a: nat, size: nat, prev: nat, next: nat)
      requires a + HEADER_BYTES <= mem.Length && size < TWO32 && prev < TWO32 && next < TWO32
      modifies mem
      ensures Stored(a, Header(BLOCK_MAGIC, size, 1, prev, next))
    {
      SetMagic(a, BLOCK_MAGIC);
      SetSize(a, size);
      SetFree(a, 1);
      SetPrev(a, prev);
      SetNext(a, next);
    }

    // ----- the block list in memory -----

    /** The headers in memory describe exactly this list. */
    ghost predicate Represents(bs: seq<Block>)
      reads mem
    {
      && mem.Length == HEAP_VIRT_LIMIT
      && Placed(bs)
      && forall i :: 0 <= i < |bs| ==> HeaderAt(bs[i].addr) == HeaderOf(bs, i)
    }

    /** The header of a list of one free block. */
    method FirstHeader(a: nat, size: nat)
      requires mem.Length == HEAP_VIRT_LIMIT && 0 < a && a + HEADER_SIZE + size <= HEAP_VIRT_LIMIT
      modifies mem
      ensures Represents([Block(a, size, true)]) && KeptOutside(old(mem[..]), mem[..], a, a + HEADER_SIZE)
    {
      hide HeaderAt;
      InitFreeBlock(a, size, 0, 0);
    }

    /** What a walk reads from the header of block `i`. */
    lemma HeaderSays(bs: seq<Block>, i: nat)
      requires Represents(bs) && i < |bs|
      ensures bs[i].addr + HEADER_BYTES <= mem.Length && 0 < bs[i].addr
      ensures var h := HeaderAt(bs[i].addr);
              && h.magic == BLOCK_MAGIC && h.size == bs[i].size && (h.free != 0 <==> bs[i].free)
              && h.prev == (if i == 0 then 0 else bs[i - 1].addr)
              && h.next == (if i + 1 == |bs| then 0 else bs[i + 1].addr)
    {
      hide HeaderAt;
      assert HeaderAt(bs[i].addr) == HeaderOf(bs, i);
    }

    /** The words of a header, in the order of the source's structure, and the slot it takes. */
    lemma HeaderLayout(bs: seq<Block>, i: nat)
      requires Represents(bs) && i < |bs|
      ensures var a := bs[i].addr;
              && a + 20 <= mem.Length && HEADER_SIZE == AlignUp32(20, ALLOC_ALIGN)
              && Word(a) == 0x4B48_4541 && Word(a + 4) == bs[i].size && (Word(a + 8) != 0 <==> bs[i].free)
              && Word(a + 12) == (if i == 0 then 0 else bs[i - 1].addr)
              && Word(a + 16) == (if i + 1 == |bs| then 0 else bs[i + 1].addr)
    {
      hide Represents, Word;
      HeaderSays(bs, i);
    }

    lemma Inside(bs: seq<Block>, i: nat)
      requires Represents(bs) && i < |bs|
      ensures 0 < bs[i].addr && bs[i].End() <= mem.Length
    {
      hide HeaderAt;
    }

    /** Two blocks of the list lie apart inside the memory. */
    lemma Distinct(bs: seq<Block>, i: nat, j: nat)
      requires Represents(bs) && i < |bs| && j < |bs| && i != j
      ensures bs[i].End() <= bs[j].addr || bs[j].End() <= bs[i].addr
      ensures 0 < bs[i].addr && bs[i].End() <= mem.Length && bs[j].End() <= mem.Length
    {
      hide HeaderAt;
    }

    lemma HeaderStamps(bs: seq<Block>, i: nat)
      requires Placed(bs) && Tiled(bs) && i < |bs| && mem.Length == HEAP_VIRT_LIMIT
      requires HeaderAt(bs[i].addr).magic == BLOCK_MAGIC && HeaderAt(bs[i].addr).free == (if bs[i].free then 1 else 0)
      requires HeaderAt(bs[i].addr).next < HEAP_VIRT_LIMIT
      ensures Stamped(mem[..], bs[i])
    {
      hide Join;
      assert bs[i] in bs;
    }

    lemma RepresentsStamps(bs: seq<Block>)
      requires Represents(bs) && Tiled(bs)
      ensures Stamps(mem[..], bs)
    {
      hide HeaderAt, Tiled, Stamped;
      forall b | b in bs ensures Stamped(mem[..], b) {
        var i :| 0 <= i < |bs| && bs[i] == b;
        assert HeaderAt(bs[i].addr) == HeaderOf(bs, i);
        HeaderStamps(bs, i);
      }
    }

    /** Allocation revives nothing but the pointer it grants. */
    twostate lemma AllocRevivesNone(new s: State, new size: nat)
      requires Inv(s) && size <= MAX_REQUEST && old(Represents(s.blocks))
      requires var t := Alloc(s, size).0;
               Represents(t.blocks) && Tiled(t.blocks) && OnlyHeaders(s.blocks, t.blocks)
      ensures var ptr := Alloc(s, size).1;
              NoneRevived(old(mem[..]), mem[..], Granted(ptr))
    {
      hide HeaderAt, Represents, SameOutside, Heads, Tiled, Dead, NoneRevived, Stamped, Alloc, Live;
      var (t, ptr) := Alloc(s, size);
      HeadsOfAlloc(s, size);
      assert Heads(s.blocks) + Heads(t.blocks) == Heads(t.blocks);
      RepresentsStamps(t.blocks);
      LiveWereAlive(s.blocks);
      AllocLive(s, size);
      StampsReviveNone(old(mem[..]), mem[..], t.blocks, Granted(ptr));
    }

    static lemma AllocLive(s: State, size: nat)
      requires Inv(s) && size <= MAX_REQUEST
      ensures var (t, ptr) := Alloc(s, size);
              forall b :: b in t.blocks && !b.free && b.addr !in Granted(ptr) ==> b in s.blocks
    {
      hide Alloc, Inv, LiveIndex, Exhausted, BlockSize, Live;
      var (t, ptr) := Alloc(s, size);
      AllocNull(s, size);
      if ptr != 0 {
        AllocGrants(s, size);
        forall b | b in t.blocks && !b.free && b.addr !in Granted(ptr) ensures b in s.blocks {
          LiveIs(t.blocks, b);
          LiveIs(s.blocks, b);
        }
      }
    }

    static lemma LiveIs(bs: seq<Block>, b: Block)
      ensures b in Live(bs) <==> b in bs && !b.free
    {}

    twostate lemma LiveWereAlive(new bs: seq<Block>)
      requires old(Represents(bs))
      ensures forall b :: b in bs && !b.free ==> !Dead(old(mem[..]), b.addr)
    {
      hide Represents, Dead;
      forall b | b in bs && !b.free ensures !Dead(old(mem[..]), b.addr) {
        var i :| 0 <= i < |bs| && bs[i] == b;
        WasAlive(bs, i);
      }
    }

    twostate lemma WasAlive(new bs: seq<Block>, new i: nat)
      requires old(Represents(bs)) && i < |bs| && !bs[i].free
      ensures !Dead(old(mem[..]), bs[i].addr)
    {
      hide Join;
      assert old(HeaderAt(bs[i].addr)) == HeaderOf(bs, i);
    }

    /** Bytes outside the headers of both lists have not changed. */
    twostate predicate OnlyHeaders(before: seq<Block>, after: seq<Block>)
      reads mem
    {
      SameOutside(old(mem[..]), mem[..], Heads(before) + Heads(after))
    }

    /** Only the headers at `a`, `b` and (unless null) `c` have changed. */
    twostate predicate OnlyThree(a: nat, b: nat, c: nat)
      reads mem
    {
      && (forall h: nat :: h + HEADER_BYTES <= mem.Length
                           && (h + HEADER_SIZE <= a || a + HEADER_SIZE <= h)
                           && (h + HEADER_SIZE <= b || b + HEADER_SIZE <= h)
                           && (c == 0 || h + HEADER_SIZE <= c || c + HEADER_SIZE <= h) ==>
            HeaderAt(h) == old(HeaderAt(h)))
      && (forall k: nat :: k < mem.Length
                           && !(a <= k < a + HEADER_SIZE) && !(b <= k < b + HEADER_SIZE)
                           && !(c != 0 && c <= k < c + HEADER_SIZE) ==>
            mem[k] == old(mem[k]))
    }

    twostate lemma HeadsCover(new a: nat, new b: nat, new c: nat, new before: seq<Block>, new after: seq<Block>)
      requires OnlyThree(a, b, c)
      requires a in Heads(before) + Heads(after) && b in Heads(before) + Heads(after)
      requires c != 0 ==> c in Heads(before) + Heads(after)
      ensures OnlyHeaders(before, after)
    {
      hide HeaderAt, Heads;
      forall k | 0 <= k < mem.Length && !InHeader(Heads(before) + Heads(after), k)
        ensures mem[..][k] == old(mem[..])[k]
      {
        assert mem[k] == old(mem[k]);
      }
    }

    /** The effect of a split on the headers involved, `next` being the successor of the block. */
    twostate predicate SplitStored(block: nat, required: nat, next: nat)
      requires block + HEADER_SIZE + required + HEADER_BYTES <= mem.Length && next + HEADER_BYTES <= mem.Length
      reads mem
    {
      var newBlock := block + HEADER_SIZE + required;
      && OnlyThree(block, newBlock, next)
      && HeaderAt(newBlock) == Header(BLOCK_MAGIC, HeaderAt(newBlock).size, 1, block, next)
      && required + HEADER_SIZE + HeaderAt(newBlock).size == old(HeaderAt(block).size)
      && HeaderAt(block) == old(HeaderAt(block)).(size := required, next := newBlock)
      && (next != 0 ==> HeaderAt(next) == old(HeaderAt(next)).(prev := newBlock))
    }

    /** The stores of `split_block` once it has decided to split. */
    method StoreSplit(block: nat, required: nat)
      requires mem.Length == HEAP_VIRT_LIMIT
      requires block + HEADER_SIZE + required + HEADER_SIZE <= mem.Length
      requires required + HEADER_SIZE <= HeaderAt(block).size <= HEAP_VIRT_LIMIT
      requires var next := HeaderAt(block).next;
               next + HEADER_BYTES <= mem.Length && (next != 0 ==> block + HEADER_SIZE + required + HEADER_SIZE <= next)
      modifies mem
      ensures SplitStored(block, required, old(HeaderAt(block).next))
    {
      hide HeaderAt;
      var newBlock := block + HEADER_SIZE + required;
      InitFreeBlock(newBlock, HeaderAt(block).size - required - HEADER_SIZE, block, HeaderAt(block).next);
      if HeaderAt(newBlock).next != 0 {
        SetPrev(HeaderAt(newBlock).next, newBlock);
      }
      SetSize(block, required);
      SetNext(block, newBlock);
    }

    method SplitBlock(block: nat, required: nat, ghost bs: seq<Block>, ghost i: nat)
      requires Represents(bs) && Tiled(bs) && i < |bs| && block == bs[i].addr
      requires required % ALLOC_ALIGN == 0 && 0 < required <= bs[i].size
      modifies mem
      ensures Represents(SplitAt(bs, i, required))
      ensures OnlyHeaders(bs, SplitAt(bs, i, required))
      ensures NoneRevived(old(mem[..]), mem[..], {})
    {
      hide NoneRevived;
      NoneRevivedReflexive(mem[..]);
      if HeaderAt(block).size >= required + HEADER_SIZE + MIN_SPLIT_PAYLOAD {
        assert i + 1 < |bs| ==> bs[i].End() <= bs[i + 1].addr;
        StoreSplit(block, required);
        hide HeaderAt, Tiled, OnlyHeaders, SplitStored;
        SplitRepresents(bs, i, required);
        SplitFrame(bs, i, required);
        SplitRevivesNone(bs, i, required);
      }
    }

    static lemma SplitTiled(bs: seq<Block>, i: nat, required: nat)
      requires Tiled(bs) && i < |bs| && required % ALLOC_ALIGN == 0 && 0 < required
      ensures Tiled(SplitAt(bs, i, required))
    {
      SplitExchanges(bs, i, required);
    }

    /** A split revives nothing: the new header is that of a free block. */
    twostate lemma SplitRevivesNone(new bs: seq<Block>, new i: nat, new required: nat)
      requires old(Represents(bs)) && Tiled(bs) && i < |bs|
      requires required % ALLOC_ALIGN == 0 && 0 < required <= bs[i].size
      requires Represents(SplitAt(bs, i, required)) && OnlyHeaders(bs, SplitAt(bs, i, required))
      ensures NoneRevived(old(mem[..]), mem[..], {})
    {
      hide HeaderAt, Represents, SameOutside, Heads, Tiled, Dead, NoneRevived, Stamped, SplitAt;
      SplitTiled(bs, i, required);
      var cs := SplitAt(bs, i, required);
      HeadsOfSplit(bs, i, required);
      assert Heads(bs) + Heads(cs) == Heads(cs);
      RepresentsStamps(cs);
      LiveWereAlive(bs);
      forall c | c in cs && !c.free ensures !Dead(old(mem[..]), c.addr) {
        LiveOfSplit(bs, i, required, c);
      }
      StampsReviveNone(old(mem[..]), mem[..], cs, {});
    }

    twostate lemma SplitFrame(new bs: seq<Block>, new i: nat, new required: nat)
      requires old(Represents(bs)) && i < |bs| && Splits(bs[i], required)
      requires SplitStored(bs[i].addr, required, HeaderOf(bs, i).next)
      ensures OnlyHeaders(bs, SplitAt(bs, i, required))
    {
      hide HeaderAt, OnlyThree, OnlyHeaders, SplitAt, Heads, Represents, Placed;
      var cs := SplitAt(bs, i, required);
      SplitLength(bs, i, required);
      SplitHeadersAt(bs, i, required);
      HeadsAt(cs, i);
      HeadsAt(cs, i + 1);
      if i + 1 < |bs| { HeadsAt(bs, i + 1); }
      HeadsCover(bs[i].addr, bs[i].addr + HEADER_SIZE + required, HeaderOf(bs, i).next, bs, cs);
    }

    /** A header away from the three that were stored to still describes its block. */
    twostate lemma Untouched(new bs: seq<Block>, new a: nat, new b: nat, new c: nat, new j: nat)
      requires old(Represents(bs)) && OnlyThree(a, b, c) && j < |bs|
      requires bs[j].addr + HEADER_SIZE <= a || a + HEADER_SIZE <= bs[j].addr
      requires bs[j].addr + HEADER_SIZE <= b || b + HEADER_SIZE <= bs[j].addr
      requires c == 0 || bs[j].addr + HEADER_SIZE <= c || c + HEADER_SIZE <= bs[j].addr
      ensures HeaderAt(bs[j].addr) == HeaderOf(bs, j)
    {
      hide HeaderAt, HeaderOf;
      assert HeaderAt(bs[j].addr) == old(HeaderAt(bs[j].addr));
    }

    /** What the headers said before. */
    twostate lemma WasHeader(new bs: seq<Block>, new i: nat)
      requires old(Represents(bs)) && i < |bs|
      ensures mem.Length == HEAP_VIRT_LIMIT && Placed(bs) && bs[i].addr + HEADER_BYTES <= mem.Length
      ensures old(HeaderAt(bs[i].addr)) == HeaderOf(bs, i)
    {
      hide HeaderAt;
    }

    twostate lemma SplitLeaves(new bs: seq<Block>, new i: nat, new required: nat, new j: nat)
      requires old(Represents(bs)) && i < |bs| && Splits(bs[i], required)
      requires SplitStored(bs[i].addr, required, HeaderOf(bs, i).next)
      requires j < |bs| && j != i && j != i + 1
      ensures HeaderAt(bs[j].addr) == HeaderOf(bs, j)
    {
      hide HeaderAt, OnlyThree, Represents;
      WasHeader(bs, i);
      if j > i {
        assert bs[i + 1].End() <= bs[j].addr;
      }
      Untouched(bs, bs[i].addr, bs[i].addr + HEADER_SIZE + required, HeaderOf(bs, i).next, j);
    }

    twostate lemma SplitHeaderAt(new bs: seq<Block>, new i: nat, new required: nat, new j: nat)
      requires old(Represents(bs)) && i < |bs| && Splits(bs[i], required)
      requires SplitStored(bs[i].addr, required, HeaderOf(bs, i).next)
      requires j < |SplitAt(bs, i, required)|
      ensures var cs := SplitAt(bs, i, required);
              cs[j].addr + HEADER_BYTES <= mem.Length && HeaderAt(cs[j].addr) == HeaderOf(cs, j)
    {
      hide HeaderAt, OnlyThree, SplitAt, HeaderOf;
      SplitLength(bs, i, required);
      if j < i {
        SplitHeaderBefore(bs, i, required, j);
        SplitLeaves(bs, i, required, j);
      } else if j <= i + 1 {
        SplitHeadersAt(bs, i, required);
        SplitStoredAt(bs, i, required);
      } else {
        SplitHeaderAfter(bs, i, required, j - 1);
        if j == i + 2 { SplitStoredAt(bs, i, required); } else { SplitLeaves(bs, i, required, j - 1); }
      }
    }

    /** The three headers that a split stores, in terms of the old list. */
    twostate lemma SplitStoredAt(new bs: seq<Block>, new i: nat, new required: nat)
      requires old(Represents(bs)) && i < |bs| && Splits(bs[i], required)
      requires SplitStored(bs[i].addr, required, HeaderOf(bs, i).next)
      ensures HeaderAt(bs[i].addr) == HeaderOf(bs, i).(size := required, next := bs[i].Payload() + required)
      ensures HeaderAt(bs[i].Payload() + required) ==
              Header(BLOCK_MAGIC, bs[i].size - required - HEADER_SIZE, 1, bs[i].addr, HeaderOf(bs, i).next)
      ensures i + 1 < |bs| ==> HeaderAt(bs[i + 1].addr) == HeaderOf(bs, i + 1).(prev := bs[i].Payload() + required)
    {
      hide HeaderAt, OnlyThree, Represents;
      WasHeader(bs, i);
      if i + 1 < |bs| { WasHeader(bs, i + 1); }
    }

    twostate lemma SplitRepresents(new bs: seq<Block>, new i: nat, new required: nat)
      requires old(Represents(bs)) && Tiled(bs) && i < |bs| && Splits(bs[i], required)
      requires required % ALLOC_ALIGN == 0 && 0 < required
      requires SplitStored(bs[i].addr, required, HeaderOf(bs, i).next)
      ensures Represents(SplitAt(bs, i, required))
    {
      hide HeaderAt, Tiled, Live, SplitAt, OnlyThree;
      var cs := SplitAt(bs, i, required);
      SplitExchanges(bs, i, required);
      LastInside(bs);
      TiledIsPlaced(cs);
      forall j | 0 <= j < |cs|
        ensures cs[j].addr + HEADER_BYTES <= mem.Length && HeaderAt(cs[j].addr) == HeaderOf(cs, j)
      {
        SplitHeaderAt(bs, i, required, j);
      }
    }

    // ----- coalescing -----

    /** The effect of a merge on the headers involved, `after` being the successor of the absorbed block. */
    twostate predicate MergeStored(block: nat, size: nat, after: nat)
      requires block + HEADER_BYTES <= mem.Length && after + HEADER_BYTES <= mem.Length
      reads mem
    {
      && OnlyThree(block, block, after)
      && HeaderAt(block) == old(HeaderAt(block)).(size := size, next := after)
      && (after != 0 ==> HeaderAt(after) == old(HeaderAt(after)).(prev := block))
    }

    /** The stores of `coalesce_with_next` once it has decided to merge. */
    method StoreMerge(block: nat, next: nat)
      requires mem.Length == HEAP_VIRT_LIMIT
      requires block + HEADER_SIZE <= next && next + HEADER_BYTES <= mem.Length && HeaderAt(block).next == next
      requires HeaderAt(block).size + HEADER_SIZE + HeaderAt(next).size <= HEAP_VIRT_LIMIT
      requires var after := HeaderAt(next).next;
               after + HEADER_BYTES <= mem.Length && (after != 0 ==> next + HEADER_SIZE <= after)
      modifies mem
      ensures MergeStored(block, old(HeaderAt(block).size + HEADER_SIZE + HeaderAt(next).size),
              old(HeaderAt(next).next))
    {
      hide HeaderAt;
      SetSize(block, HeaderAt(block).size + HEADER_SIZE + HeaderAt(next).size);
      SetNext(block, HeaderAt(next).next);
      if HeaderAt(block).next != 0 {
        SetPrev(HeaderAt(block).next, block);
      }
    }

    /** A merge on the list: the header of the free block `i + 1` is absorbed. */
    method Absorb(block: nat, next: nat, ghost bs: seq<Block>, ghost i: nat)
      requires Represents(bs) && Tiled(bs) && i + 1 < |bs| && bs[i + 1].free
      requires block == bs[i].addr && next == bs[i + 1].addr
      modifies mem
      ensures Represents(MergeNext(bs, i)) && OnlyHeaders(bs, MergeNext(bs, i))
      ensures next + HEADER_BYTES <= mem.Length && HeaderAt(next) == old(HeaderAt(next))
      ensures MergeStored(block, bs[i].size + HEADER_SIZE + bs[i + 1].size, HeaderOf(bs, i + 1).next)
      ensures NoneRevived(old(mem[..]), mem[..], {})
    {
      assert HeaderAt(bs[i].addr) == HeaderOf(bs, i) && HeaderAt(bs[i + 1].addr) == HeaderOf(bs, i + 1);
      assert bs[i].End() <= bs[i + 1].addr && (i + 2 < |bs| ==> bs[i + 1].End() <= bs[i + 2].addr);
      hide HeaderAt, Tiled, OnlyHeaders, NoneRevived;
      StoreMerge(block, next);
      assert HeaderAt(next) == old(HeaderAt(next));
      hide MergeStored, Represents;
      MergeRepresents(bs, i);
      MergeFrame(bs, i);
      MergeRevivesNone(bs, i);
    }

    method CoalesceWithNext(block: nat, ghost bs: seq<Block>, ghost i: nat)
      requires Represents(bs) && Tiled(bs) && i < |bs| && block == bs[i].addr
      modifies mem
      ensures Represents(MergeNext(bs, i)) && OnlyHeaders(bs, MergeNext(bs, i))
      ensures i + 1 < |bs| ==> HeaderAt(bs[i + 1].addr) == old(HeaderAt(bs[i + 1].addr))
      ensures HeaderAt(block) ==
              old(HeaderAt(block)).(size := MergeNext(bs, i)[i].size, next := HeaderOf(MergeNext(bs, i), i).next)
      ensures NoneRevived(old(mem[..]), mem[..], {})
    {
      hide Represents, HeaderAt, Tiled, SameOutside, Heads, OnlyThree, NoneRevived;
      HeaderSays(bs, i);
      if i + 1 < |bs| { HeaderSays(bs, i + 1); }
      NoneRevivedReflexive(mem[..]);
      NothingChanged(mem[..], Heads(bs) + Heads(MergeNext(bs, i)), 0, 0);
      var next := HeaderAt(block).next;
      if next != 0 && HeaderAt(next).free != 0 && HeaderAt(next).magic == BLOCK_MAGIC {
        Absorb(block, next, bs, i);
        MergeHeaderHere(bs, i);
      }
    }

    // The headers after a merge, in terms of those before.

    static lemma MergeHeaderBefore(bs: seq<Block>, i: nat, j: nat)
      requires i + 1 < |bs| && bs[i + 1].free && j < i
      ensures var cs := MergeNext(bs, i);
              j < |cs| && cs[j].addr == bs[j].addr && HeaderOf(cs, j) == HeaderOf(bs, j)
    {
      var cs := MergeNext(bs, i);
      assert cs[j] == bs[j] && cs[j + 1].addr == bs[j + 1].addr;
      assert j > 0 ==> cs[j - 1] == bs[j - 1];
    }

    static lemma MergeHeaderHere(bs: seq<Block>, i: nat)
      requires i + 1 < |bs| && bs[i + 1].free
      ensures |MergeNext(bs, i)| == |bs| - 1
      ensures var cs := MergeNext(bs, i);
              && cs[i].addr == bs[i].addr
              && HeaderOf(cs, i) ==
                 HeaderOf(bs, i).(size := bs[i].size + HEADER_SIZE + bs[i + 1].size, next := HeaderOf(bs, i + 1).next)
    {
      var cs := MergeNext(bs, i);
      assert i > 0 ==> cs[i - 1] == bs[i - 1];
      assert i + 2 < |bs| ==> cs[i + 1] == bs[i + 2];
    }

    static lemma MergeHeaderAfter(bs: seq<Block>, i: nat, k: nat)
      requires i + 1 < |bs| && bs[i + 1].free && i + 1 < k < |bs|
      ensures var cs := MergeNext(bs, i);
              && k - 1 < |cs| && cs[k - 1].addr == bs[k].addr
              && HeaderOf(cs, k - 1) == if k == i + 2 then HeaderOf(bs, k).(prev := bs[i].addr) else HeaderOf(bs, k)
    {
      var cs := MergeNext(bs, i);
      assert cs[k - 1] == bs[k];
      assert k > i + 2 ==> cs[k - 2] == bs[k - 1];
      assert k + 1 < |bs| ==> cs[k] == bs[k + 1];
    }

    twostate lemma MergeLeaves(new bs: seq<Block>, new i: nat, new j: nat)
      requires old(Represents(bs)) && i + 1 < |bs| && bs[i + 1].free
      requires MergeStored(bs[i].addr, bs[i].size + HEADER_SIZE + bs[i + 1].size, HeaderOf(bs, i + 1).next)
      requires j < |bs| && j != i && j != i + 2
      ensures HeaderAt(bs[j].addr) == HeaderOf(bs, j)
    {
      hide HeaderAt, OnlyThree, Represents;
      WasHeader(bs, i);
      if j > i + 2 {
        assert bs[i + 2].End() <= bs[j].addr;
      }
      Untouched(bs, bs[i].addr, bs[i].addr, HeaderOf(bs, i + 1).next, j);
    }

    twostate lemma MergeHeaderAt(new bs: seq<Block>, new i: nat, new j: nat)
      requires old(Represents(bs)) && i + 1 < |bs| && bs[i + 1].free
      requires MergeStored(bs[i].addr, bs[i].size + HEADER_SIZE + bs[i + 1].size, HeaderOf(bs, i + 1).next)
      requires j < |MergeNext(bs, i)|
      ensures var cs := MergeNext(bs, i);
              cs[j].addr + HEADER_BYTES <= mem.Length && HeaderAt(cs[j].addr) == HeaderOf(cs, j)
    {
      hide HeaderAt, OnlyThree, MergeNext, HeaderOf;
      MergeHeaderHere(bs, i);
      if j < i {
        MergeHeaderBefore(bs, i, j);
        MergeLeaves(bs, i, j);
      } else if j == i {
        MergeStoredAt(bs, i);
      } else {
        MergeHeaderAfter(bs, i, j + 1);
        if j == i + 1 { MergeStoredAt(bs, i); } else { MergeLeaves(bs, i, j + 1); }
      }
    }

    /** The headers that a merge stores, in terms of the old list. */
    twostate lemma MergeStoredAt(new bs: seq<Block>, new i: nat)
      requires old(Represents(bs)) && i + 1 < |bs| && bs[i + 1].free
      requires MergeStored(bs[i].addr, bs[i].size + HEADER_SIZE + bs[i + 1].size, HeaderOf(bs, i + 1).next)
      ensures HeaderAt(bs[i].addr) ==
              HeaderOf(bs, i).(size := bs[i].size + HEADER_SIZE + bs[i + 1].size, next := HeaderOf(bs, i + 1).next)
      ensures i + 2 < |bs| ==> HeaderAt(bs[i + 2].addr) == HeaderOf(bs, i + 2).(prev := bs[i].addr)
    {
      hide HeaderAt, OnlyThree, Represents;
      WasHeader(bs, i);
      if i + 2 < |bs| { WasHeader(bs, i + 2); }
    }

    twostate lemma MergeRepresents(new bs: seq<Block>, new i: nat)
      requires old(Represents(bs)) && Tiled(bs) && i + 1 < |bs| && bs[i + 1].free
      requires MergeStored(bs[i].addr, bs[i].size + HEADER_SIZE + bs[i + 1].size, HeaderOf(bs, i + 1).next)
      ensures Represents(MergeNext(bs, i))
    {
      hide HeaderAt, Tiled, Live, MergeNext, OnlyThree;
      var cs := MergeNext(bs, i);
      MergeExchanges(bs, i);
      LastInside(bs);
      TiledIsPlaced(cs);
      forall j | 0 <= j < |cs|
        ensures cs[j].addr + HEADER_BYTES <= mem.Length && HeaderAt(cs[j].addr) == HeaderOf(cs, j)
      {
        MergeHeaderAt(bs, i, j);
      }
    }

    twostate lemma MergeFrame(new bs: seq<Block>, new i: nat)
      requires old(Represents(bs)) && i + 1 < |bs| && bs[i + 1].free
      requires MergeStored(bs[i].addr, bs[i].size + HEADER_SIZE + bs[i + 1].size, HeaderOf(bs, i + 1).next)
      ensures OnlyHeaders(bs, MergeNext(bs, i))
    {
      hide HeaderAt, OnlyThree, OnlyHeaders, MergeNext, Heads, Represents, Placed;
      HeadsAt(bs, i);
      if i + 2 < |bs| { HeadsAt(bs, i + 2); }
      HeadsCover(bs[i].addr, bs[i].addr, HeaderOf(bs, i + 1).next, bs, MergeNext(bs, i));
    }

    /** Every header of the old list, the absorbed one included, keeps its stamp. */
    twostate lemma MergeKeepsStamp(new bs: seq<Block>, new i: nat, new j: nat)
      requires old(Represents(bs)) && Tiled(bs) && i + 1 < |bs| && bs[i + 1].free && j < |bs|
      requires MergeStored(bs[i].addr, bs[i].size + HEADER_SIZE + bs[i + 1].size, HeaderOf(bs, i + 1).next)
      ensures Stamped(mem[..], bs[j])
    {
      hide HeaderAt, Tiled, Stamped, MergeStored;
      if j == i || j == i + 2 { MergeStoredAt(bs, i); } else { MergeLeaves(bs, i, j); }
      HeaderStamps(bs, j);
    }

    /** A merge revives nothing. */
    twostate lemma MergeRevivesNone(new bs: seq<Block>, new i: nat)
      requires old(Represents(bs)) && Tiled(bs) && i + 1 < |bs| && bs[i + 1].free
      requires MergeStored(bs[i].addr, bs[i].size + HEADER_SIZE + bs[i + 1].size, HeaderOf(bs, i + 1).next)
      requires OnlyHeaders(bs, MergeNext(bs, i))
      ensures NoneRevived(old(mem[..]), mem[..], {})
    {
      hide HeaderAt, Tiled, Stamped, Dead, MergeStored, MergeNext, SameOutside, Heads, NoneRevived, Represents;
      HeadsOfMerge(bs, i);
      assert Heads(bs) + Heads(MergeNext(bs, i)) == Heads(bs);
      forall b | b in bs ensures Stamped(mem[..], b) {
        var j :| 0 <= j < |bs| && bs[j] == b;
        MergeKeepsStamp(bs, i, j);
      }
      LiveWereAlive(bs);
      StampsReviveNone(old(mem[..]), mem[..], bs, {});
    }

    // ----- marking -----

    method MarkBlock(block: nat, free: bool, ghost bs: seq<Block>, ghost i: nat)
      requires Represents(bs) && i < |bs| && block == bs[i].addr
      modifies mem
      ensures Represents(Mark(bs, i, free))
      ensures OnlyHeaders(bs, Mark(bs, i, free))
    {
      hide HeaderAt;
      SetFree(block, if free then 1 else 0);
      assert OnlyThree(block, block, 0);
      hide Represents, OnlyThree, OnlyHeaders, Mark;
      MarkRepresents(bs, i, free);
      HeadsAt(bs, i);
      HeadsCover(block, block, 0, bs, Mark(bs, i, free));
    }

    static lemma MarkHeaders(bs: seq<Block>, i: nat, free: bool, j: nat)
      requires i < |bs| && j < |bs|
      ensures var h := HeaderOf(bs, j);
              HeaderOf(Mark(bs, i, free), j) == if j == i then h.(free := if free then 1 else 0) else h
    {}

    /** Marking a block free revives nothing. */
    twostate lemma MarkRevivesNone(new bs: seq<Block>, new i: nat)
      requires old(Represents(bs)) && i < |bs| && Represents(Mark(bs, i, true)) && Tiled(Mark(bs, i, true))
      requires OnlyHeaders(bs, Mark(bs, i, true))
      ensures NoneRevived(old(mem[..]), mem[..], {})
    {
      hide HeaderAt, Represents, SameOutside, Heads, Tiled, Dead, NoneRevived, Stamped;
      var marked := Mark(bs, i, true);
      HeadsOfMark(bs, i, true);
      assert Heads(bs) + Heads(marked) == Heads(marked);
      RepresentsStamps(marked);
      LiveWereAlive(bs);
      forall b | b in marked && !b.free ensures b in bs {
        var j :| 0 <= j < |marked| && marked[j] == b;
        assert bs[j] == b;
      }
      StampsReviveNone(old(mem[..]), mem[..], marked, {});
    }

    twostate lemma MarkRepresents(new bs: seq<Block>, new i: nat, new free: bool)
      requires old(Represents(bs)) && i < |bs|
      requires OnlyThree(bs[i].addr, bs[i].addr, 0)
      requires HeaderAt(bs[i].addr) == old(HeaderAt(bs[i].addr)).(free := if free then 1 else 0)
      ensures Represents(Mark(bs, i, free))
    {
      hide HeaderAt, OnlyThree, HeaderOf;
      var cs := Mark(bs, i, free);
      assert old(HeaderAt(bs[i].addr)) == HeaderOf(bs, i);
      forall j | 0 <= j < |cs| ensures HeaderAt(cs[j].addr) == HeaderOf(cs, j) {
        MarkHeaders(bs, i, free, j);
        if j != i {
          Untouched(bs, bs[i].addr, bs[i].addr, 0, j);
        }
      }
    }

    /** A store inside a payload leaves every header alone. */
    method StoreByte(a: nat, v: byte, ghost bs: seq<Block>, ghost i: nat)
      requires Represents(bs) && i < |bs| && bs[i].Payload() <= a < bs[i].End()
      modifies mem
      ensures Represents(bs) && a < mem.Length && mem[..] == old(mem[..])[a := v]
    {
      hide Represents, HeaderAt;
      Inside(bs, i);
      mem[a] := v;
      PayloadStoreKeeps(a, bs, i);
    }

    twostate lemma PayloadStoreKeeps(new a: nat, new bs: seq<Block>, new i: nat)
      requires old(Represents(bs)) && i < |bs| && bs[i].Payload() <= a < bs[i].End()
      requires forall k :: 0 <= k < mem.Length && k != a ==> mem[k] == old(mem[k])
      ensures Represents(bs)
    {
      hide HeaderAt, HeaderOf;
      forall j | 0 <= j < |bs| ensures HeaderAt(bs[j].addr) == old(HeaderAt(bs[j].addr)) {
        assert j < i ==> bs[j].End() <= bs[i].addr;
        assert i < j ==> bs[i].End() <= bs[j].addr;
        HeaderKept(bs[j].addr);
      }
    }

    twostate lemma HeaderKept(new h: nat)
      requires h + HEADER_BYTES <= mem.Length
      requires forall k :: h <= k < h + HEADER_BYTES ==> mem[k] == old(mem[k])
      ensures HeaderAt(h) == old(HeaderAt(h))
    {}

    /** Carving a request out of a free block: split, then mark. */
    method TakeBlock(block: nat, required: nat, ghost bs: seq<Block>, ghost i: nat)
      requires Represents(bs) && Tiled(bs) && i < |bs| && block == bs[i].addr
      requires required % ALLOC_ALIGN == 0 && 0 < required <= bs[i].size
      modifies mem
      ensures Represents(Take(bs, i, required))
      ensures OnlyHeaders(bs, Take(bs, i, required))
    {
      hide Represents, HeaderAt, Heads, SameOutside, SplitAt, Tiled, Mark;
      SplitBlock(block, required, bs, i);
      ghost var middle := mem[..];
      ghost var cs := SplitAt(bs, i, required);
      SplitKeepsPlace(bs, i, required);
      MarkBlock(block, false, cs, i);
      HeadsOfTake(bs, i, required);
      SameOutsideTwice(old(mem[..]), middle, mem[..], bs, cs, Take(bs, i, required));
    }

    static lemma SplitKeepsPlace(bs: seq<Block>, i: nat, required: nat)
      requires i < |bs|
      ensures i < |SplitAt(bs, i, required)| && SplitAt(bs, i, required)[i].addr == bs[i].addr
    {}

    /** A block that absorbs its successor and is cut to the required size. */
    method GrowBlock(block: nat, required: nat, ghost bs: seq<Block>, ghost i: nat)
      requires Represents(bs) && Tiled(bs) && i < |bs| && block == bs[i].addr
      requires required % ALLOC_ALIGN == 0 && 0 < required && GrowsInPlace(bs, i, required)
      modifies mem
      ensures Represents(SplitAt(MergeNext(bs, i), i, required))
      ensures OnlyHeaders(bs, SplitAt(MergeNext(bs, i), i, required))
      ensures NoneRevived(old(mem[..]), mem[..], {})
    {
      hide Represents, HeaderAt, Heads, SameOutside, Tiled, MergeNext, SplitAt, NoneRevived;
      MergePlace(bs, i);
      MergeExchanges(bs, i);
      HeadsOfMerge(bs, i);
      ghost var m0 := mem[..];
      CoalesceWithNext(block, bs, i);
      ghost var merged := MergeNext(bs, i);
      ghost var m1 := mem[..];
      SplitBlock(block, required, merged, i);
      SameOutsideTwice(m0, m1, mem[..], bs, merged, SplitAt(merged, i, required));
      NoneRevivedTwice(m0, m1, mem[..], {});
    }

    /** Giving a block back: mark, merge with the next block, merge with the previous one. */
    method ReleaseBlock(block: nat, ghost bs: seq<Block>, ghost i: nat)
      requires Represents(bs) && Tiled(bs) && i < |bs| && block == bs[i].addr && !bs[i].free
      modifies mem
      ensures Represents(Release(bs, i))
      ensures OnlyHeaders(bs, Release(bs, i))
      ensures HeaderAt(block).magic == BLOCK_MAGIC && HeaderAt(block).free != 0
      ensures NoneRevived(old(mem[..]), mem[..], {})
    {
      hide Represents, HeaderAt, Heads, SameOutside, Tiled, MergeNext, Mark, NoneRevived;
      ghost var m0 := mem[..];
      MarkBlock(block, true, bs, i);
      ghost var marked := Mark(bs, i, true);
      ghost var m1 := mem[..];
      MarkPlace(bs, i);
      MarkExchanges(bs, i, true);
      HeadsOfMark(bs, i, true);
      MarkRevivesNone(bs, i);
      HeaderSays(marked, i);
      CoalesceWithNext(block, marked, i);
      ghost var merged := MergeNext(marked, i);
      ghost var m2 := mem[..];
      MergePlace(marked, i);
      MergeExchanges(marked, i);
      HeadsOfMerge(marked, i);
      SameOutsideTwice(m0, m1, m2, bs, marked, merged);
      NoneRevivedTwice(m0, m1, m2, {});
      HeaderSays(merged, i);
      var prev := HeaderAt(block).prev;
      if 0 < i { HeaderSays(merged, i - 1); }
      if prev != 0 && HeaderAt(prev).free != 0 {
        CoalesceWithNext(prev, merged, i - 1);
        SameOutsideTwice(m0, m2, mem[..], bs, merged, MergeNext(merged, i - 1));
        NoneRevivedTwice(m0, m2, mem[..], {});
      }
    }

    static lemma MarkPlace(bs: seq<Block>, i: nat)
      requires i < |bs|
      ensures |Mark(bs, i, true)| == |bs| && Mark(bs, i, true)[i] == bs[i].(free := true)
      ensures 0 < i ==> Mark(bs, i, true)[i - 1] == bs[i - 1]
    {}

    static lemma MergePlace(bs: seq<Block>, i: nat)
      requires i < |bs|
      ensures i < |MergeNext(bs, i)| && MergeNext(bs, i)[i].addr == bs[i].addr
      ensures i + 1 < |bs| && bs[i + 1].free ==> MergeNext(bs, i)[i].size == bs[i].size + HEADER_SIZE + bs[i + 1].size
      ensures 0 < i ==> MergeNext(bs, i)[i - 1] == bs[i - 1]
    {}

    // ----- growth -----

    /** The end of `extend_heap_to_fit`: the tail gets the bytes that were mapped. */
    method StoreGrowth(tail: nat, added: nat, ghost bs: seq<Block>)
      requires Represents(bs) && bs != [] && tail == bs[|bs| - 1].addr
      requires HEADER_SIZE <= added && Brk(bs) + added <= HEAP_VIRT_LIMIT
      modifies mem
      ensures Represents(GrownTail(bs, added)) && OnlyHeaders(bs, GrownTail(bs, added))
    {
      hide HeaderAt, HeaderOf, Represents, OnlyHeaders, LongerTail, NewTail, Heads, Placed;
      HeaderSays(bs, |bs| - 1);
      if HeaderAt(tail).free != 0 {
        StoreTail(tail, added, bs);
      } else {
        StoreNewTail(tail, added - HEADER_SIZE, bs);
      }
    }

    /** The tail takes the new bytes. */
    method StoreTail(tail: nat, added: nat, ghost bs: seq<Block>)
      requires Represents(bs) && bs != [] && tail == bs[|bs| - 1].addr && Brk(bs) + added <= HEAP_VIRT_LIMIT
      modifies mem
      ensures Represents(LongerTail(bs, added)) && OnlyHeaders(bs, LongerTail(bs, added))
    {
      hide HeaderAt;
      assert HeaderAt(tail).size == bs[|bs| - 1].size;
      SetSize(tail, HeaderAt(tail).size + added);
      assert OnlyThree(tail, tail, 0);
      hide OnlyThree, OnlyHeaders, Represents, LongerTail;
      LongerTailRepresents(bs, added);
      HeadsAt(bs, |bs| - 1);
      HeadsCover(tail, tail, 0, bs, LongerTail(bs, added));
    }

    twostate lemma LongerTailRepresents(new bs: seq<Block>, new added: nat)
      requires old(Represents(bs)) && bs != [] && Brk(bs) + added <= HEAP_VIRT_LIMIT
      requires var tail := bs[|bs| - 1];
               && OnlyThree(tail.addr, tail.addr, 0)
               && HeaderAt(tail.addr) == old(HeaderAt(tail.addr)).(size := tail.size + added)
      ensures Represents(LongerTail(bs, added))
    {
      hide HeaderAt, OnlyThree, HeaderOf;
      var n := |bs| - 1;
      var cs := LongerTail(bs, added);
      assert old(HeaderAt(bs[n].addr)) == HeaderOf(bs, n);
      forall j | 0 <= j < |cs| ensures HeaderAt(cs[j].addr) == HeaderOf(cs, j) {
        LongerTailHeaders(bs, added, j);
        if j < n { Untouched(bs, bs[n].addr, bs[n].addr, 0, j); }
      }
    }

    static lemma LongerTailHeaders(bs: seq<Block>, added: nat, j: nat)
      requires j < |bs|
      ensures var h := HeaderOf(bs, j);
              HeaderOf(LongerTail(bs, added), j) == if j == |bs| - 1 then h.(size := bs[j].size + added) else h
    {}

    /** A new free block is appended behind the tail. */
    method StoreNewTail(tail: nat, size: nat, ghost bs: seq<Block>)
      requires Represents(bs) && bs != [] && tail == bs[|bs| - 1].addr
      requires Brk(bs) + HEADER_SIZE + size <= HEAP_VIRT_LIMIT
      modifies mem
      ensures Represents(NewTail(bs, size)) && OnlyHeaders(bs, NewTail(bs, size))
    {
      hide HeaderAt;
      assert HeaderAt(tail).size == bs[|bs| - 1].size;
      var newBlock := tail + HEADER_SIZE + HeaderAt(tail).size;
      InitFreeBlock(newBlock, size, tail, 0);
      SetNext(tail, newBlock);
      assert OnlyThree(tail, newBlock, 0);
      hide OnlyThree, OnlyHeaders, Represents;
      NewTailRepresents(bs, size);
      HeadsAt(bs, |bs| - 1);
      HeadsAt(NewTail(bs, size), |bs|);
      HeadsCover(tail, newBlock, 0, bs, NewTail(bs, size));
    }

    twostate lemma NewTailRepresents(new bs: seq<Block>, new size: nat)
      requires old(Represents(bs)) && bs != [] && Brk(bs) + HEADER_SIZE + size <= HEAP_VIRT_LIMIT
      requires var tail := bs[|bs| - 1];
               && OnlyThree(tail.addr, tail.End(), 0)
               && HeaderAt(tail.addr) == old(HeaderAt(tail.addr)).(next := tail.End())
               && HeaderAt(tail.End()) == Header(BLOCK_MAGIC, size, 1, tail.addr, 0)
      ensures Represents(NewTail(bs, size))
    {
      hide HeaderAt, OnlyThree, HeaderOf;
      var n := |bs| - 1;
      var cs := NewTail(bs, size);
      assert old(HeaderAt(bs[n].addr)) == HeaderOf(bs, n);
      forall j | 0 <= j < |cs| ensures HeaderAt(cs[j].addr) == HeaderOf(cs, j) {
        NewTailHeaders(bs, size, j);
        if j < n { Untouched(bs, bs[n].addr, bs[n].End(), 0, j); }
      }
    }

    static lemma NewTailHeaders(bs: seq<Block>, size: nat, j: nat)
      requires bs != [] && j <= |bs|
      ensures HeaderOf(NewTail(bs, size), j) ==
              if j == |bs| then Header(BLOCK_MAGIC, size, 1, bs[j - 1].addr, 0)
              else if j == |bs| - 1 then HeaderOf(bs, j).(next := Brk(bs)) else HeaderOf(bs, j)
    {}

    // ----- loops over payloads and lists -----

    /** The loop of `kcalloc`. */
    method ZeroBytes(ptr: nat, total: nat, ghost bs: seq<Block>, ghost j: nat)
      requires Represents(bs) && j < |bs| && ptr == bs[j].Payload() && total <= bs[j].size
      modifies mem
      ensures Represents(bs) && Zeros(mem[..], ptr, total) && KeptOutside(old(mem[..]), mem[..], ptr, ptr + total)
    {
      hide Represents, HeaderAt;
      Inside(bs, j);
      ghost var m0 := mem[..];
      for n := 0 to total
        invariant Represents(bs) && Zeros(mem[..], ptr, n) && KeptOutside(m0, mem[..], ptr, ptr + n)
      {
        ghost var m1 := mem[..];
        hide Zeros, KeptOutside;
        StoreByte(ptr + n, 0, bs, j);
        ZeroStep(m0, m1, ptr, n);
      }
    }

    method CopyByte(from: nat, to: nat, ghost bs: seq<Block>, ghost j: nat)
      requires Represents(bs) && j < |bs| && bs[j].Payload() <= to < bs[j].End() && from < mem.Length
      modifies mem
      ensures Represents(bs) && to < mem.Length && mem[..] == old(mem[..])[to := old(mem[..])[from]]
    {
      hide Represents;
      StoreByte(to, mem[from], bs, j);
    }

    /** The copy loop of `krealloc`; the bound is read from the header in every turn. */
    method CopyBytes(block: nat, target: nat, ghost bs: seq<Block>, ghost i: nat, ghost j: nat)
      requires Represents(bs) && i < |bs| && j < |bs| && i != j
      requires block == bs[i].addr && target == bs[j].Payload() && bs[i].size <= bs[j].size
      modifies mem
      ensures Represents(bs) && Copied(old(mem[..]), block + HEADER_SIZE, mem[..], target, bs[i].size)
      ensures KeptOutside(old(mem[..]), mem[..], target, target + bs[i].size)
    {
      hide Represents, HeaderAt, Copied, KeptOutside;
      HeaderSays(bs, i);
      Distinct(bs, i, j);
      var source := block + HEADER_SIZE;
      var n: nat := 0;
      ghost var m0 := mem[..];
      CopyNothing(m0, source, target);
      while n < HeaderAt(block).size
        invariant Represents(bs) && HeaderAt(block).size == bs[i].size && n <= bs[i].size
        invariant Copied(m0, source, mem[..], target, n) && KeptOutside(m0, mem[..], target, target + n)
        decreases bs[i].size - n
      {
        ghost var m1 := mem[..];
        CopyByte(source + n, target + n, bs, j);
        CopyStep(m0, m1, source, target, n);
        HeaderSays(bs, i);
        n := n + 1;
      }
    }

    /** The walk of the three counters: it adds the sizes of the free blocks, of the live ones, or of both. */
    method SumSizes(head: nat, countFree: bool, countLive: bool, ghost bs: seq<Block>) returns (total: nat)
      requires Represents(bs) && head == (if bs == [] then 0 else bs[0].addr) && Total(bs) < TWO32
      ensures total == SumOf(bs, countFree, countLive)
    {
      hide Represents, HeaderAt, Total;
      SuffixEnds(bs);
      SumWithin(bs, countFree, countLive);
      ghost var k := 0;
      total := 0;
      var block := head;
      while block != 0
        invariant Represents(bs) && k <= |bs| && block == if k < |bs| then bs[k].addr else 0
        invariant total + SumOf(bs[k..], countFree, countLive) == SumOf(bs, countFree, countLive)
        decreases |bs| - k
      {
        HeaderSays(bs, k);
        SumStep(bs, k, countFree, countLive);
        if HeaderAt(block).magic != BLOCK_MAGIC {
          break;
        }
        if if HeaderAt(block).free != 0 then countFree else countLive {
          total := (total + HeaderAt(block).size) % TWO32;
        }
        block := HeaderAt(block).next;
        k := k + 1;
      }
      NoBlockAtNull(bs);
    }

    lemma NoBlockAtNull(bs: seq<Block>)
      requires Represents(bs)
      ensures forall k :: 0 <= k < |bs| ==> bs[k].addr != 0
    {
      hide HeaderAt;
    }

    /** `*(--sp) = w` inside the payload of block `j`: words at and above `sp` stay. */
    method PushWord(sp: nat, w: nat, ghost bs: seq<Block>, ghost j: nat) returns (newSp: nat)
      requires Represents(bs) && j < |bs| && bs[j].Payload() + 4 <= sp <= bs[j].End() && w < TWO32
      modifies mem
      ensures Represents(bs) && newSp == sp - 4 && sp <= mem.Length && Word(newSp) == w
      ensures forall a: nat :: sp <= a && a + 4 <= mem.Length ==> Word(a) == old(Word(a))
      ensures forall a :: 0 <= a < mem.Length && !(newSp <= a < sp) ==> mem[a] == old(mem[a])
    {
      hide Represents;
      Inside(bs, j);
      newSp := sp - 4;
      StoreWord(newSp, w);
      PayloadWordKeeps(newSp, bs, j);
    }

    twostate lemma PayloadWordKeeps(new a: nat, new bs: seq<Block>, new i: nat)
      requires old(Represents(bs)) && i < |bs| && bs[i].Payload() <= a && a + 4 <= bs[i].End()
      requires forall k :: 0 <= k < mem.Length && !(a <= k < a + 4) ==> mem[k] == old(mem[k])
      ensures Represents(bs)
    {
      hide HeaderAt, HeaderOf;
      forall j | 0 <= j < |bs| ensures HeaderAt(bs[j].addr) == old(HeaderAt(bs[j].addr)) {
        assert j < i ==> bs[j].End() <= bs[i].addr;
        assert i < j ==> bs[i].End() <= bs[j].addr;
        HeaderKept(bs[j].addr);
      }
    }
  }
}
