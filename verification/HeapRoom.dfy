/** When a request finds room: null answers, growth and moves in terms of addresses alone. */
module HeapRoom {
  import opened Word32
  import opened HeapSpec
  import opened HeapLaws
  import opened HeapCoalescing

  /** Where the heap's last free stretch begins: at the last block if it is free, behind it otherwise. */
  function TailStart(bs: seq<Block>): nat
    requires bs != []
  {
    var tail := bs[|bs| - 1];
    if tail.free then tail.addr else tail.End()
  }

  /** Some free block has the rounded size. */
  ghost predicate HasFit(s: State, size: nat)
    requires 0 < size <= MAX_REQUEST
  {
    exists b :: b in s.blocks && b.free && b.size >= BlockSize(size)
  }

  /** With `more` bytes mapped behind the heap its last free stretch holds a header and the rounded size. */
  predicate ReachedWith(s: State, size: nat, more: int)
    requires 0 < size <= MAX_REQUEST && s.blocks != []
  {
    TailStart(s.blocks) + HEADER_SIZE + BlockSize(size) <= Brk(s.blocks) + more
  }

  /** `kmalloc` has nothing to give: no free block fits, and all the pages up to the limit would not do. */
  ghost predicate NoRoom(s: State, size: nat)
    requires 0 < size <= MAX_REQUEST
  {
    s.blocks == [] || (!HasFit(s, size) && !ReachedWith(s, size, HEAP_VIRT_LIMIT - s.mapped))
  }

  lemma FitIsFound(s: State, size: nat)
    requires 0 < size <= MAX_REQUEST
    ensures HasFit(s, size) <==> FirstFit(s.blocks, BlockSize(size), 0) < |s.blocks|
  {
    hide BlockSize;
    var i := FirstFit(s.blocks, BlockSize(size), 0);
    if i < |s.blocks| {
      assert s.blocks[i] in s.blocks;
    }
    if HasFit(s, size) {
      var b :| b in s.blocks && b.free && b.size >= BlockSize(size);
      var k :| 0 <= k < |s.blocks| && s.blocks[k] == b;
      assert Fits(s.blocks[k], BlockSize(size));
    }
  }

  /** Growth adds the least number of pages that will do. */
  lemma LeastGrowth(s: State, size: nat)
    requires Inv(s) && s.blocks != [] && 0 < size <= MAX_REQUEST && !HasFit(s, size)
    ensures var tail := s.blocks[|s.blocks| - 1];
            && !Fits(tail, BlockSize(size))
            && var added := GrowthBytes(tail, BlockSize(size));
            && ReachedWith(s, size, added) && !ReachedWith(s, size, added - PAGE_SIZE)
            && (s.mapped + added <= HEAP_VIRT_LIMIT <==> ReachedWith(s, size, HEAP_VIRT_LIMIT - s.mapped))
  {
    hide Tiled, BlockSize, GrowthBytes, AlignUp32;
    var tail := s.blocks[|s.blocks| - 1];
    var required := BlockSize(size);
    assert tail in s.blocks;
    var added := GrowthBytes(tail, required);
    GrowthBytesIs(tail, required);
    assert ReachedWith(s, size, added) && !ReachedWith(s, size, added - PAGE_SIZE);
    PagesBetween(added, HEAP_VIRT_LIMIT - s.mapped);
  }

  /** Of two whole numbers of pages, one is not above the other or at least a page above it. */
  lemma PagesBetween(a: nat, b: nat)
    requires a % PAGE_SIZE == 0 && b % PAGE_SIZE == 0
    ensures a <= b || a - PAGE_SIZE >= b
  {}

  /** `kmalloc` answers null if and only if nothing is asked for or there is no room, up to the limit. */
  lemma AllocNullRoom(s: State, size: nat)
    requires Inv(s) && size <= MAX_REQUEST
    ensures Alloc(s, size).1 == 0 <==> size == 0 || NoRoom(s, size)
  {
    hide Tiled, Alloc, BlockSize, GrowthBytes, HasFit, ReachedWith;
    AllocNull(s, size);
    if size != 0 && s.blocks != [] {
      FitIsFound(s, size);
      if !HasFit(s, size) { LeastGrowth(s, size); }
    }
  }

  /**
   When no free block fits, the block granted lies at the end of the heap, and of the
   pages mapped for it the last one was needed.
   */
  lemma AllocGrowsLeast(s: State, size: nat)
    requires Inv(s) && 0 < size <= MAX_REQUEST && Alloc(s, size).1 != 0 && !HasFit(s, size)
    ensures var (t, ptr) := Alloc(s, size);
            && ptr == TailStart(s.blocks) + HEADER_SIZE
            && s.mapped < t.mapped
            && ReachedWith(s, size, t.mapped - s.mapped) && !ReachedWith(s, size, t.mapped - s.mapped - PAGE_SIZE)
  {
    hide Tiled, BlockSize, GrowthBytes, HasFit, ReachedWith, Take;
    FitIsFound(s, size);
    LeastGrowth(s, size);
    AllocNull(s, size);
    GrowKeeps(s, BlockSize(size));
  }

  /** `kcalloc` answers null if and only if the product is 0, does not fit 32 bits, or finds no room. */
  lemma CallocNull(s: State, count: nat, size: nat)
    requires Inv(s) && (count * size <= MAX_REQUEST || count * size >= TWO32)
    ensures Calloc(s, count, size).1 == 0 <==> count * size == 0 || count * size >= TWO32 || NoRoom(s, count * size)
    ensures Calloc(s, count, size).1 != 0 ==> Calloc(s, count, size) == Alloc(s, count * size)
  {
    hide Alloc, Inv, NoRoom;
    if count * size < TWO32 { AllocNullRoom(s, count * size); }
  }

  // ----- krealloc: when a block stays where it is -----

  /** The end of the block at index `i`, or of the free block behind it. */
  function RoomEnd(bs: seq<Block>, i: nat): nat
    requires i < |bs|
  {
    if i + 1 < |bs| && bs[i + 1].free then bs[i + 1].End() else bs[i].End()
  }

  /** `krealloc` keeps the pointer if and only if the rounded size ends by the end of the free block behind. */
  lemma ReallocStays(s: State, ptr: nat, size: nat)
    requires Inv(s) && IsLive(s.blocks, ptr) && 0 < size <= MAX_REQUEST
    ensures Realloc(s, ptr, size).1 == ptr <==>
            ptr + BlockSize(size) <= RoomEnd(s.blocks, LiveIndex(s.blocks, ptr, 0))
  {
    hide Tiled, BlockSize, Alloc, Free, LiveIndex, SplitAt, MergeNext;
    var i := LiveIndex(s.blocks, ptr, 0);
    var required := BlockSize(size);
    BehindLies(s, i);
    if s.blocks[i].size < required && !GrowsInPlace(s.blocks, i, required) {
      AllocNull(s, required);
      if Alloc(s, required).1 != 0 { ResizedByMove(s, i, required); }
    }
  }

  lemma BehindLies(s: State, i: nat)
    requires Inv(s) && i < |s.blocks|
    ensures i + 1 < |s.blocks| ==> s.blocks[i + 1].addr == s.blocks[i].End()
    ensures s.blocks[i].Payload() != 0
  {
    var j := i + 1;
    assert j < |s.blocks| ==> s.blocks[j].addr == s.blocks[i].End();
  }

  /** `krealloc` answers null if and only if nothing is asked for, nothing is live there, or it must move and cannot. */
  lemma ReallocNull(s: State, ptr: nat, size: nat)
    requires Inv(s) && size <= MAX_REQUEST
    ensures Realloc(s, ptr, size).1 == 0 <==>
            || size == 0
            || (ptr == 0 && NoRoom(s, size))
            || (ptr != 0 && !IsLive(s.blocks, ptr))
            || (ptr != 0 && ptr + BlockSize(size) > RoomEnd(s.blocks, LiveIndex(s.blocks, ptr, 0)) && NoRoom(s, size))
  {
    hide Tiled, BlockSize, Alloc, Free, SplitAt, MergeNext, NoRoom, LiveIndex, FirstFit;
    AllocNullRoom(s, size);
    if ptr != 0 && size != 0 && IsLive(s.blocks, ptr) {
      var i := LiveIndex(s.blocks, ptr, 0);
      BehindLies(s, i);
      ReallocStays(s, ptr, size);
      AllocNullRoom(s, BlockSize(size));
      SameRoom(s, size);
      if Realloc(s, ptr, size).1 != ptr { ReallocMoves(s, ptr, size); }
    }
  }

  lemma ReallocMoves(s: State, ptr: nat, size: nat)
    requires Inv(s) && IsLive(s.blocks, ptr) && ptr != 0 && 0 < size <= MAX_REQUEST && Realloc(s, ptr, size).1 != ptr
    ensures Realloc(s, ptr, size).1 == Alloc(s, BlockSize(size)).1
  {
    hide Tiled, BlockSize, Alloc, Free, SplitAt, MergeNext, LiveIndex;
  }

  lemma SameRoom(s: State, size: nat)
    requires 0 < size <= MAX_REQUEST
    ensures NoRoom(s, BlockSize(size)) <==> NoRoom(s, size)
  {
    hide BlockSize;
    BlockSizeTwice(size);
  }

  /** No other live block begins in the `n` bytes at the payload of `b`, and the heap does not end in them. */
  ghost predicate FreeFor(bs: seq<Block>, b: Block, n: nat)
    requires bs != []
  {
    && b.Payload() + n <= Brk(bs)
    && forall c :: c in Live(bs) ==> c.addr <= b.addr || b.Payload() + n <= c.addr
  }

  /**
   In a heap without adjacent free blocks `krealloc` moves a block only when it must: the
   pointer stays if and only if no other live block, nor the end of the heap, is in the way.
   */
  lemma ReallocMovesLast(s: State, ptr: nat, size: nat)
    requires Inv(s) && Coalesced(s.blocks) && IsLive(s.blocks, ptr) && 0 < size <= MAX_REQUEST
    ensures Realloc(s, ptr, size).1 == ptr <==>
            FreeFor(s.blocks, s.blocks[LiveIndex(s.blocks, ptr, 0)], BlockSize(size))
  {
    hide Tiled, Coalesced, BlockSize, Realloc, LiveIndex, FreeFor, Brk;
    ReallocStays(s, ptr, size);
    RoomIsFree(s, LiveIndex(s.blocks, ptr, 0), BlockSize(size));
  }

  lemma RoomIsFree(s: State, i: nat, n: nat)
    requires Inv(s) && Coalesced(s.blocks) && i < |s.blocks| && !s.blocks[i].free && 0 < n
    ensures FreeFor(s.blocks, s.blocks[i], n) <==> s.blocks[i].Payload() + n <= RoomEnd(s.blocks, i)
  {
    hide Tiled, Coalesced;
    var bs := s.blocks;
    var end := RoomEnd(bs, i);
    var k := if i + 1 < |bs| && bs[i + 1].free then i + 1 else i;
    Within(bs, k);
    BehindLies(s, i);
    BehindLies(s, k);
    if k + 1 < |bs| {
      if k > i { Neighbours(bs, k); }
      assert bs[k + 1] in Live(bs);
      Within(bs, k + 1);
    }
    forall c | c in Live(bs) ensures c.addr <= bs[i].addr || end <= c.addr {
      var j :| 0 <= j < |bs| && bs[j] == c;
      if j < i { Ordered(bs, j, i); }
      if k < j { Ordered(bs, k, j); }
    }
  }
}
