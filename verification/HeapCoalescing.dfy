/** Splitting and coalescing undo each other; when adjacent free blocks can arise. */
module HeapCoalescing {
  import opened Word32
  import opened HeapSpec
  import opened HeapLaws

  /** No two neighbours are both free. */
  ghost predicate Coalesced(bs: seq<Block>) {
    forall i, j :: 0 <= i && j == i + 1 && j < |bs| ==> !(bs[i].free && bs[j].free)
  }

  lemma CoalescedConcat(xs: seq<Block>, ys: seq<Block>)
    ensures Coalesced(xs + ys) <==>
            Coalesced(xs) && Coalesced(ys) && !(xs != [] && ys != [] && xs[|xs| - 1].free && ys[0].free)
  {
    var zs := xs + ys;
    if Coalesced(zs) {
      forall i, j | 0 <= i && j == i + 1 && j < |xs| ensures !(xs[i].free && xs[j].free) {
        assert zs[i] == xs[i] && zs[j] == xs[j];
      }
      forall i, j | 0 <= i && j == i + 1 && j < |ys| ensures !(ys[i].free && ys[j].free) {
        assert zs[|xs| + i] == ys[i] && zs[|xs| + j] == ys[j];
      }
      if xs != [] && ys != [] {
        assert zs[|xs| - 1] == xs[|xs| - 1] && zs[|xs|] == ys[0];
      }
    }
  }

  /** Neighbours of a stretch: the last block before it and the first block behind it. */
  lemma CoalescedSplice(pre: seq<Block>, mid: seq<Block>, post: seq<Block>)
    requires mid != []
    ensures Coalesced(pre + mid + post) <==>
            && Coalesced(pre) && Coalesced(mid) && Coalesced(post)
            && !(pre != [] && pre[|pre| - 1].free && mid[0].free)
            && !(post != [] && mid[|mid| - 1].free && post[0].free)
  {
    CoalescedConcat(pre, mid);
    CoalescedConcat(pre + mid, post);
  }

  // ----- kfree undoes kmalloc -----

  /**
   The block before is not free, and the block behind is not free either unless a
   remainder is split off in front of it.
   */
  predicate Secluded(bs: seq<Block>, i: nat, required: nat)
    requires i < |bs|
  {
    && !(0 < i && bs[i - 1].free)
    && !(i + 1 < |bs| && bs[i + 1].free && !Splits(bs[i], required))
  }

  /** Releasing what was just taken restores the list, unless a neighbour was free already. */
  lemma ReleaseUndoesTake(bs: seq<Block>, i: nat, required: nat)
    requires i < |bs| && Fits(bs[i], required)
    ensures Release(Take(bs, i, required), i) == bs <==> Secluded(bs, i, required)
  {
    hide Take, MergeNext, Splits;
    TakeLeaves(bs, i, required);
    var merged := MergeNext(Mark(Take(bs, i, required), i, true), i);
    if Splits(bs[i], required) {
      MergeUndoesSplit(bs, i, required);
    } else {
      MarkUndoesTake(bs, i, required);
      MergeChanges(bs, i);
    }
    if 0 < i {
      MergeLeaves(bs, i);
      if bs[i - 1].free { MergeShortens(merged, i - 1); }
    }
  }

  lemma TakeLeaves(bs: seq<Block>, i: nat, required: nat)
    requires i < |bs|
    ensures i < |Take(bs, i, required)| && (0 < i ==> Take(bs, i, required)[i - 1] == bs[i - 1])
  {}

  /** The remainder that was split off is absorbed again. */
  lemma MergeUndoesSplit(bs: seq<Block>, i: nat, required: nat)
    requires i < |bs| && bs[i].free && Splits(bs[i], required)
    ensures var taken := Take(bs, i, required); i < |taken| && MergeNext(Mark(taken, i, true), i) == bs
  {
    var merged := MergeNext(Mark(Take(bs, i, required), i, true), i);
    assert merged == bs[..i] + [bs[i]] + bs[i + 1..] == bs;
  }

  lemma MarkUndoesTake(bs: seq<Block>, i: nat, required: nat)
    requires i < |bs| && bs[i].free && !Splits(bs[i], required)
    ensures var taken := Take(bs, i, required); i < |taken| && Mark(taken, i, true) == bs
  {}

  lemma MergeChanges(bs: seq<Block>, i: nat)
    requires i < |bs|
    ensures MergeNext(bs, i) == bs <==> !(i + 1 < |bs| && bs[i + 1].free)
    ensures |MergeNext(bs, i)| <= |bs|
  {}

  lemma MergeLeaves(bs: seq<Block>, i: nat)
    requires i < |bs|
    ensures i < |MergeNext(bs, i)| && MergeNext(bs, i)[i].free == bs[i].free && |MergeNext(bs, i)| <= |bs|
  {}

  lemma MergeShortens(bs: seq<Block>, i: nat)
    requires i + 1 < |bs| && bs[i + 1].free
    ensures |MergeNext(bs, i)| < |bs|
  {}

  /** The heap from which the request is finally served. */
  function Served(s: State, size: nat): State
    requires 0 < size <= MAX_REQUEST
  {
    if FirstFit(s.blocks, BlockSize(size), 0) < |s.blocks| then s else Grow(s, BlockSize(size)).0
  }

  lemma GrowCoalesced(s: State, required: nat)
    requires Coalesced(s.blocks) && 0 < required <= MAX_REQUEST
    ensures Coalesced(Grow(s, required).0.blocks)
  {
    var bs := s.blocks;
    var g := Grow(s, required).0.blocks;
    if bs != [] && |g| > |bs| {
      CoalescedConcat(bs, [g[|bs|]]);
    }
  }

  /**
   `kfree(kmalloc(n))` in any heap: the heap from which the request was served comes
   back exactly when the block that served it had no free neighbour left to be merged;
   the original heap, exactly when the heap did not grow either.
   */
  lemma FreeRestores(s: State, size: nat)
    requires Inv(s) && 0 < size <= MAX_REQUEST && Alloc(s, size).1 != 0
    ensures var (t, ptr) := Alloc(s, size);
            var g := Served(s, size);
            var j := FirstFit(g.blocks, BlockSize(size), 0);
            j < |g.blocks| && (Free(t, ptr) == g <==> Secluded(g.blocks, j, BlockSize(size)))
    ensures var (t, ptr) := Alloc(s, size);
            var i := FirstFit(s.blocks, BlockSize(size), 0);
            Free(t, ptr) == s <==> i < |s.blocks| && Secluded(s.blocks, i, BlockSize(size))
  {
    hide Tiled, Live, FirstFit, SplitAt, MergeNext, Release, Take, AlignUp32, Secluded;
    var required := BlockSize(size);
    var (t, ptr) := Alloc(s, size);
    var g := Served(s, size);
    if FirstFit(s.blocks, required, 0) == |s.blocks| {
      GrowKeeps(s, required);
    }
    var j := FirstFit(g.blocks, required, 0);
    TakeKeeps(g.blocks, j, required);
    LiveIndexAt(t.blocks, j);
    ReleaseUndoesTake(g.blocks, j, required);
    AllocGrants(s, size);
    FreeReleases(t, ptr);
  }

  /** `kfree(kmalloc(n))` restores the heap from which the request was served if no two free blocks were neighbours. */
  lemma FreeUndoesAlloc(s: State, size: nat)
    requires Inv(s) && Coalesced(s.blocks) && 0 < size <= MAX_REQUEST && Alloc(s, size).1 != 0
    ensures var (t, ptr) := Alloc(s, size); Free(t, ptr) == Served(s, size)
    ensures var (t, ptr) := Alloc(s, size);
            Free(t, ptr) == s <==> FirstFit(s.blocks, BlockSize(size), 0) < |s.blocks|
  {
    hide Tiled, Live, FirstFit, Alloc, Free, Grow, Coalesced, BlockSize;
    var required := BlockSize(size);
    GrowCoalesced(s, required);
    FreeRestores(s, size);
    var g := Served(s, size);
    Neighbours(g.blocks, FirstFit(g.blocks, required, 0));
  }

  /** A request that makes the heap grow: `kfree` gives back one free block, but a longer one than before. */
  lemma GrowthIsNotUndone(start: nat)
    requires 0 < start && start % ALLOC_ALIGN == 0 && start + HEADER_SIZE + MIN_SPLIT_PAYLOAD < IDENTITY_MAP_LIMIT
    ensures var s := Initial(start);
            var (t, ptr) := Alloc(s, 0x0040_0000);
            var added := AlignUp32(start + HEADER_SIZE, PAGE_SIZE);
            && ptr != 0 && 0 < added
            && Free(t, ptr) == State([s.blocks[0].(size := s.blocks[0].size + added)], s.mapped + added) != s
  {
    hide AlignUp32, BlockSize, GrowthBytes, Initial, Inv, Alloc, Free;
    var s := Initial(start);
    InitialIs(start);
    InitialInv(start);
    var required := BlockSize(0x0040_0000);
    assert required == 0x0040_0000;
    GrowthBytesIs(s.blocks[0], required);
    AllocNull(s, 0x0040_0000);
    FreeUndoesAlloc(s, 0x0040_0000);
  }

  lemma Neighbours(bs: seq<Block>, i: nat)
    requires Coalesced(bs) && i < |bs| && bs[i].free
    ensures 0 < i ==> !bs[i - 1].free
    ensures i + 1 < |bs| ==> !bs[i + 1].free
  {
    if 0 < i {
      var k := i - 1;
      assert k + 1 == i;
    }
  }

  // ----- which operations keep the list coalesced -----

  lemma CoalescedShort(b: Block, c: Block)
    ensures Coalesced([b])
    ensures Coalesced([b, c]) <==> !(b.free && c.free)
  {
    var bs := [b, c];
    var i, j := 0, 1;
    assert Coalesced(bs) ==> j == i + 1 && !(bs[i].free && bs[j].free);
  }

  lemma TakeCoalesced(bs: seq<Block>, i: nat, required: nat)
    requires Coalesced(bs) && i < |bs| && bs[i].free
    ensures Coalesced(Take(bs, i, required))
  {
    hide Coalesced;
    var b := bs[i];
    Neighbours(bs, i);
    Around(bs, i, 1);
    CoalescedSplice(bs[..i], bs[i..i + 1], bs[i + 1..]);
    if Splits(b, required) {
      var rest := Block(b.Payload() + required, b.size - required - HEADER_SIZE, true);
      var mid := [Block(b.addr, required, false), rest];
      CoalescedShort(mid[0], mid[1]);
      CoalescedSplice(bs[..i], mid, bs[i + 1..]);
      assert Take(bs, i, required) == bs[..i] + mid + bs[i + 1..];
    } else {
      var mid := [b.(free := false)];
      CoalescedShort(mid[0], mid[0]);
      CoalescedSplice(bs[..i], mid, bs[i + 1..]);
      assert Take(bs, i, required) == bs[..i] + mid + bs[i + 1..];
    }
  }

  /** The stretch of the list that `Release` melts into one free block. */
  lemma ReleaseShape(bs: seq<Block>, i: nat)
    requires i < |bs| && !bs[i].free
    ensures var lo := if 0 < i && bs[i - 1].free then i - 1 else i;
            var hi := if i + 1 < |bs| && bs[i + 1].free then i + 2 else i + 1;
            var cs := Release(bs, i);
            lo < |cs| && cs[lo].free && cs == bs[..lo] + [cs[lo]] + bs[hi..]
  {
    var marked := Mark(bs, i, true);
    var hi := if i + 1 < |bs| && bs[i + 1].free then i + 2 else i + 1;
    var merged := MergeNext(marked, i);
    assert merged == bs[..i] + [merged[i]] + bs[hi..];
  }

  lemma ReleaseCoalesced(bs: seq<Block>, i: nat)
    requires Coalesced(bs) && i < |bs| && !bs[i].free
    ensures Coalesced(Release(bs, i))
  {
    hide Release;
    var lo := if 0 < i && bs[i - 1].free then i - 1 else i;
    var hi := if i + 1 < |bs| && bs[i + 1].free then i + 2 else i + 1;
    if lo < i { Neighbours(bs, lo); }
    if i + 1 < hi { Neighbours(bs, i + 1); }
    hide Coalesced;
    ReleaseShape(bs, i);
    var cs := Release(bs, i);
    Around(bs, lo, hi - lo);
    CoalescedShort(cs[lo], cs[lo]);
    CoalescedSplice(bs[..lo], bs[lo..hi], bs[hi..]);
    CoalescedSplice(bs[..lo], [cs[lo]], bs[hi..]);
  }

  lemma AllocCoalesced(s: State, size: nat)
    requires Inv(s) && Coalesced(s.blocks) && size <= MAX_REQUEST
    ensures Coalesced(Alloc(s, size).0.blocks)
  {
    hide Tiled, FirstFit, Take, Coalesced;
    if size != 0 && s.blocks != [] {
      var required := BlockSize(size);
      GrowCoalesced(s, required);
      if FirstFit(s.blocks, required, 0) == |s.blocks| {
        GrowKeeps(s, required);
      }
      var g := Served(s, size);
      var j := FirstFit(g.blocks, required, 0);
      if j < |g.blocks| { TakeCoalesced(g.blocks, j, required); }
    }
  }

  lemma FreeCoalesced(s: State, ptr: nat)
    requires Coalesced(s.blocks)
    ensures Coalesced(Free(s, ptr).blocks)
  {
    var i := LiveIndex(s.blocks, ptr, 0);
    if i < |s.blocks| { ReleaseCoalesced(s.blocks, i); }
  }

  /** A shrinking `krealloc` whose split-off remainder lands in front of a free block. */
  predicate LeavesGap(s: State, ptr: nat, size: nat)
    requires size <= MAX_REQUEST
  {
    var i := LiveIndex(s.blocks, ptr, 0);
    && ptr != 0 && size != 0 && i + 1 < |s.blocks|
    && BlockSize(size) <= s.blocks[i].size && Splits(s.blocks[i], BlockSize(size)) && s.blocks[i + 1].free
  }

  lemma SplitLiveCoalesced(bs: seq<Block>, i: nat, required: nat)
    requires Coalesced(bs) && i < |bs| && !bs[i].free
    ensures Coalesced(SplitAt(bs, i, required)) <==> !(Splits(bs[i], required) && i + 1 < |bs| && bs[i + 1].free)
  {
    var cs := SplitAt(bs, i, required);
    Around(bs, i, 1);
    CoalescedSplice(bs[..i], bs[i..i + 1], bs[i + 1..]);
    if Splits(bs[i], required) {
      CoalescedSplice(bs[..i], cs[i..i + 2], bs[i + 1..]);
      assert cs == bs[..i] + cs[i..i + 2] + bs[i + 1..];
    }
  }

  lemma MergeLiveCoalesced(bs: seq<Block>, i: nat)
    requires Coalesced(bs) && i + 1 < |bs| && !bs[i].free && bs[i + 1].free
    ensures var cs := MergeNext(bs, i);
            i < |cs| && Coalesced(cs) && !cs[i].free && (i + 1 < |cs| ==> !cs[i + 1].free)
  {
    var cs := MergeNext(bs, i);
    Neighbours(bs, i + 1);
    Around(bs, i, 2);
    CoalescedSplice(bs[..i], bs[i..i + 2], bs[i + 2..]);
    CoalescedSplice(bs[..i], [cs[i]], bs[i + 2..]);
    assert cs == bs[..i] + [cs[i]] + bs[i + 2..];
  }

  /** `krealloc` keeps the list coalesced exactly when it does not leave such a gap. */
  lemma ReallocCoalesced(s: State, ptr: nat, size: nat)
    requires Inv(s) && Coalesced(s.blocks) && size <= MAX_REQUEST
    ensures Coalesced(Realloc(s, ptr, size).0.blocks) <==> !LeavesGap(s, ptr, size)
  {
    hide Tiled, FirstFit, Coalesced, SplitAt, MergeNext, Alloc, Free;
    var bs := s.blocks;
    AllocCoalesced(s, size);
    FreeCoalesced(s, ptr);
    var i := LiveIndex(bs, ptr, 0);
    if ptr != 0 && size != 0 && i < |bs| {
      var required := BlockSize(size);
      if required <= bs[i].size {
        SplitLiveCoalesced(bs, i, required);
      } else if GrowsInPlace(bs, i, required) {
        MergeLiveCoalesced(bs, i);
        SplitLiveCoalesced(MergeNext(bs, i), i, required);
      } else {
        AllocCoalesced(s, required);
        FreeCoalesced(Alloc(s, required).0, ptr);
      }
    }
  }

  lemma FirstTwo(bs: seq<Block>)
    requires Coalesced(bs)
    ensures |bs| > 1 ==> !(bs[0].free && bs[1].free)
  {
    var i, j := 0, 1;
    assert j == i + 1;
  }

  /** A coalesced heap in which every block has been freed is a single free block. */
  lemma AllFreeIsOneBlock(bs: seq<Block>)
    requires Tiled(bs) && bs != [] && Coalesced(bs) && Live(bs) == {}
    ensures |bs| == 1 && bs[0].free && bs[0].size == Brk(bs) - bs[0].addr - HEADER_SIZE
  {
    FirstTwo(bs);
    assert forall k :: 0 <= k < |bs| && !bs[k].free ==> bs[k] in Live(bs);
  }
}
