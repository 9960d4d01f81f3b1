/** What the operations on the block list keep and what they do. */
module HeapLaws {
  import opened Word32
  import opened HeapSpec

  // ----- tiled lists: concatenation, order, replacement of a stretch -----

  ghost predicate Joins(xs: seq<Block>, bs: seq<Block>) {
    xs != [] && bs != [] ==> bs[0].addr == Brk(xs)
  }

  lemma TiledConcat(xs: seq<Block>, bs: seq<Block>)
    ensures Tiled(xs + bs) <==> Tiled(xs) && Tiled(bs) && Joins(xs, bs)
  {
    var cs := xs + bs;
    if Tiled(cs) {
      assert forall b :: b in xs ==> b in cs;
      assert forall b :: b in bs ==> b in cs;
      forall i, j | 0 <= i && j == i + 1 && j < |xs| ensures xs[j].addr == xs[i].End() {
        assert cs[i] == xs[i] && cs[j] == xs[j];
      }
      forall i, j | 0 <= i && j == i + 1 && j < |bs| ensures bs[j].addr == bs[i].End() {
        assert cs[|xs| + i] == bs[i] && cs[|xs| + j] == bs[j];
      }
      if xs != [] && bs != [] {
        assert cs[|xs| - 1] == xs[|xs| - 1] && cs[|xs|] == bs[0];
      }
    }
  }

  lemma {:induction false} Ordered(bs: seq<Block>, i: nat, j: nat)
    requires Tiled(bs) && i < j < |bs|
    ensures bs[i].End() <= bs[j].addr
  {
    if i + 1 < j {
      Ordered(bs, i, j - 1);
      assert bs[j].addr == bs[j - 1].End();
    } else {
      assert bs[j].addr == bs[i].End();
    }
  }

  lemma Within(bs: seq<Block>, i: nat)
    requires Tiled(bs) && i < |bs|
    ensures bs[0].addr <= bs[i].addr && bs[i].End() <= Brk(bs) && MIN_SPLIT_PAYLOAD <= bs[i].size
    ensures bs[i].addr % ALLOC_ALIGN == 0 && bs[i].size % ALLOC_ALIGN == 0
  {
    assert bs[i] in bs;
    if 0 < i { Ordered(bs, 0, i); }
    if i + 1 < |bs| { Ordered(bs, i, |bs| - 1); }
  }

  /** Two blocks of a tiled list are the same block or lie apart, headers included. */
  lemma Apart(bs: seq<Block>, b: Block, c: Block)
    requires Tiled(bs) && b in bs && c in bs && b != c
    ensures b.End() <= c.addr || c.End() <= b.addr
  {
    var i :| 0 <= i < |bs| && bs[i] == b;
    var j :| 0 <= j < |bs| && bs[j] == c;
    if i < j { Ordered(bs, i, j); } else { Ordered(bs, j, i); }
  }

  lemma LiveIndexAt(bs: seq<Block>, i: nat)
    requires Tiled(bs) && i < |bs| && !bs[i].free
    ensures LiveIndex(bs, bs[i].Payload(), 0) == i
  {
    var k := LiveIndex(bs, bs[i].Payload(), 0);
    if k < i { Ordered(bs, k, i); }
  }

  lemma LiveSizeAt(bs: seq<Block>, ptr: nat)
    requires IsLive(bs, ptr)
    ensures LiveSize(bs, ptr) == bs[LiveIndex(bs, ptr, 0)].size
  {}

  lemma Around(bs: seq<Block>, i: nat, n: nat)
    requires i + n <= |bs|
    ensures bs == bs[..i] + bs[i..i + n] + bs[i + n..]
  {}

  lemma InitialIs(start: nat)
    requires start + HEADER_SIZE <= IDENTITY_MAP_LIMIT
    ensures Initial(start) == State([Block(start, IDENTITY_MAP_LIMIT - start - HEADER_SIZE, true)], IDENTITY_MAP_LIMIT)
  {}

  lemma InitialInv(start: nat)
    requires 0 < start && start % ALLOC_ALIGN == 0 && start + HEADER_SIZE + MIN_SPLIT_PAYLOAD < IDENTITY_MAP_LIMIT
    ensures Inv(Initial(start))
  {}

  // ----- replacing a stretch of the list -----

  ghost predicate SameRange(bs: seq<Block>, cs: seq<Block>) {
    && Tiled(cs)
    && (bs == [] <==> cs == [])
    && (bs != [] ==> cs[0].addr == bs[0].addr && Brk(cs) == Brk(bs))
  }

  /** A stretch may be replaced by any tiled list that covers the same range. */
  lemma SpliceTiled(pre: seq<Block>, mid: seq<Block>, mid': seq<Block>, post: seq<Block>)
    requires Tiled(pre + mid + post) && mid != [] && mid' != []
    requires Tiled(mid') && mid'[0].addr == mid[0].addr && Brk(mid') == Brk(mid)
    ensures SameRange(pre + mid + post, pre + mid' + post)
  {
    TiledConcat(pre + mid, post);
    TiledConcat(pre, mid);
    TiledConcat(pre, mid');
    TiledConcat(pre + mid', post);
  }

  lemma LiveConcat(xs: seq<Block>, bs: seq<Block>)
    ensures Live(xs + bs) == Live(xs) + Live(bs)
  {}

  lemma Disjoint(bs: seq<Block>, i: nat, b: Block)
    requires Tiled(bs) && i <= |bs|
    ensures !(b in bs[..i] && b in bs[i..])
  {
    if b in bs[..i] && b in bs[i..] {
      var k :| 0 <= k < i && bs[k] == b;
      var m :| i <= m < |bs| && bs[m] == b;
      Ordered(bs, k, m);
    }
  }

  /** Replacing a stretch of a tiled list exchanges the live blocks of the stretch. */
  lemma SpliceLive(pre: seq<Block>, mid: seq<Block>, mid': seq<Block>, post: seq<Block>)
    requires Tiled(pre + mid + post)
    ensures Live(pre + mid' + post) == Live(pre + mid + post) - Live(mid) + Live(mid')
  {
    var bs := pre + mid + post;
    forall b | b in mid ensures b !in pre && b !in post {
      hide Tiled, Live;
      Disjoint(bs, |pre|, b);
      assert bs[..|pre|] == pre && bs[|pre|..] == mid + post;
      Disjoint(bs, |pre + mid|, b);
      assert bs[..|pre + mid|] == pre + mid && bs[|pre + mid|..] == post;
    }
    assert Live(mid) !! Live(pre) + Live(post);
    hide Tiled, Live;
    LiveConcat(pre + mid, post);
    LiveConcat(pre, mid);
    LiveConcat(pre + mid', post);
    LiveConcat(pre, mid');
  }

  // ----- the three list steps -----

  function Own(b: Block): set<Block> {
    if b.free then {} else {b}
  }

  /** `cs` covers the range of `bs`; among live blocks only block `i` is exchanged. */
  ghost predicate Exchanges(bs: seq<Block>, cs: seq<Block>, i: nat) {
    && i < |bs| && i < |cs|
    && SameRange(bs, cs)
    && cs[i].addr == bs[i].addr
    && Live(cs) == Live(bs) - Own(bs[i]) + Own(cs[i])
  }

  lemma SpliceExchanges(bs: seq<Block>, i: nat, n: nat, mid: seq<Block>)
    requires Tiled(bs) && 0 < n && i + n <= |bs| && 0 < |mid|
    requires Tiled(mid) && mid[0].addr == bs[i].addr && Brk(mid) == bs[i + n - 1].End()
    requires forall k :: i < k < i + n ==> bs[k].free
    requires forall k :: 0 < k < |mid| ==> mid[k].free
    ensures Exchanges(bs, bs[..i] + mid + bs[i + n..], i)
  {
    hide Tiled, Live;
    Around(bs, i, n);
    SpliceTiled(bs[..i], bs[i..i + n], mid, bs[i + n..]);
    SpliceLive(bs[..i], bs[i..i + n], mid, bs[i + n..]);
    LiveHead(bs[i..i + n]);
    LiveHead(mid);
  }

  lemma LiveHead(bs: seq<Block>)
    requires bs != [] && forall k :: 0 < k < |bs| ==> bs[k].free
    ensures Live(bs) == Own(bs[0])
  {}

  lemma ExchangesItself(bs: seq<Block>, i: nat)
    requires Tiled(bs) && i < |bs|
    ensures Exchanges(bs, bs, i) && Tiled([bs[i]])
  {
    assert bs[i] in bs;
  }

  lemma SplitPair(b: Block, required: nat)
    requires Tiled([b]) && Splits(b, required) && required % ALLOC_ALIGN == 0 && 0 < required
    ensures Tiled([b.(size := required), Block(b.Payload() + required, b.size - required - HEADER_SIZE, true)])
  {
    assert b in [b];
  }

  lemma SplitExchanges(bs: seq<Block>, i: nat, required: nat)
    requires Tiled(bs) && i < |bs| && required % ALLOC_ALIGN == 0 && 0 < required
    ensures Exchanges(bs, SplitAt(bs, i, required), i)
  {
    hide Tiled, Live, SameRange;
    ExchangesItself(bs, i);
    if Splits(bs[i], required) {
      var b := bs[i];
      SplitPair(b, required);
      var rest := Block(b.Payload() + required, b.size - required - HEADER_SIZE, true);
      SpliceExchanges(bs, i, 1, [b.(size := required), rest]);
    }
  }

  lemma MarkExchanges(bs: seq<Block>, i: nat, free: bool)
    requires Tiled(bs) && i < |bs|
    ensures Exchanges(bs, Mark(bs, i, free), i)
  {
    var mid := [bs[i].(free := free)];
    assert bs[i] in bs;
    assert Mark(bs, i, free) == bs[..i] + mid + bs[i + 1..];
    SpliceExchanges(bs, i, 1, mid);
  }

  lemma MergeExchanges(bs: seq<Block>, i: nat)
    requires Tiled(bs) && i < |bs|
    ensures Exchanges(bs, MergeNext(bs, i), i)
  {
    hide Tiled, Live, SameRange;
    if i + 1 < |bs| && bs[i + 1].free {
      PairMerges(bs, i);
      SpliceExchanges(bs, i, 2, [bs[i].(size := bs[i].size + HEADER_SIZE + bs[i + 1].size)]);
    } else {
      ExchangesItself(bs, i);
    }
  }

  lemma PairMerges(bs: seq<Block>, i: nat)
    requires Tiled(bs) && i + 1 < |bs|
    ensures var merged := bs[i].(size := bs[i].size + HEADER_SIZE + bs[i + 1].size);
            Tiled([merged]) && merged.End() == bs[i + 1].End()
  {
    assert bs[i] in bs && bs[i + 1] in bs;
    var j := i + 1;
    assert bs[j].addr == bs[i].End();
  }

  /** A free block's address belongs to no live block. */
  lemma FreeAddress(bs: seq<Block>, i: nat, b: Block)
    requires Tiled(bs) && i < |bs| && bs[i].free && b.addr == bs[i].addr
    ensures b !in Live(bs)
  {
    if b in Live(bs) { Apart(bs, b, bs[i]); }
  }

  lemma TakeKeeps(bs: seq<Block>, i: nat, required: nat)
    requires Tiled(bs) && i < |bs| && Fits(bs[i], required) && required % ALLOC_ALIGN == 0 && 0 < required
    ensures Exchanges(bs, Take(bs, i, required), i)
    ensures var granted := Take(bs, i, required)[i];
            && !granted.free && granted !in Live(bs)
            && required <= granted.size < required + HEADER_SIZE + MIN_SPLIT_PAYLOAD
  {
    SplitExchanges(bs, i, required);
    MarkExchanges(SplitAt(bs, i, required), i, false);
    FreeAddress(bs, i, Take(bs, i, required)[i]);
  }

  lemma ReleaseKeeps(bs: seq<Block>, i: nat)
    requires Tiled(bs) && i < |bs| && !bs[i].free
    ensures SameRange(bs, Release(bs, i))
    ensures Live(Release(bs, i)) == Live(bs) - {bs[i]}
  {
    hide Tiled, Live;
    var marked := Mark(bs, i, true);
    MarkExchanges(bs, i, true);
    MergeExchanges(marked, i);
    if 0 < i && bs[i - 1].free {
      MergeExchanges(MergeNext(marked, i), i - 1);
    }
  }

  // ----- growth -----

  lemma PageAligned(n: nat)
    requires n % PAGE_SIZE == 0
    ensures n % ALLOC_ALIGN == 0 && (0 < n ==> PAGE_SIZE <= n)
  {
    assert n == 8 * (512 * (n / 4096));
  }

  lemma SumAligned(m: nat, n: nat)
    requires m % ALLOC_ALIGN == 0 && n % ALLOC_ALIGN == 0
    ensures (m + n) % ALLOC_ALIGN == 0
  {}

  lemma TiledOne(b: Block)
    requires b.addr % ALLOC_ALIGN == 0 && b.size % ALLOC_ALIGN == 0 && MIN_SPLIT_PAYLOAD <= b.size
    ensures Tiled([b])
  {}

  lemma EndAligned(b: Block, added: nat)
    requires b.addr % ALLOC_ALIGN == 0 && b.size % ALLOC_ALIGN == 0 && added % ALLOC_ALIGN == 0 && HEADER_SIZE <= added
    ensures b.End() % ALLOC_ALIGN == 0 && (added - HEADER_SIZE) % ALLOC_ALIGN == 0
  {}

  lemma OnlyFree(b: Block)
    requires b.free
    ensures Live([b]) == {}
  {}

  lemma GrowTail(bs: seq<Block>, added: nat)
    requires Tiled(bs) && bs != [] && bs[|bs| - 1].free && added % PAGE_SIZE == 0
    ensures var g := LongerTail(bs, added);
            Tiled(g) && Brk(g) == Brk(bs) + added && g[0].addr == bs[0].addr && Live(g) == Live(bs)
  {
    hide Tiled, Live;
    var n := |bs| - 1;
    var tail := bs[n];
    var mid := [tail.(size := tail.size + added)];
    PageAligned(added);
    Within(bs, n);
    SumAligned(tail.size, added);
    TiledOne(mid[0]);
    OnlyFree(tail);
    OnlyFree(mid[0]);
    assert bs == bs[..n] + [tail] && LongerTail(bs, added) == bs[..n] + mid;
    TiledConcat(bs[..n], [tail]);
    TiledConcat(bs[..n], mid);
    LiveConcat(bs[..n], [tail]);
    LiveConcat(bs[..n], mid);
  }

  lemma GrowNew(bs: seq<Block>, added: nat)
    requires Tiled(bs) && bs != [] && added % PAGE_SIZE == 0 && 0 < added
    ensures PAGE_SIZE <= added
    ensures var g := NewTail(bs, added - HEADER_SIZE);
            Tiled(g) && Brk(g) == Brk(bs) + added && g[0].addr == bs[0].addr && Live(g) == Live(bs)
  {
    hide Tiled, Live;
    PageAligned(added);
    var mid := [Block(Brk(bs), added - HEADER_SIZE, true)];
    Within(bs, |bs| - 1);
    EndAligned(bs[|bs| - 1], added);
    TiledOne(mid[0]);
    OnlyFree(mid[0]);
    TiledConcat(bs, mid);
    LiveConcat(bs, mid);
  }

  lemma GrowthBytesIs(tail: Block, required: nat)
    requires 0 < required <= MAX_REQUEST && !Fits(tail, required)
    ensures GrowthBytes(tail, required) == AlignUp32(Shortfall(tail, required), PAGE_SIZE)
    ensures Shortfall(tail, required) == if tail.free then required - tail.size else required + HEADER_SIZE
  {}

  /** After growth the tail is the only block that fits. */
  lemma GrownFit(bs: seq<Block>, g: seq<Block>, required: nat)
    requires bs != [] && FirstFit(bs, required, 0) == |bs|
    requires |bs| <= |g| <= |bs| + 1 && Fits(g[|g| - 1], required)
    requires forall k :: 0 <= k < |g| - 1 ==> g[k] == bs[k]
    ensures FirstFit(g, required, 0) == |g| - 1
  {
    assert forall k :: 0 <= k < |g| - 1 ==> !Fits(g[k], required);
  }

  lemma GrowKeeps(s: State, required: nat)
    requires Inv(s) && s.blocks != [] && 0 < required <= MAX_REQUEST
    ensures var (g, ok) := Grow(s, required);
            && Inv(g) && g.blocks != [] && g.blocks[0].addr == s.blocks[0].addr && s.mapped <= g.mapped
            && Live(g.blocks) == Live(s.blocks)
            && (!ok ==> g.blocks == s.blocks)
    ensures var (g, ok) := Grow(s, required);
            FirstFit(s.blocks, required, 0) == |s.blocks| ==>
              && !Fits(s.blocks[|s.blocks| - 1], required)
              && (ok <==> s.mapped + GrowthBytes(s.blocks[|s.blocks| - 1], required) <= HEAP_VIRT_LIMIT)
              && (ok ==> FirstFit(g.blocks, required, 0) == |g.blocks| - 1 && Brk(g.blocks) > Brk(s.blocks))
  {
    hide Tiled, Live, FirstFit, GrowthBytes, AlignUp32;
    var bs := s.blocks;
    var tail := bs[|bs| - 1];
    if !Fits(tail, required) {
      var added := GrowthBytes(tail, required);
      if s.mapped + added <= HEAP_VIRT_LIMIT {
        if tail.free { GrowTail(bs, added); } else { GrowNew(bs, added); }
        if FirstFit(bs, required, 0) == |bs| {
          GrownFit(bs, Grow(s, required).0.blocks, required);
        }
      }
    }
  }

  // ----- kmalloc -----

  lemma BlockSizeIs(size: nat)
    requires 0 < size <= MAX_REQUEST
    ensures BlockSize(size) == AlignUp32(size, ALLOC_ALIGN)
  {}

  lemma BlockSizeTwice(size: nat)
    requires 0 < size <= MAX_REQUEST
    ensures BlockSize(BlockSize(size)) == BlockSize(size)
  {
    hide BlockSize, AlignUp32;
  }

  /** No block fits and the pages that growth would need pass the limit. */
  ghost predicate Exhausted(s: State, required: nat)
    requires 0 < required <= MAX_REQUEST
  {
    && s.blocks != []
    && FirstFit(s.blocks, required, 0) == |s.blocks|
    && s.mapped + GrowthBytes(s.blocks[|s.blocks| - 1], required) > HEAP_VIRT_LIMIT
  }

  /**
   `kmalloc` answers null exactly when asked for nothing, not initialised, or out of
   space; out of space, the mapping has moved to the limit and nothing else has changed.
   */
  lemma AllocNull(s: State, size: nat)
    requires Inv(s) && size <= MAX_REQUEST
    ensures Alloc(s, size).1 == 0 <==> size == 0 || s.blocks == [] || Exhausted(s, BlockSize(size))
    ensures Alloc(s, size).1 == 0 ==>
              && Alloc(s, size).0 == (if size == 0 || s.blocks == [] then s else s.(mapped := HEAP_VIRT_LIMIT))
              && Inv(Alloc(s, size).0) && s.mapped <= Alloc(s, size).0.mapped
  {
    if size != 0 && s.blocks != [] {
      var required := BlockSize(size);
      if FirstFit(s.blocks, required, 0) == |s.blocks| {
        GrowKeeps(s, required);
      }
    }
  }

  /** A successful `kmalloc` adds one live block, less than 32 bytes longer than asked for, and touches no other. */
  lemma AllocGrants(s: State, size: nat)
    requires Inv(s) && size <= MAX_REQUEST && Alloc(s, size).1 != 0
    ensures var (t, ptr) := Alloc(s, size);
            && Inv(t) && s.mapped <= t.mapped && IsLive(t.blocks, ptr)
            && t.blocks[0].addr == s.blocks[0].addr
            && var granted := t.blocks[LiveIndex(t.blocks, ptr, 0)];
            && size <= granted.size < size + HEADER_SIZE + MIN_SPLIT_PAYLOAD
            && granted !in Live(s.blocks) && Live(t.blocks) == Live(s.blocks) + {granted}
  {
    hide Tiled, Live, FirstFit, SplitAt, Mark;
    var required := BlockSize(size);
    var i := FirstFit(s.blocks, required, 0);
    var t := Alloc(s, size).0;
    if i < |s.blocks| {
      TakeKeeps(s.blocks, i, required);
      LiveIndexAt(t.blocks, i);
      Within(t.blocks, i);
      AlignedSlack(size, required, t.blocks[i].size);
    } else {
      GrowKeeps(s, required);
      var g := Grow(s, required).0;
      var j := |g.blocks| - 1;
      TakeKeeps(g.blocks, j, required);
      LiveIndexAt(t.blocks, j);
      Within(t.blocks, j);
      AlignedSlack(size, required, t.blocks[j].size);
    }
  }

  /** Between multiples of 8 a slack below 32 is one of at most 24. */
  lemma AlignedSlack(size: nat, required: nat, granted: nat)
    requires size <= required < size + ALLOC_ALIGN
    requires required % ALLOC_ALIGN == 0 && granted % ALLOC_ALIGN == 0
    requires granted < required + HEADER_SIZE + MIN_SPLIT_PAYLOAD
    ensures granted < size + HEADER_SIZE + MIN_SPLIT_PAYLOAD
  {}

  lemma AllocKeepsInv(s: State, size: nat)
    requires Inv(s) && size <= MAX_REQUEST
    ensures var t := Alloc(s, size).0;
            && Inv(t) && s.mapped <= t.mapped
            && (t.blocks == [] <==> s.blocks == [])
            && (s.blocks != [] ==> t.blocks[0].addr == s.blocks[0].addr)
  {
    hide Tiled, FirstFit, Take, Grow;
    AllocNull(s, size);
    if Alloc(s, size).1 != 0 { AllocGrants(s, size); }
  }

  lemma UniqueLive(bs: seq<Block>, b: Block, c: Block)
    requires Tiled(bs) && b in Live(bs) && c in bs && b.Payload() == c.Payload()
    ensures b == c
  {
    if b != c { Apart(bs, b, c); }
  }

  /** The pointer handed out is none that is live already. */
  lemma AllocFresh(s: State, size: nat)
    requires Inv(s) && size <= MAX_REQUEST && Alloc(s, size).1 != 0
    ensures forall c :: c in Live(s.blocks) ==> c.Payload() != Alloc(s, size).1
  {
    hide Tiled, Alloc;
    var (m, target) := Alloc(s, size);
    AllocGrants(s, size);
    var granted := m.blocks[LiveIndex(m.blocks, target, 0)];
    forall c | c in Live(s.blocks) ensures c.Payload() != target {
      if c.Payload() == target { UniqueLive(m.blocks, granted, c); }
    }
  }

  /** Allocation leaves live blocks in place. */
  lemma AllocKeepsHandle(s: State, size: nat, ptr: nat)
    requires Inv(s) && size <= MAX_REQUEST && IsLive(s.blocks, ptr)
    ensures var ts := Alloc(s, size).0.blocks;
            IsLive(ts, ptr) && ts[LiveIndex(ts, ptr, 0)] == s.blocks[LiveIndex(s.blocks, ptr, 0)]
  {
    hide Tiled, Alloc;
    var b := s.blocks[LiveIndex(s.blocks, ptr, 0)];
    var ts := Alloc(s, size).0.blocks;
    assert b in Live(s.blocks);
    AllocNull(s, size);
    if Alloc(s, size).1 != 0 {
      AllocGrants(s, size);
      assert b in Live(ts);
      var k :| 0 <= k < |ts| && ts[k] == b;
      LiveIndexAt(ts, k);
    }
  }

  /** Without growth the granted block is the lowest-addressed free block that fits. */
  lemma AllocFirstFit(s: State, size: nat, b: Block)
    requires Inv(s) && 0 < size <= MAX_REQUEST && b in s.blocks && Fits(b, BlockSize(size))
    ensures Alloc(s, size).0.mapped == s.mapped
    ensures 0 < Alloc(s, size).1 <= b.Payload()
    ensures exists c :: c in s.blocks && Fits(c, BlockSize(size)) && c.Payload() == Alloc(s, size).1
  {
    var i :| 0 <= i < |s.blocks| && s.blocks[i] == b;
    var k := FirstFit(s.blocks, BlockSize(size), 0);
    assert k <= i;
    if k < i { Ordered(s.blocks, k, i); }
    assert s.blocks[k] in s.blocks;
  }

  // ----- kfree -----

  lemma FreeReleases(s: State, ptr: nat)
    requires Inv(s)
    ensures var t := Free(s, ptr);
            && Inv(t) && t.mapped == s.mapped && !IsLive(t.blocks, ptr)
            && (s.blocks != [] ==>
                  t.blocks != [] && t.blocks[0].addr == s.blocks[0].addr && Brk(t.blocks) == Brk(s.blocks))
            && Live(t.blocks) == set b | b in Live(s.blocks) && b.Payload() != ptr
  {
    hide Tiled, Release;
    var bs := s.blocks;
    var i := LiveIndex(bs, ptr, 0);
    if i < |bs| {
      ReleaseKeeps(bs, i);
      forall b | b in Live(bs) && b.Payload() == ptr ensures b == bs[i] {
        if b != bs[i] { Apart(bs, b, bs[i]); }
      }
    }
    var ts := Free(s, ptr).blocks;
    assert forall m :: 0 <= m < |ts| && !ts[m].free ==> ts[m] in Live(ts);
    forall b | b in Live(bs) && i == |bs| ensures b.Payload() != ptr {
      var k :| 0 <= k < |bs| && bs[k] == b;
    }
  }

  /** Freeing one live block leaves the others in place. */
  lemma FreeKeepsOthers(s: State, ptr: nat, other: nat)
    requires Inv(s) && IsLive(s.blocks, other) && other != ptr
    ensures var ts := Free(s, ptr).blocks;
            IsLive(ts, other) && ts[LiveIndex(ts, other, 0)] == s.blocks[LiveIndex(s.blocks, other, 0)]
  {
    hide Tiled, Free;
    FreeReleases(s, ptr);
    var b := s.blocks[LiveIndex(s.blocks, other, 0)];
    var ts := Free(s, ptr).blocks;
    assert b in Live(s.blocks) && b in Live(ts);
    var k :| 0 <= k < |ts| && ts[k] == b;
    LiveIndexAt(ts, k);
  }

  // ----- krealloc -----

  /** The live block at `ptr` has become a live block at `moved` with `size` bytes, and less than 32 to spare. */
  ghost predicate Resized(s: State, ptr: nat, t: State, moved: nat, size: nat) {
    && IsLive(s.blocks, ptr) && IsLive(t.blocks, moved)
    && var before := s.blocks[LiveIndex(s.blocks, ptr, 0)];
    var after := t.blocks[LiveIndex(t.blocks, moved, 0)];
    && size <= after.size < size + HEADER_SIZE + MIN_SPLIT_PAYLOAD
    && after !in Live(s.blocks) - {before}
    && Live(t.blocks) == Live(s.blocks) - {before} + {after}
  }

  lemma ResizedInPlace(s: State, i: nat, cs: seq<Block>, size: nat)
    requires Inv(s) && Exchanges(s.blocks, cs, i) && !s.blocks[i].free && !cs[i].free
    requires size <= cs[i].size < size + HEADER_SIZE + MIN_SPLIT_PAYLOAD
    ensures Resized(s, s.blocks[i].Payload(), s.(blocks := cs), s.blocks[i].Payload(), size)
  {
    var bs := s.blocks;
    LiveIndexAt(bs, i);
    LiveIndexAt(cs, i);
    if cs[i] in Live(bs) && cs[i] != bs[i] { Apart(bs, cs[i], bs[i]); }
  }

  lemma ResizedByMove(s: State, i: nat, size: nat)
    requires Inv(s) && i < |s.blocks| && !s.blocks[i].free && size <= MAX_REQUEST && Alloc(s, size).1 != 0
    ensures var (m, target) := Alloc(s, size);
            && Resized(s, s.blocks[i].Payload(), Free(m, s.blocks[i].Payload()), target, size)
            && target != s.blocks[i].Payload()
  {
    var bs := s.blocks;
    var b := bs[i];
    LiveIndexAt(bs, i);
    var (m, target) := Alloc(s, size);
    AllocGrants(s, size);
    var granted := m.blocks[LiveIndex(m.blocks, target, 0)];
    assert b in Live(bs) && b in m.blocks && b != granted;
    Apart(m.blocks, b, granted);
    FreeReleases(m, b.Payload());
    var t := Free(m, b.Payload());
    forall c | c in Live(bs) && c.Payload() == b.Payload() ensures c == b {
      UniqueLive(bs, c, b);
    }
    assert Live(t.blocks) == Live(bs) - {b} + {granted};
    var k :| 0 <= k < |t.blocks| && t.blocks[k] == granted;
    LiveIndexAt(t.blocks, k);
  }

  /** The lists in the middle and at the end of a move: both blocks are live in the middle, the target at the end. */
  lemma MoveFacts(s: State, i: nat, size: nat)
    requires Inv(s) && i < |s.blocks| && !s.blocks[i].free && size <= MAX_REQUEST && Alloc(s, size).1 != 0
    ensures var (m, target) := Alloc(s, size);
            var ptr := s.blocks[i].Payload();
            && Inv(m) && IsLive(m.blocks, ptr) && m.blocks[LiveIndex(m.blocks, ptr, 0)] == s.blocks[i]
            && IsLive(m.blocks, target)
            && var granted := m.blocks[LiveIndex(m.blocks, target, 0)];
            && LiveIndex(m.blocks, target, 0) != LiveIndex(m.blocks, ptr, 0)
            && size <= granted.size && granted !in Live(s.blocks)
            && Live(m.blocks) == Live(s.blocks) + {granted}
            && IsLive(Free(m, ptr).blocks, target)
            && Free(m, ptr).blocks[LiveIndex(Free(m, ptr).blocks, target, 0)] == granted
            && Live(Free(m, ptr).blocks) <= Live(m.blocks)
            && (forall c :: c in Live(s.blocks) ==> c.Payload() != target)
  {
    hide Tiled, Alloc, Free;
    var b := s.blocks[i];
    var (m, target) := Alloc(s, size);
    AllocGrants(s, size);
    var granted := m.blocks[LiveIndex(m.blocks, target, 0)];
    assert b in Live(s.blocks) && b in Live(m.blocks);
    var k :| 0 <= k < |m.blocks| && m.blocks[k] == b;
    LiveIndexAt(m.blocks, k);
    Apart(m.blocks, b, granted);
    FreeReleases(m, b.Payload());
    var ts := Free(m, b.Payload()).blocks;
    assert granted in Live(m.blocks) && granted in Live(ts);
    var j :| 0 <= j < |ts| && ts[j] == granted;
    LiveIndexAt(ts, j);
    AllocFresh(s, size);
  }

  /** A block resized to the rounded size is one resized to the size itself. */
  lemma ResizedRounded(s: State, ptr: nat, t: State, moved: nat, size: nat)
    requires Inv(t) && 0 < size <= MAX_REQUEST && Resized(s, ptr, t, moved, BlockSize(size))
    ensures Resized(s, ptr, t, moved, size)
  {
    hide Tiled, Live, LiveIndex;
    var i := LiveIndex(t.blocks, moved, 0);
    Within(t.blocks, i);
    AlignedSlack(size, BlockSize(size), t.blocks[i].size);
  }

  /** A split leaves less than 32 bytes over. */
  lemma SplitFits(bs: seq<Block>, i: nat, required: nat)
    requires i < |bs| && required <= bs[i].size
    ensures var cs := SplitAt(bs, i, required);
            i < |cs| && required <= cs[i].size < required + HEADER_SIZE + MIN_SPLIT_PAYLOAD && cs[i].free == bs[i].free
  {}

  lemma ResizedBySplit(s: State, i: nat, size: nat)
    requires Inv(s) && i < |s.blocks| && !s.blocks[i].free && 0 < size <= MAX_REQUEST
    requires BlockSize(size) <= s.blocks[i].size
    ensures var t := s.(blocks := SplitAt(s.blocks, i, BlockSize(size)));
            Inv(t) && Resized(s, s.blocks[i].Payload(), t, s.blocks[i].Payload(), size)
  {
    hide Tiled, Live, SplitAt, Resized;
    var required := BlockSize(size);
    SplitExchanges(s.blocks, i, required);
    SplitFits(s.blocks, i, required);
    ResizedInPlace(s, i, SplitAt(s.blocks, i, required), required);
    ResizedRounded(s, s.blocks[i].Payload(), s.(blocks := SplitAt(s.blocks, i, required)), s.blocks[i].Payload(), size);
  }

  lemma ExchangesTwice(bs: seq<Block>, ms: seq<Block>, cs: seq<Block>, i: nat)
    requires Tiled(bs) && Exchanges(bs, ms, i) && Exchanges(ms, cs, i) && !bs[i].free
    ensures Exchanges(bs, cs, i)
  {
    if ms[i] in Live(bs) && ms[i] != bs[i] { Apart(bs, ms[i], bs[i]); }
  }

  lemma ResizedByMerge(s: State, i: nat, size: nat)
    requires Inv(s) && i < |s.blocks| && !s.blocks[i].free && 0 < size <= MAX_REQUEST
    requires GrowsInPlace(s.blocks, i, BlockSize(size))
    ensures var t := s.(blocks := SplitAt(MergeNext(s.blocks, i), i, BlockSize(size)));
            Inv(t) && Resized(s, s.blocks[i].Payload(), t, s.blocks[i].Payload(), size)
  {
    hide Tiled, Live, SplitAt, Resized;
    var required := BlockSize(size);
    var merged := MergeNext(s.blocks, i);
    MergeExchanges(s.blocks, i);
    SplitExchanges(merged, i, required);
    ExchangesTwice(s.blocks, merged, SplitAt(merged, i, required), i);
    SplitFits(merged, i, required);
    ResizedInPlace(s, i, SplitAt(merged, i, required), required);
    ResizedRounded(s, s.blocks[i].Payload(), s.(blocks := SplitAt(merged, i, required)), s.blocks[i].Payload(), size);
  }

  lemma ReallocInPlace(s: State, ptr: nat, size: nat)
    requires Inv(s) && IsLive(s.blocks, ptr) && ptr != 0 && 0 < size <= MAX_REQUEST
    requires var i := LiveIndex(s.blocks, ptr, 0);
             BlockSize(size) <= s.blocks[i].size || GrowsInPlace(s.blocks, i, BlockSize(size))
    ensures var (t, moved) := Realloc(s, ptr, size);
            && moved == ptr && Resized(s, ptr, t, ptr, size)
            && Inv(t) && s.mapped == t.mapped && SameRange(s.blocks, t.blocks)
  {
    hide Tiled, Live, FirstFit, Resized, Alloc;
    var bs := s.blocks;
    var i := LiveIndex(bs, ptr, 0);
    if BlockSize(size) <= bs[i].size {
      ResizedBySplit(s, i, size);
      SplitExchanges(bs, i, BlockSize(size));
    } else {
      ResizedByMerge(s, i, size);
      MergeExchanges(bs, i);
      SplitExchanges(MergeNext(bs, i), i, BlockSize(size));
    }
  }

  /** `krealloc` resizes the block, or answers null because there was no room and changes no block. */
  lemma ReallocResizes(s: State, ptr: nat, size: nat)
    requires Inv(s) && IsLive(s.blocks, ptr) && 0 < size <= MAX_REQUEST
    ensures var (t, moved) := Realloc(s, ptr, size);
            && Inv(t) && s.mapped <= t.mapped && t.blocks != [] && t.blocks[0].addr == s.blocks[0].addr
            && (moved == 0 ==> t.blocks == s.blocks && Exhausted(s, BlockSize(size)))
            && (moved != 0 ==> Resized(s, ptr, t, moved, size))
  {
    hide Tiled, Live, FirstFit, Alloc, Free, SplitAt, MergeNext;
    var i := LiveIndex(s.blocks, ptr, 0);
    var required := BlockSize(size);
    if required <= s.blocks[i].size || GrowsInPlace(s.blocks, i, required) {
      ReallocInPlace(s, ptr, size);
    } else {
      BlockSizeTwice(size);
      AllocNull(s, required);
      if Alloc(s, required).1 != 0 {
        AllocGrants(s, required);
        FreeReleases(Alloc(s, required).0, ptr);
        ResizedByMove(s, i, required);
        var (t, moved) := Realloc(s, ptr, size);
        ResizedRounded(s, ptr, t, moved, size);
      }
    }
  }
}
