/** When the heap ends where the mapping ends, and when a growth that stops half-way parts the two. */
module HeapLimits {
  import opened Word32
  import opened HeapSpec
  import opened HeapLaws
  import opened HeapRuns

  ghost predicate EndsWhereMapped(s: State) {
    s.blocks != [] ==> Brk(s.blocks) == s.mapped
  }

  /** An allocation that finds no room and maps pages up to the limit before it gives up. */
  ghost predicate StopsHalfway(s: State, size: nat)
    requires size <= MAX_REQUEST
  {
    0 < size && Exhausted(s, BlockSize(size)) && s.mapped < HEAP_VIRT_LIMIT
  }

  lemma GrowEnds(s: State, required: nat)
    requires Inv(s) && s.blocks != [] && 0 < required <= MAX_REQUEST && Grow(s, required).1
    ensures var g := Grow(s, required).0; g.blocks != [] && Brk(g.blocks) - g.mapped == Brk(s.blocks) - s.mapped
  {
    hide Tiled, Live, GrowthBytes, AlignUp32;
    var tail := s.blocks[|s.blocks| - 1];
    if !Fits(tail, required) {
      var added := GrowthBytes(tail, required);
      if tail.free { GrowTail(s.blocks, added); } else { GrowNew(s.blocks, added); }
    }
  }

  /** `kmalloc` keeps the two together if and only if it does not stop half-way; once parted they stay so. */
  lemma AllocEnds(s: State, size: nat)
    requires Inv(s) && size <= MAX_REQUEST
    ensures EndsWhereMapped(Alloc(s, size).0) <==> EndsWhereMapped(s) && !StopsHalfway(s, size)
  {
    AllocNull(s, size);
    if Alloc(s, size).1 != 0 {
      hide Tiled, Live, FirstFit, Grow, Take;
      var required := BlockSize(size);
      var i := FirstFit(s.blocks, required, 0);
      if i < |s.blocks| {
        TakeKeeps(s.blocks, i, required);
      } else {
        GrowKeeps(s, required);
        GrowEnds(s, required);
        var g := Grow(s, required).0;
        TakeKeeps(g.blocks, FirstFit(g.blocks, required, 0), required);
      }
    }
  }

  /** The allocation inside a request, if there is one, stops half-way. */
  ghost predicate StepStops(s: State, r: Request)
    requires Bounded(r)
  {
    match r
    case Kmalloc(size) => StopsHalfway(s, size)
    case Kcalloc(count, size) => count * size < TWO32 && StopsHalfway(s, count * size)
    case Kfree(_) => false
    case Krealloc(ptr, size) =>
      if ptr == 0 then StopsHalfway(s, size) else size != 0 && Moves(s, ptr, size) && StopsHalfway(s, BlockSize(size))
  }

  /** `krealloc` has to move the block: neither it nor the free block behind it has the room. */
  predicate Moves(s: State, ptr: nat, size: nat)
    requires 0 < size <= MAX_REQUEST
  {
    var i := LiveIndex(s.blocks, ptr, 0);
    i < |s.blocks| && s.blocks[i].size < BlockSize(size) && !GrowsInPlace(s.blocks, i, BlockSize(size))
  }

  lemma FreeEnds(s: State, ptr: nat)
    requires Inv(s)
    ensures EndsWhereMapped(Free(s, ptr)) <==> EndsWhereMapped(s)
  {
    hide Tiled, Free;
    FreeReleases(s, ptr);
    FreeOfNothing(s, ptr);
  }

  lemma FreeOfNothing(s: State, ptr: nat)
    ensures s.blocks == [] ==> Free(s, ptr) == s
  {}

  lemma ReallocEnds(s: State, ptr: nat, size: nat)
    requires Inv(s) && size <= MAX_REQUEST
    ensures EndsWhereMapped(Realloc(s, ptr, size).0) <==> EndsWhereMapped(s) && !StepStops(s, Krealloc(ptr, size))
  {
    hide Tiled, Live, Alloc, Free, FirstFit, EndsWhereMapped, StopsHalfway;
    if ptr == 0 {
      AllocEnds(s, size);
    } else if size == 0 {
      FreeEnds(s, ptr);
    } else if IsLive(s.blocks, ptr) {
      if Moves(s, ptr, size) {
        var required := BlockSize(size);
        AllocEnds(s, required);
        AllocKeepsInv(s, required);
        FreeEnds(Alloc(s, required).0, ptr);
      } else {
        ReallocInPlace(s, ptr, size);
        SameRangeEnds(s, Realloc(s, ptr, size).0);
      }
    }
  }

  lemma SameRangeEnds(s: State, t: State)
    requires SameRange(s.blocks, t.blocks) && t.mapped == s.mapped
    ensures EndsWhereMapped(t) <==> EndsWhereMapped(s)
  {}

  /** Every request keeps the two together if and only if its allocation does not stop half-way. */
  lemma StepEnds(s: State, r: Request)
    requires Inv(s) && Bounded(r)
    ensures EndsWhereMapped(Step(s, r).0) <==> EndsWhereMapped(s) && !StepStops(s, r)
  {
    hide Inv, Alloc, Free, Realloc, EndsWhereMapped, StopsHalfway;
    match r
    case Kmalloc(size) => AllocEnds(s, size);
    case Kcalloc(count, size) => CallocEnds(s, count, size);
    case Kfree(ptr) => FreeEnds(s, ptr);
    case Krealloc(ptr, size) => ReallocEnds(s, ptr, size);
  }

  lemma CallocEnds(s: State, count: nat, size: nat)
    requires Inv(s) && Bounded(Kcalloc(count, size))
    ensures EndsWhereMapped(Calloc(s, count, size).0) <==> EndsWhereMapped(s) && !StepStops(s, Kcalloc(count, size))
  {
    hide Inv, Alloc, EndsWhereMapped, Exhausted;
    if count * size < TWO32 { AllocEnds(s, count * size); }
  }

  ghost predicate NeverStops(s: State, rs: seq<Request>)
    requires AllBounded(rs)
    decreases |rs|
  {
    rs != [] ==> Bounded(rs[0]) && !StepStops(s, rs[0]) && NeverStops(Step(s, rs[0]).0, rs[1..])
  }

  /**
   After any run the heap ends where the mapping ends if and only if it did before and
   no request stopped half-way.
   */
  lemma {:induction false} RunEnds(s: State, rs: seq<Request>)
    requires Inv(s) && AllBounded(rs)
    ensures EndsWhereMapped(Run(s, rs)) <==> EndsWhereMapped(s) && NeverStops(s, rs)
    decreases |rs|
  {
    hide Inv, Step, EndsWhereMapped, StepStops;
    if rs != [] {
      StepKeepsInv(s, rs[0]);
      StepEnds(s, rs[0]);
      RunEnds(Step(s, rs[0]).0, rs[1..]);
    }
  }

  /**
   A request that stops half-way: 64 megabytes from a fresh heap leave its one block
   alone and the mapping at the limit.
   */
  lemma HalfwayAtTheLimit(start: nat)
    requires 0 < start && start % ALLOC_ALIGN == 0 && start + HEADER_SIZE + MIN_SPLIT_PAYLOAD < IDENTITY_MAP_LIMIT
    ensures var s := Initial(start);
            var (t, ptr) := Alloc(s, 0x0400_0000);
            && EndsWhereMapped(s) && ptr == 0
            && t == State(s.blocks, HEAP_VIRT_LIMIT) && !EndsWhereMapped(t)
  {
    var s := Initial(start);
    InitialInv(start);
    AlignUpExact(0x0400_0000, ALLOC_ALIGN);
    var required := BlockSize(0x0400_0000);
    assert required == 0x0400_0000;
    assert s.mapped + GrowthBytes(s.blocks[0], required) > HEAP_VIRT_LIMIT;
    AllocNull(s, 0x0400_0000);
    AllocEnds(s, 0x0400_0000);
  }
}
