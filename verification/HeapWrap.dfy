/**
 The allocator on every 32-bit size: what its wrapping sums do beyond the sizes whose
 rounding is exact, and exactly when an answer can still be relied on.
 */
module HeapWrap {
  import opened Word32
  import opened HeapSpec
  import opened HeapLaws
  import opened HeapRuns

  /** Above this size the rounding to a multiple of 8 wraps to 0. */
  const LAST_ROUNDED: nat := 0xFFFF_FFF8

  /** Above this size adding a header to the rounded size passes 32 bits with bytes to spare. */
  const LAST_EMPTY_GROWTH: nat := 0xFFFF_FFE8

  // ----- the source's arithmetic -----

  /** `a - b` on 32-bit words. */
  function Sub32(a: nat, b: nat): nat
    requires b < TWO32
  {
    (a + TWO32 - b) % TWO32
  }

  function Split32(bs: seq<Block>, i: nat, required: nat): seq<Block>
    requires i < |bs| && required < TWO32
  {
    var b := bs[i];
    if b.size < (required + HEADER_SIZE + MIN_SPLIT_PAYLOAD) % TWO32 then bs
    else
      var rest := Block((b.Payload() + required) % TWO32, Sub32(Sub32(b.size, required), HEADER_SIZE), true);
      bs[..i] + [b.(size := required), rest] + bs[i + 1..]
  }

  function Take32(bs: seq<Block>, i: nat, required: nat): seq<Block>
    requires i < |bs| && required < TWO32
  {
    Mark(Split32(bs, i, required), i, false)
  }

  function Added32(tail: Block, required: nat): nat
    requires !Fits(tail, required)
  {
    AlignUp32(if tail.free then required - tail.size else (required + HEADER_SIZE) % TWO32, PAGE_SIZE)
  }

  /** `extend_heap_to_fit`: a free tail takes the added bytes; behind a live one they make a block, less a header. */
  function Grow32(s: State, required: nat): (State, bool) {
    if s.blocks == [] then (s, false)
    else
      var tail := s.blocks[|s.blocks| - 1];
      if Fits(tail, required) then (s, true)
      else
        var added := Added32(tail, required);
        if s.mapped + added > HEAP_VIRT_LIMIT then (s.(mapped := HEAP_VIRT_LIMIT), false)
        else if tail.free then (State(LongerTail(s.blocks, added), s.mapped + added), true)
        else (State(NewTail(s.blocks, Sub32(added, HEADER_SIZE)), s.mapped + added), true)
  }

  /** `kmalloc_init` for a kernel that ends at any 32-bit address. */
  function Init32(kernelEnd: nat): State {
    var start := AlignUp32(kernelEnd, ALLOC_ALIGN);
    if (start + HEADER_SIZE + MIN_SPLIT_PAYLOAD) % TWO32 >= IDENTITY_MAP_LIMIT then State([], 0)
    else
      RoundsBelow(kernelEnd, ALLOC_ALIGN);
      State([Block(start, Sub32(Sub32(IDENTITY_MAP_LIMIT, start), HEADER_SIZE), true)], IDENTITY_MAP_LIMIT)
  }

  /** `kmalloc` on any 32-bit size. */
  function Alloc32(s: State, size: nat): (State, nat)
    requires size < TWO32
  {
    if size == 0 || s.blocks == [] then (s, 0)
    else
      var required := AlignUp32(size, ALLOC_ALIGN);
      RoundsBelow(size, ALLOC_ALIGN);
      var i := FirstFit(s.blocks, required, 0);
      if i < |s.blocks| then (s.(blocks := Take32(s.blocks, i, required)), s.blocks[i].Payload())
      else
        var (g, ok) := Grow32(s, required);
        if !ok then (g, 0)
        else
          var j := FirstFit(g.blocks, required, 0);
          if j == |g.blocks| then (g, 0)
          else (g.(blocks := Take32(g.blocks, j, required)), g.blocks[j].Payload())
  }

  function Calloc32(s: State, count: nat, size: nat): (State, nat) {
    if count * size >= TWO32 then (s, 0) else Alloc32(s, count * size)
  }

  /** `krealloc` on any 32-bit size. */
  function Realloc32(s: State, ptr: nat, size: nat): (State, nat)
    requires size < TWO32
  {
    if ptr == 0 then Alloc32(s, size)
    else if size == 0 then (Free(s, ptr), 0)
    else
      var bs := s.blocks;
      var i := LiveIndex(bs, ptr, 0);
      if i == |bs| then (s, 0)
      else
        var required := AlignUp32(size, ALLOC_ALIGN);
        RoundsBelow(size, ALLOC_ALIGN);
        if required <= bs[i].size then (s.(blocks := Split32(bs, i, required)), ptr)
        else if GrowsInPlace(bs, i, required) then (s.(blocks := Split32(MergeNext(bs, i), i, required)), ptr)
        else
          var (moved, target) := Alloc32(s, required);
          if target == 0 then (moved, 0) else (Free(moved, ptr), target)
  }

  predicate Request32(r: Request) {
    match r
    case Kmalloc(size) => size < TWO32
    case Kcalloc(count, size) => count < TWO32 && size < TWO32
    case Kfree(ptr) => true
    case Krealloc(ptr, size) => size < TWO32
  }

  function Step32(s: State, r: Request): (State, nat)
    requires Request32(r)
  {
    match r
    case Kmalloc(size) => Alloc32(s, size)
    case Kcalloc(count, size) => Calloc32(s, count, size)
    case Kfree(ptr) => (Free(s, ptr), 0)
    case Krealloc(ptr, size) => Realloc32(s, ptr, size)
  }

  // ----- rounding -----

  lemma RoundsBelow(value: nat, alignment: nat)
    requires KernelAlignment(alignment)
    ensures AlignUp32(value, alignment) < TWO32
  {
    AlignDownFacts((value + alignment - 1) % TWO32, alignment);
  }

  /** What a size is rounded to: itself made longer by less than 8, or 0. */
  lemma RoundedSize(size: nat)
    requires 0 < size < TWO32
    ensures var required := AlignUp32(size, ALLOC_ALIGN);
            if size > LAST_ROUNDED then required == 0
            else size <= required < size + ALLOC_ALIGN && required % ALLOC_ALIGN == 0 && required <= LAST_ROUNDED
  {
    hide AlignUp32;
    AlignUpExact(size, ALLOC_ALIGN);
  }

  lemma RoundedTwice(size: nat)
    requires 0 < size <= LAST_ROUNDED
    ensures AlignUp32(AlignUp32(size, ALLOC_ALIGN), ALLOC_ALIGN) == AlignUp32(size, ALLOC_ALIGN)
  {
    hide AlignUp32;
    RoundedSize(size);
    RoundedSize(AlignUp32(size, ALLOC_ALIGN));
  }

  // ----- up to MAX_REQUEST nothing wraps -----

  lemma SplitAgrees(bs: seq<Block>, i: nat, required: nat)
    requires i < |bs| && required <= bs[i].size && bs[i].End() <= HEAP_VIRT_LIMIT
    ensures required < TWO32 && Split32(bs, i, required) == SplitAt(bs, i, required)
  {
    Unwrapped(bs[i].Payload() + required);
    if Splits(bs[i], required) {
      NoBorrow(bs[i].size, required);
      NoBorrow(bs[i].size - required, HEADER_SIZE);
    }
    Unwrapped(required + HEADER_SIZE + MIN_SPLIT_PAYLOAD);
  }

  lemma Unwrapped(t: nat)
    requires t < TWO32
    ensures t % TWO32 == t
  {}

  lemma NoBorrow(a: nat, b: nat)
    requires b <= a < TWO32
    ensures Sub32(a, b) == a - b
  {}

  lemma GrowAgrees(s: State, required: nat)
    requires Inv(s) && 0 < required <= MAX_REQUEST
    ensures Grow32(s, required) == Grow(s, required)
  {
    hide Tiled, AlignUp32;
    if s.blocks != [] && !Fits(s.blocks[|s.blocks| - 1], required) {
      GrowthBytesIs(s.blocks[|s.blocks| - 1], required);
    }
  }

  lemma AllocAgrees(s: State, size: nat)
    requires Inv(s) && size <= MAX_REQUEST
    ensures Alloc32(s, size) == Alloc(s, size)
  {
    hide Tiled, AlignUp32, Grow, Grow32, SplitAt, Split32, Mark, FirstFit;
    if size != 0 && s.blocks != [] {
      BlockSizeIs(size);
      var required := BlockSize(size);
      var i := FirstFit(s.blocks, required, 0);
      if i < |s.blocks| {
        Within(s.blocks, i);
        SplitAgrees(s.blocks, i, required);
      } else {
        GrowAgrees(s, required);
        GrowKeeps(s, required);
        var (g, ok) := Grow(s, required);
        if ok {
          Within(g.blocks, |g.blocks| - 1);
          SplitAgrees(g.blocks, |g.blocks| - 1, required);
        }
      }
    }
  }

  lemma MergedSize(bs: seq<Block>, i: nat)
    requires i + 1 < |bs| && bs[i + 1].free
    ensures |MergeNext(bs, i)| > i && MergeNext(bs, i)[i].size == bs[i].size + HEADER_SIZE + bs[i + 1].size
  {}

  lemma ReallocAgrees(s: State, ptr: nat, size: nat)
    requires Inv(s) && size <= MAX_REQUEST
    ensures Realloc32(s, ptr, size) == Realloc(s, ptr, size)
  {
    hide Tiled, AlignUp32, Alloc, Alloc32, SplitAt, Split32, MergeNext, Free, LiveIndex;
    if ptr == 0 {
      AllocAgrees(s, size);
    } else if size != 0 {
      var i := LiveIndex(s.blocks, ptr, 0);
      if i < |s.blocks| {
        BlockSizeIs(size);
        var required := BlockSize(size);
        AllocAgrees(s, required);
        if required <= s.blocks[i].size {
          Within(s.blocks, i);
          SplitAgrees(s.blocks, i, required);
        } else if GrowsInPlace(s.blocks, i, required) {
          MergeExchanges(s.blocks, i);
          Within(MergeNext(s.blocks, i), i);
          MergedSize(s.blocks, i);
          SplitAgrees(MergeNext(s.blocks, i), i, required);
        }
      }
    }
  }

  /** On sizes whose rounding does not wrap this is the allocator of `HeapSpec`. */
  lemma StepAgrees(s: State, r: Request)
    requires Inv(s) && Bounded(r) && Request32(r)
    ensures Step32(s, r) == Step(s, r)
  {
    hide Inv, Alloc, Alloc32, Realloc, Realloc32;
    match r
    case Kmalloc(size) => AllocAgrees(s, size);
    case Kcalloc(count, size) => 
      if count * size < TWO32 { AllocAgrees(s, count * size); }
      NothingGranted(s);
    case Kfree(_) =>
    case Krealloc(ptr, size) => ReallocAgrees(s, ptr, size);
  }

  // ----- when an answer can be relied on -----

  /** The bytes a request asks for. */
  function Asked(r: Request): nat {
    match r
    case Kmalloc(size) => size
    case Kcalloc(count, size) => count * size
    case Kfree(ptr) => 0
    case Krealloc(ptr, size) => size
  }

  /** The heap is intact, and a pointer that is answered has the bytes asked for. */
  ghost predicate Served(t: State, ptr: nat, size: nat) {
    Inv(t) && (ptr != 0 ==> IsLive(t.blocks, ptr) && LiveSize(t.blocks, ptr) >= size)
  }

  /** The sums of an allocation wrap and the answer is a block without the bytes asked for. */
  predicate AllocOverflows(s: State, size: nat) {
    && s.blocks != []
    && if size > LAST_ROUNDED then (exists i :: 0 <= i < |s.blocks| && s.blocks[i].free) || s.mapped < HEAP_VIRT_LIMIT
       else MAX_REQUEST < size <= LAST_EMPTY_GROWTH && !s.blocks[|s.blocks| - 1].free
  }

  predicate StepOverflows(s: State, r: Request) {
    match r
    case Kmalloc(size) => AllocOverflows(s, size)
    case Kcalloc(count, size) => count * size < TWO32 && AllocOverflows(s, count * size)
    case Kfree(ptr) => false
    case Krealloc(ptr, size) =>
      if ptr == 0 then AllocOverflows(s, size)
      else IsLive(s.blocks, ptr) && (size > LAST_ROUNDED || AllocOverflows(s, size))
  }

  lemma BlocksBelowLimit(s: State, i: nat)
    requires Inv(s) && i < |s.blocks|
    ensures s.blocks[i].size < HEAP_VIRT_LIMIT
  {
    Within(s.blocks, i);
  }

  /** No block of an intact heap has more than 64 megabytes. */
  lemma NotServed(t: State, ptr: nat, size: nat)
    requires ptr != 0 && size >= HEAP_VIRT_LIMIT
    ensures !Served(t, ptr, size)
  {
    if Served(t, ptr, size) {
      BlocksBelowLimit(t, LiveIndex(t.blocks, ptr, 0));
      assert false;
    }
  }

  lemma NothingFits(s: State, required: nat)
    requires Inv(s) && required >= HEAP_VIRT_LIMIT
    ensures FirstFit(s.blocks, required, 0) == |s.blocks|
    ensures s.blocks != [] ==> s.blocks[|s.blocks| - 1].size < HEAP_VIRT_LIMIT
  {
    hide Inv;
    var i := FirstFit(s.blocks, required, 0);
    if i < |s.blocks| { BlocksBelowLimit(s, i); }
    if s.blocks != [] { BlocksBelowLimit(s, |s.blocks| - 1); }
  }

  lemma NoneFree(bs: seq<Block>)
    requires FirstFit(bs, 0, 0) == |bs|
    ensures forall k :: 0 <= k < |bs| ==> !bs[k].free
  {
    assert forall k :: 0 <= k < |bs| ==> !Fits(bs[k], 0);
  }

  /** A size that rounds to 0 is "served" by the first free block, old or new. */
  lemma NothingAsked(s: State, size: nat)
    requires Inv(s) && LAST_ROUNDED < size < TWO32
    ensures Alloc32(s, size).1 != 0 <==> AllocOverflows(s, size)
    ensures Alloc32(s, size).1 == 0 ==> Alloc32(s, size).0 == s
  {
    hide Tiled, AlignUp32, Take32, Grow32;
    RoundedSize(size);
    if s.blocks != [] {
      var i := FirstFit(s.blocks, 0, 0);
      if i < |s.blocks| {
        assert s.blocks[i].free;
      } else {
        NoneFree(s.blocks);
        PageForNothing(s);
        var (g, ok) := Grow32(s, 0);
        assert ok ==> Alloc32(s, size).1 == g.blocks[|g.blocks| - 1].Payload();
      }
    }
  }

  lemma PageForNothing(s: State)
    requires Inv(s) && s.blocks != [] && FirstFit(s.blocks, 0, 0) == |s.blocks|
    ensures var (g, ok) := Grow32(s, 0);
            if s.mapped < HEAP_VIRT_LIMIT then ok && FirstFit(g.blocks, 0, 0) == |g.blocks| - 1 else !ok && g == s
  {
    hide Tiled, AlignUp32;
    AlignUpExact(HEADER_SIZE, PAGE_SIZE);
    var tail := s.blocks[|s.blocks| - 1];
    assert !Fits(tail, 0);
    var g := NewTail(s.blocks, PAGE_SIZE - HEADER_SIZE);
    assert Fits(g[|g| - 1], 0);
    GrownFit(s.blocks, g, 0);
  }

  /** A free tail cannot be grown to a size near 4 gigabytes, and nothing but the mapping changes. */
  lemma FreeTailStays(s: State, required: nat)
    requires Inv(s) && s.blocks != [] && s.blocks[|s.blocks| - 1].free
    requires MAX_REQUEST < required <= LAST_ROUNDED
    ensures var (g, ok) := Grow32(s, required); if ok then g == s else g == s.(mapped := HEAP_VIRT_LIMIT)
  {
    hide AlignUp32, Tiled;
    NothingFits(s, required);
    var tail := s.blocks[|s.blocks| - 1];
    AlignUpExact(required - tail.size, PAGE_SIZE);
    assert LongerTail(s.blocks, 0) == s.blocks;
  }

  /** Behind a live tail the sum with the header rounds to nothing, to a page, or wraps below zero. */
  lemma LiveTail(s: State, required: nat)
    requires Inv(s) && s.blocks != [] && !s.blocks[|s.blocks| - 1].free
    requires MAX_REQUEST < required <= LAST_ROUNDED && required % ALLOC_ALIGN == 0
    ensures required <= LAST_EMPTY_GROWTH ==>
              Grow32(s, required) == (State(NewTail(s.blocks, TWO32 - HEADER_SIZE), s.mapped), true)
    ensures required > LAST_EMPTY_GROWTH ==> Grow32(s, required) == Grow(s, MIN_SPLIT_PAYLOAD)
  {
    hide AlignUp32, Tiled;
    NothingFits(s, required);
    var tail := s.blocks[|s.blocks| - 1];
    GrowthBytesIs(tail, MIN_SPLIT_PAYLOAD);
    AlignUpExact(MIN_SPLIT_PAYLOAD + HEADER_SIZE, PAGE_SIZE);
    AlignUpExact(MIN_SPLIT_PAYLOAD, PAGE_SIZE);
    var needed := (required + HEADER_SIZE) % TWO32;
    if needed > 0 { AlignUpExact(needed, PAGE_SIZE); } else { ZeroRounds(); }
  }

  lemma ZeroRounds()
    ensures AlignUp32(0, PAGE_SIZE) == 0 && AlignUp32(0, ALLOC_ALIGN) == 0
  {}

  lemma MappedToLimit(s: State)
    requires Inv(s) && s.blocks != []
    ensures Inv(s.(mapped := HEAP_VIRT_LIMIT))
  {
    hide Tiled;
  }

  /** The answer to a size near 4 gigabytes: null on an intact heap, unless the sums wrap. */
  lemma AllocHuge(s: State, size: nat)
    requires Inv(s) && MAX_REQUEST < size <= LAST_ROUNDED
    ensures Alloc32(s, size).1 != 0 <==> AllocOverflows(s, size)
    ensures Alloc32(s, size).1 == 0 ==> Inv(Alloc32(s, size).0)
  {
    hide Inv, AlignUp32, Take32, Grow32, Grow;
    RoundedSize(size);
    if s.blocks != [] {
      var required := AlignUp32(size, ALLOC_ALIGN);
      var n := |s.blocks|;
      NothingFits(s, required);
      if s.blocks[n - 1].free {
        FreeTailStays(s, required);
        MappedToLimit(s);
      } else {
        LiveTail(s, required);
        if required <= LAST_EMPTY_GROWTH {
          var g := NewTail(s.blocks, TWO32 - HEADER_SIZE);
          assert Fits(g[n], required);
          GrownFit(s.blocks, g, required);
        } else {
          GrowKeeps(s, MIN_SPLIT_PAYLOAD);
          NothingFits(Grow32(s, required).0, required);
        }
      }
    }
  }

  /** `kmalloc` serves a request of any 32-bit size if and only if its sums do not wrap. */
  lemma AllocServes(s: State, size: nat)
    requires Inv(s) && size < TWO32
    ensures var (t, ptr) := Alloc32(s, size); Served(t, ptr, size) <==> !AllocOverflows(s, size)
  {
    hide Inv, Alloc32, Alloc, Served, FirstFit;
    var (t, ptr) := Alloc32(s, size);
    if size <= MAX_REQUEST {
      AllocAgrees(s, size);
      AllocIntact(s, size);
    } else {
      if size > LAST_ROUNDED { NothingAsked(s, size); } else { AllocHuge(s, size); }
      if ptr != 0 { NotServed(t, ptr, size); } else { NullServes(t, size); }
    }
  }

  lemma NullServes(t: State, size: nat)
    requires Inv(t)
    ensures Served(t, 0, size)
  {}

  lemma AllocIntact(s: State, size: nat)
    requires Inv(s) && size <= MAX_REQUEST
    ensures var (t, ptr) := Alloc(s, size); Served(t, ptr, size)
  {
    hide Inv, Alloc;
    AllocNull(s, size);
    if Alloc(s, size).1 != 0 { AllocGrants(s, size); }
  }

  /** `krealloc` likewise; a live block is also cut to nothing by a size that rounds to 0. */
  lemma ReallocServes(s: State, ptr: nat, size: nat)
    requires Inv(s) && size < TWO32
    ensures var (t, moved) := Realloc32(s, ptr, size);
            Served(t, moved, size) <==> !StepOverflows(s, Krealloc(ptr, size))
  {
    hide Inv, Alloc32, Realloc, Served, AllocOverflows, LiveIndex, Free, MergeNext, Split32, AlignUp32;
    var (t, moved) := Realloc32(s, ptr, size);
    if ptr == 0 {
      AllocServes(s, size);
    } else if size <= MAX_REQUEST {
      ReallocAgrees(s, ptr, size);
      ReallocIntact(s, ptr, size);
      NoOverflow(s, size);
    } else if !IsLive(s.blocks, ptr) {
      NullServes(s, size);
    } else {
      RoundedSize(size);
      if size > LAST_ROUNDED {
        NotServed(t, moved, size);
      } else {
        ReallocHuge(s, ptr, size);
      }
    }
  }

  lemma NoOverflow(s: State, size: nat)
    requires size <= MAX_REQUEST
    ensures !AllocOverflows(s, size)
  {}

  lemma ReallocIntact(s: State, ptr: nat, size: nat)
    requires Inv(s) && size <= MAX_REQUEST && ptr != 0
    ensures var (t, moved) := Realloc(s, ptr, size); Served(t, moved, size)
  {
    hide Inv, Alloc, Free;
    ReallocKeepsInv(s, ptr, size);
    if size != 0 && IsLive(s.blocks, ptr) { ReallocResizes(s, ptr, size); }
  }

  /** A live block asked to reach nearly 4 gigabytes has to move. */
  lemma ReallocHuge(s: State, ptr: nat, size: nat)
    requires Inv(s) && MAX_REQUEST < size <= LAST_ROUNDED && IsLive(s.blocks, ptr) && ptr != 0
    ensures var (t, moved) := Realloc32(s, ptr, size); Served(t, moved, size) <==> !AllocOverflows(s, size)
  {
    hide Inv, Alloc32, Served, AllocOverflows, Free, MergeNext, Split32, AlignUp32;
    RoundedSize(size);
    RoundedTwice(size);
    var required := AlignUp32(size, ALLOC_ALIGN);
    var i := LiveIndex(s.blocks, ptr, 0);
    BlocksBelowLimit(s, i);
    if i + 1 < |s.blocks| { BlocksBelowLimit(s, i + 1); }
    AllocHuge(s, required);
    SameOverflow(s, size);
    var (t, moved) := Realloc32(s, ptr, size);
    if moved != 0 { NotServed(t, moved, size); } else { NullServes(t, size); }
  }

  lemma SameOverflow(s: State, size: nat)
    requires MAX_REQUEST < size <= LAST_ROUNDED
    ensures AllocOverflows(s, AlignUp32(size, ALLOC_ALIGN)) <==> AllocOverflows(s, size)
  {
    RoundedSize(size);
  }

  /** Every request of 32-bit arguments is served if and only if its sums do not wrap. */
  lemma StepServes(s: State, r: Request)
    requires Inv(s) && Request32(r)
    ensures var (t, ptr) := Step32(s, r); Served(t, ptr, Asked(r)) <==> !StepOverflows(s, r)
  {
    hide Inv, Alloc32, Realloc32, Free, Served, AllocOverflows;
    match r
    case Kmalloc(size) => AllocServes(s, size);
    case Kcalloc(count, size) =>
      if count * size < TWO32 { AllocServes(s, count * size); } else { NullServes(s, count * size); }
    case Kfree(ptr) =>
      FreeReleases(s, ptr);
      NullServes(Free(s, ptr), 0);
    case Krealloc(ptr, size) => ReallocServes(s, ptr, size);
  }

  /** Initialising yields an intact heap if and only if the sum of its first test does not wrap. */
  lemma InitServes(kernelEnd: nat)
    requires kernelEnd < TWO32
    ensures Inv(Init32(kernelEnd)) <==> 0 < kernelEnd <= TWO32 - HEADER_SIZE - 2 * MIN_SPLIT_PAYLOAD
  {
    hide AlignUp32;
    if kernelEnd == 0 {
      ZeroRounds();
    } else {
      RoundedSize(kernelEnd);
    }
    var start := AlignUp32(kernelEnd, ALLOC_ALIGN);
    if start + HEADER_SIZE + MIN_SPLIT_PAYLOAD < IDENTITY_MAP_LIMIT {
      Initialised(start);
    }
  }

  lemma Initialised(start: nat)
    requires start % ALLOC_ALIGN == 0 && start + HEADER_SIZE + MIN_SPLIT_PAYLOAD < IDENTITY_MAP_LIMIT
    ensures Sub32(Sub32(IDENTITY_MAP_LIMIT, start), HEADER_SIZE) == IDENTITY_MAP_LIMIT - start - HEADER_SIZE
    ensures Inv(Initial(start)) <==> start > 0
  {
    TiledOne(Initial(start).blocks[0]);
  }

  // ----- whole runs -----

  ghost predicate Requests32(rs: seq<Request>) {
    forall r :: r in rs ==> Request32(r)
  }

  /** Every request of the run is served. */
  ghost predicate AllServed(s: State, rs: seq<Request>)
    requires Requests32(rs)
    decreases |rs|
  {
    rs == [] ||
    var (t, ptr) := Step32(s, rs[0]);
    Served(t, ptr, Asked(rs[0])) && AllServed(t, rs[1..])
  }

  /** No request of the run makes the sums wrap. */
  predicate NeverOverflows(s: State, rs: seq<Request>)
    requires Requests32(rs)
    decreases |rs|
  {
    rs == [] || (!StepOverflows(s, rs[0]) && NeverOverflows(Step32(s, rs[0]).0, rs[1..]))
  }

  /** Over whole runs: the allocator serves them if and only if no request makes its sums wrap. */
  lemma {:induction false} RunServes(s: State, rs: seq<Request>)
    requires Inv(s) && Requests32(rs)
    ensures AllServed(s, rs) <==> NeverOverflows(s, rs)
    decreases |rs|
  {
    hide Inv, Step32, StepOverflows;
    if rs != [] {
      StepServes(s, rs[0]);
      if !StepOverflows(s, rs[0]) { RunServes(Step32(s, rs[0]).0, rs[1..]); }
    }
  }

  // ----- failing inputs -----

  /** On a fresh heap a request of 4 gigabytes less one byte is answered with a block of less than 32 bytes. */
  lemma GrantOfNothing(start: nat)
    requires start + HEADER_SIZE <= IDENTITY_MAP_LIMIT
    ensures var (t, ptr) := Alloc32(Initial(start), 0xFFFF_FFFF);
            && ptr == start + HEADER_SIZE && IsLive(t.blocks, ptr)
            && LiveSize(t.blocks, ptr) < HEADER_SIZE + MIN_SPLIT_PAYLOAD
  {
    RoundedSize(0xFFFF_FFFF);
    var t := Alloc32(Initial(start), 0xFFFF_FFFF).0;
    assert t.blocks[0].Payload() == start + HEADER_SIZE && !t.blocks[0].free;
  }

  /** The heap with all of its identity-mapped memory handed out. */
  function HandedOut(start: nat): State
    requires start + HEADER_SIZE <= IDENTITY_MAP_LIMIT
  {
    State([Block(start, IDENTITY_MAP_LIMIT - start - HEADER_SIZE, false)], IDENTITY_MAP_LIMIT)
  }

  /**
   Behind a live tail 4 gigabytes less a page are "granted" without a page mapped, and the
   rest of the block that was made up lies inside the live tail.
   */
  lemma GrantOutOfNothing(start: nat)
    requires start + HEADER_SIZE <= IDENTITY_MAP_LIMIT
    ensures Alloc32(HandedOut(start), 0xFFFF_F000) ==
            (State(HandedOut(start).blocks +
                   [Block(IDENTITY_MAP_LIMIT, 0xFFFF_F000, false), Block(IDENTITY_MAP_LIMIT - 0xFE8, 0xFD0, true)],
                   IDENTITY_MAP_LIMIT),
             IDENTITY_MAP_LIMIT + HEADER_SIZE)
  {
    var s := HandedOut(start);
    AlignUpExact(0xFFFF_F000, ALLOC_ALIGN);
    AlignUpExact(0xFFFF_F018, PAGE_SIZE);
    var g := NewTail(s.blocks, TWO32 - HEADER_SIZE);
    assert Fits(g[1], 0xFFFF_F000) && !Fits(g[0], 0xFFFF_F000);
    assert FirstFit(g, 0xFFFF_F000, 0) == 1;
    assert FirstFit(s.blocks, 0xFFFF_F000, 0) == 1;
    assert Grow32(s, 0xFFFF_F000) == (State(g, IDENTITY_MAP_LIMIT), true);
    assert Take32(g, 1, 0xFFFF_F000) ==
           s.blocks + [Block(IDENTITY_MAP_LIMIT, 0xFFFF_F000, false), Block(IDENTITY_MAP_LIMIT - 0xFE8, 0xFD0, true)];
  }
}
