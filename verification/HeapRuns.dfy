/**
 Whole runs of the allocator: what holds after any sequence of requests,
 starting from any heap that satisfies the invariant.
 */
module HeapRuns {
  import opened Word32
  import opened HeapSpec
  import opened HeapLaws
  import opened HeapCoalescing
  import opened HeapConservation

  datatype Request =
    | Kmalloc(size: nat)
    | Kcalloc(count: nat, size: nat)
    | Kfree(ptr: nat)
    | Krealloc(ptr: nat, size: nat)

  /** Requests whose size arithmetic does not wrap. */
  predicate Bounded(r: Request) {
    match r
    case Kmalloc(size) => size <= MAX_REQUEST
    case Kcalloc(count, size) => count < TWO32 && size < TWO32 && (count * size <= MAX_REQUEST || count * size >= TWO32)
    case Kfree(ptr) => true
    case Krealloc(ptr, size) => size <= MAX_REQUEST
  }

  /** The state after a request, and the pointer it answers (0 for null or none). */
  function Step(s: State, r: Request): (State, nat)
    requires Bounded(r)
  {
    match r
    case Kmalloc(size) => Alloc(s, size)
    case Kcalloc(count, size) => Calloc(s, count, size)
    case Kfree(ptr) => (Free(s, ptr), 0)
    case Krealloc(ptr, size) => Realloc(s, ptr, size)
  }

  ghost predicate AllBounded(rs: seq<Request>) {
    forall r :: r in rs ==> Bounded(r)
  }

  function Run(s: State, rs: seq<Request>): State
    requires AllBounded(rs)
    decreases |rs|
  {
    if rs == [] then s else Run(Step(s, rs[0]).0, rs[1..])
  }

  // ----- the invariant -----

  lemma StepKeepsInv(s: State, r: Request)
    requires Inv(s) && Bounded(r)
    ensures var t := Step(s, r).0;
            && Inv(t) && s.mapped <= t.mapped
            && (t.blocks == [] <==> s.blocks == [])
            && (s.blocks != [] ==> t.blocks[0].addr == s.blocks[0].addr)
  {
    hide Tiled, Alloc, Free, Realloc;
    match r
    case Kmalloc(size) => AllocKeepsInv(s, size);
    case Kcalloc(count, size) => if count * size <= MAX_REQUEST { AllocKeepsInv(s, count * size); }
    case Kfree(ptr) => FreeReleases(s, ptr);
    case Krealloc(ptr, size) => ReallocKeepsInv(s, ptr, size);
  }

  lemma ReallocKeepsInv(s: State, ptr: nat, size: nat)
    requires Inv(s) && size <= MAX_REQUEST
    ensures var t := Realloc(s, ptr, size).0;
            && Inv(t) && s.mapped <= t.mapped
            && (t.blocks == [] <==> s.blocks == [])
            && (s.blocks != [] ==> t.blocks[0].addr == s.blocks[0].addr)
  {
    hide Tiled, Alloc, Free;
    if ptr == 0 {
      AllocKeepsInv(s, size);
    } else if size == 0 {
      FreeReleases(s, ptr);
    } else if IsLive(s.blocks, ptr) {
      ReallocResizes(s, ptr, size);
    }
  }

  /** Every reachable heap satisfies the invariant, whatever was asked of it. */
  lemma {:induction false} RunKeepsInv(s: State, rs: seq<Request>)
    requires Inv(s) && AllBounded(rs)
    ensures var t := Run(s, rs);
            && Inv(t) && s.mapped <= t.mapped
            && (t.blocks == [] <==> s.blocks == [])
            && (s.blocks != [] ==> t.blocks[0].addr == s.blocks[0].addr)
    decreases |rs|
  {
    hide Inv, Step;
    if rs != [] {
      StepKeepsInv(s, rs[0]);
      RunKeepsInv(Step(s, rs[0]).0, rs[1..]);
    }
  }

  /** After any run the counters add up, headers and payloads fill the heap, and no sum has wrapped. */
  lemma RunConserves(s: State, rs: seq<Request>)
    requires Inv(s) && s.blocks != [] && AllBounded(rs)
    ensures var bs := Run(s, rs).blocks;
            && bs != [] && Used(bs) + Remaining(bs) == Total(bs) < TWO32
            && Total(bs) + HEADER_SIZE * |bs| == Brk(bs) - s.blocks[0].addr
  {
    hide Run, Tiled;
    RunKeepsInv(s, rs);
    Conservation(Run(s, rs).blocks);
    CountersFit(Run(s, rs).blocks);
  }

  /** After any run, distinct live blocks overlap neither in payload nor in header. */
  lemma RunNeverOverlaps(s: State, rs: seq<Request>, b: Block, c: Block)
    requires Inv(s) && AllBounded(rs)
    requires b in Live(Run(s, rs).blocks) && c in Run(s, rs).blocks && b != c
    ensures b.End() <= c.addr || c.End() <= b.addr
    ensures b.Payload() % ALLOC_ALIGN == 0 && MIN_SPLIT_PAYLOAD <= b.size && b.End() <= Run(s, rs).mapped
  {
    hide Run, Tiled;
    RunKeepsInv(s, rs);
    var bs := Run(s, rs).blocks;
    Apart(bs, b, c);
    var i :| 0 <= i < |bs| && bs[i] == b;
    Within(bs, i);
  }

  // ----- the bytes in use -----

  /** The bytes of the block that a request takes away from the clients. */
  function Released(s: State, r: Request, answer: nat): nat {
    match r
    case Kmalloc(_) => 0
    case Kcalloc(_, _) => 0
    case Kfree(ptr) => LiveSize(s.blocks, ptr)
    case Krealloc(ptr, size) => if size == 0 || answer != 0 then LiveSize(s.blocks, ptr) else 0
  }

  /** One request changes the bytes in use by the block it grants less the block it takes away. */
  lemma StepUses(s: State, r: Request)
    requires Inv(s) && Bounded(r)
    ensures var (t, answer) := Step(s, r);
            Used(t.blocks) + Released(s, r, answer) == Used(s.blocks) + LiveSize(t.blocks, answer)
  {
    hide Inv, Alloc, Free, Resize, LiveIndex, Used;
    var (t, answer) := Step(s, r);
    NullHasNoSize(s.blocks);
    NullHasNoSize(t.blocks);
    hide LiveSize;
    match r
    case Kmalloc(size) => AllocUses(s, size);
    case Kcalloc(count, size) => if 0 < count * size < TWO32 { AllocUses(s, count * size); }
    case Kfree(ptr) => FreeUses(s, ptr);
    case Krealloc(ptr, size) =>
      if ptr == 0 {
        AllocUses(s, size);
        NothingGranted(s);
      } else if size == 0 {
        FreeUses(s, ptr);
      } else if IsLive(s.blocks, ptr) {
        ResizeUses(s, ptr, size);
      }
  }

  lemma NothingGranted(s: State)
    ensures Alloc(s, 0) == (s, 0)
  {}

  /** The bytes granted and taken away in a run. */
  function Ledger(s: State, rs: seq<Request>): (nat, nat)
    requires AllBounded(rs)
    decreases |rs|
  {
    if rs == [] then (0, 0)
    else
      var (t, answer) := Step(s, rs[0]);
      var (granted, released) := Ledger(t, rs[1..]);
      (LiveSize(t.blocks, answer) + granted, Released(s, rs[0], answer) + released)
  }

  /** Over any run `kmalloc_used` balances: what was in use and what was granted, less what was taken away. */
  lemma {:induction false} RunUses(s: State, rs: seq<Request>)
    requires Inv(s) && AllBounded(rs)
    ensures var (granted, released) := Ledger(s, rs);
            Used(Run(s, rs).blocks) + released == Used(s.blocks) + granted
    decreases |rs|
  {
    hide Inv, Step, Used, LiveSize, Released;
    if rs != [] {
      StepKeepsInv(s, rs[0]);
      StepUses(s, rs[0]);
      RunUses(Step(s, rs[0]).0, rs[1..]);
    }
  }

  // ----- the handles the clients hold -----

  ghost function Handles(bs: seq<Block>): set<nat> {
    set b | b in Live(bs) :: b.Payload()
  }

  /** What the clients hold after a request that was answered with `answer`. */
  function Held(held: set<nat>, r: Request, answer: nat): set<nat> {
    match r
    case Kmalloc(_) => if answer == 0 then held else held + {answer}
    case Kcalloc(_, _) => if answer == 0 then held else held + {answer}
    case Kfree(ptr) => held - {ptr}
    case Krealloc(ptr, size) =>
      if answer == 0 then (if size == 0 then held - {ptr} else held) else held - {ptr} + {answer}
  }

  /** The live blocks are exactly the handles: none is lost, none appears unasked, none is handed out twice. */
  lemma StepKeepsHandles(s: State, r: Request)
    requires Inv(s) && Bounded(r)
    ensures var (t, answer) := Step(s, r);
            && Handles(t.blocks) == Held(Handles(s.blocks), r, answer)
            && ((r.Kmalloc? || r.Kcalloc?) && answer != 0 ==> answer !in Handles(s.blocks))
  {
    hide Tiled, Alloc, Free, Realloc, LiveIndex;
    match r
    case Kmalloc(size) => AllocHandles(s, size);
    case Kcalloc(count, size) => if 0 < count * size <= MAX_REQUEST { AllocHandles(s, count * size); }
    case Kfree(ptr) => FreeReleases(s, ptr);
    case Krealloc(ptr, size) => ReallocHandles(s, ptr, size);
  }

  lemma AllocHandles(s: State, size: nat)
    requires Inv(s) && size <= MAX_REQUEST
    ensures var (t, answer) := Alloc(s, size);
            && Handles(t.blocks) == (if answer == 0 then Handles(s.blocks) else Handles(s.blocks) + {answer})
            && (answer != 0 ==> answer !in Handles(s.blocks))
  {
    hide Tiled, Alloc;
    var (t, answer) := Alloc(s, size);
    AllocNull(s, size);
    if answer != 0 {
      AllocGrants(s, size);
      AllocFresh(s, size);
      var granted := t.blocks[LiveIndex(t.blocks, answer, 0)];
      assert granted in Live(t.blocks) && granted.Payload() == answer;
    }
  }

  lemma ReallocHandles(s: State, ptr: nat, size: nat)
    requires Inv(s) && size <= MAX_REQUEST
    ensures var (t, answer) := Realloc(s, ptr, size);
            Handles(t.blocks) == Held(Handles(s.blocks), Krealloc(ptr, size), answer)
  {
    hide Tiled, Alloc, Free, Resize, LiveIndex;
    var (t, answer) := Realloc(s, ptr, size);
    if ptr == 0 {
      AllocHandles(s, size);
      AllocNull(s, size);
    } else if size == 0 {
      FreeReleases(s, ptr);
    } else if IsLive(s.blocks, ptr) {
      ReallocResizes(s, ptr, size);
      if answer != 0 {
        var before := s.blocks[LiveIndex(s.blocks, ptr, 0)];
        var after := t.blocks[LiveIndex(t.blocks, answer, 0)];
        assert before in Live(s.blocks) && before.Payload() == ptr;
        assert after in Live(t.blocks) && after.Payload() == answer;
        forall b | b in Live(s.blocks) && b.Payload() == ptr ensures b == before {
          UniqueLive(s.blocks, b, before);
        }
      }
    }
  }

  /** The handles after a run, kept by the clients' own bookkeeping. */
  function HeldAfter(s: State, rs: seq<Request>, held: set<nat>): set<nat>
    requires AllBounded(rs)
    decreases |rs|
  {
    if rs == [] then held
    else
      var (t, answer) := Step(s, rs[0]);
      HeldAfter(t, rs[1..], Held(held, rs[0], answer))
  }

  /** Over any run the allocator's live blocks and the clients' bookkeeping agree. */
  lemma {:induction false} RunKeepsHandles(s: State, rs: seq<Request>)
    requires Inv(s) && AllBounded(rs)
    ensures Handles(Run(s, rs).blocks) == HeldAfter(s, rs, Handles(s.blocks))
    decreases |rs|
  {
    hide Inv, Step, Handles, Held;
    if rs != [] {
      StepKeepsInv(s, rs[0]);
      StepKeepsHandles(s, rs[0]);
      RunKeepsHandles(Step(s, rs[0]).0, rs[1..]);
    }
  }

  predicate Names(r: Request, ptr: nat) {
    match r
    case Kmalloc(_) => false
    case Kcalloc(_, _) => false
    case Kfree(p) => p == ptr
    case Krealloc(p, _) => p == ptr
  }

  /** A live block that no request names stays live, with its address and size. */
  lemma StepKeepsUnnamed(s: State, r: Request, b: Block)
    requires Inv(s) && Bounded(r) && b in Live(s.blocks) && !Names(r, b.Payload())
    ensures b in Live(Step(s, r).0.blocks)
  {
    hide Tiled, Alloc, Free, Resize, LiveIndex;
    match r
    case Kmalloc(size) => AllocKeepsLive(s, size, b);
    case Kcalloc(count, size) => if count * size <= MAX_REQUEST { AllocKeepsLive(s, count * size, b); }
    case Kfree(ptr) => FreeReleases(s, ptr);
    case Krealloc(ptr, size) =>
      if ptr == 0 {
        AllocKeepsLive(s, size, b);
      } else if size == 0 {
        FreeReleases(s, ptr);
      } else if IsLive(s.blocks, ptr) {
        ReallocResizes(s, ptr, size);
      }
  }

  lemma AllocKeepsLive(s: State, size: nat, b: Block)
    requires Inv(s) && size <= MAX_REQUEST && b in Live(s.blocks)
    ensures b in Live(Alloc(s, size).0.blocks)
  {
    hide Tiled, Alloc, LiveIndex;
    AllocNull(s, size);
    if Alloc(s, size).1 != 0 { AllocGrants(s, size); }
  }

  lemma {:induction false} RunKeepsUnnamed(s: State, rs: seq<Request>, b: Block)
    requires Inv(s) && AllBounded(rs) && b in Live(s.blocks)
    requires forall r :: r in rs ==> !Names(r, b.Payload())
    ensures b in Live(Run(s, rs).blocks)
    decreases |rs|
  {
    hide Inv, Step, Live, Names;
    if rs != [] {
      StepKeepsInv(s, rs[0]);
      StepKeepsUnnamed(s, rs[0], b);
      RunKeepsUnnamed(Step(s, rs[0]).0, rs[1..], b);
    }
  }

  // ----- fragmentation -----

  /** No `krealloc` of the run splits a remainder off in front of a free block. */
  ghost predicate LeavesNoGaps(s: State, rs: seq<Request>)
    requires AllBounded(rs)
    decreases |rs|
  {
    rs != [] ==>
      && Bounded(rs[0])
      && !(rs[0].Krealloc? && LeavesGap(s, rs[0].ptr, rs[0].size))
      && LeavesNoGaps(Step(s, rs[0]).0, rs[1..])
  }

  /** One request keeps the list coalesced exactly when it leaves no gap. */
  lemma StepCoalesced(s: State, r: Request)
    requires Inv(s) && Coalesced(s.blocks) && Bounded(r)
    ensures Coalesced(Step(s, r).0.blocks) <==> !(r.Krealloc? && LeavesGap(s, r.ptr, r.size))
  {
    hide Inv, Coalesced, Alloc, Free, Realloc, LeavesGap;
    match r
    case Kmalloc(size) => AllocCoalesced(s, size);
    case Kcalloc(count, size) => if count * size <= MAX_REQUEST { AllocCoalesced(s, count * size); }
    case Kfree(ptr) => FreeCoalesced(s, ptr);
    case Krealloc(ptr, size) => ReallocCoalesced(s, ptr, size);
  }

  lemma {:induction false} RunCoalesced(s: State, rs: seq<Request>)
    requires Inv(s) && Coalesced(s.blocks) && AllBounded(rs) && LeavesNoGaps(s, rs)
    ensures Coalesced(Run(s, rs).blocks)
    decreases |rs|
  {
    hide Inv, Step, Coalesced, LeavesGap;
    if rs != [] {
      StepKeepsInv(s, rs[0]);
      StepCoalesced(s, rs[0]);
      RunCoalesced(Step(s, rs[0]).0, rs[1..]);
    }
  }

  /** Such a run, once everything has been freed, ends in a single free block that spans the heap. */
  lemma RunEndsInOneBlock(s: State, rs: seq<Request>)
    requires Inv(s) && s.blocks != [] && Coalesced(s.blocks) && AllBounded(rs) && LeavesNoGaps(s, rs)
    requires HeldAfter(s, rs, Handles(s.blocks)) == {}
    ensures var bs := Run(s, rs).blocks;
            |bs| == 1 && bs[0].free && bs[0].addr == s.blocks[0].addr &&
                bs[0].size == Brk(bs) - bs[0].addr - HEADER_SIZE
  {
    hide Run, HeldAfter, LeavesNoGaps, Coalesced;
    RunKeepsInv(s, rs);
    RunCoalesced(s, rs);
    RunKeepsHandles(s, rs);
    var bs := Run(s, rs).blocks;
    assert forall b :: b in Live(bs) ==> b.Payload() in Handles(bs);
    AllFreeIsOneBlock(bs);
  }

  /** A run that leaves a gap: after the last `kfree` nothing is live, yet two free blocks stay apart. */
  lemma GapStays(start: nat)
    requires 0 < start && start % ALLOC_ALIGN == 0 && start + 1000 < IDENTITY_MAP_LIMIT
    ensures var p := start + HEADER_SIZE;
            var s := Initial(start);
            && AllBounded([Kmalloc(64), Krealloc(p, 32), Kfree(p)])
            && Inv(s) && Coalesced(s.blocks)
            && var t := Run(s, [Kmalloc(64), Krealloc(p, 32), Kfree(p)]);
            && t.blocks == [Block(start, 64, true),
                            Block(start + 88, IDENTITY_MAP_LIMIT - start - 112, true)]
            && Live(t.blocks) == {}
  {
    var p := start + HEADER_SIZE;
    var s := Initial(start);
    InitialInv(start);
    var rest := Block(start + 88, IDENTITY_MAP_LIMIT - start - 112, true);
    var s1 := State([Block(start, 64, false), rest], IDENTITY_MAP_LIMIT);
    var s2 := State([Block(start, 32, false), Block(start + 56, 8, true), rest], IDENTITY_MAP_LIMIT);
    var s3 := State([Block(start, 64, true), rest], IDENTITY_MAP_LIMIT);
    assert Step(s, Kmalloc(64)).0 == s1;
    assert Step(s1, Krealloc(p, 32)).0 == s2;
    assert Step(s2, Kfree(p)).0 == s3;
    hide Step;
    RunThree(s, Kmalloc(64), Krealloc(p, 32), Kfree(p));
  }

  /**
   A heap in which `kfree(kmalloc(n))` merges more than it split, without any growth:
   the gap that `krealloc` left serves 8 bytes, and comes back melted into the block
   behind it.
   */
  lemma GapIsNotRestored(start: nat)
    requires 0 < start && start % ALLOC_ALIGN == 0 && start + 1000 < IDENTITY_MAP_LIMIT
    ensures var runs := [Kmalloc(64), Krealloc(start + HEADER_SIZE, 32)];
            && AllBounded(runs)
            && var s := Run(Initial(start), runs);
            var (t, ptr) := Alloc(s, 8);
            && Inv(s) && ptr == start + 80 && t.mapped == s.mapped && FirstFit(s.blocks, BlockSize(8), 0) < |s.blocks|
            && Free(t, ptr).blocks == [Block(start, 32, false),
                                       Block(start + 56, IDENTITY_MAP_LIMIT - start - 80, true)]
            && Free(t, ptr) != s
  {
    var p := start + HEADER_SIZE;
    var s := Initial(start);
    InitialInv(start);
    var rest := Block(start + 88, IDENTITY_MAP_LIMIT - start - 112, true);
    var s1 := State([Block(start, 64, false), rest], IDENTITY_MAP_LIMIT);
    var s2 := State([Block(start, 32, false), Block(start + 56, 8, true), rest], IDENTITY_MAP_LIMIT);
    assert Step(s, Kmalloc(64)).0 == s1;
    assert Step(s1, Krealloc(p, 32)).0 == s2;
    GapServes(start);
    hide Step, Inv, Alloc, Free, FirstFit;
    RunTwo(s, Kmalloc(64), Krealloc(p, 32));
    RunKeepsInv(s, [Kmalloc(64), Krealloc(p, 32)]);
  }

  /** The allocation and the free of that heap. */
  lemma GapServes(start: nat)
    requires 0 < start && start % ALLOC_ALIGN == 0 && start + 1000 < IDENTITY_MAP_LIMIT
    ensures var rest := Block(start + 88, IDENTITY_MAP_LIMIT - start - 112, true);
            var s := State([Block(start, 32, false), Block(start + 56, 8, true), rest], IDENTITY_MAP_LIMIT);
            var (t, ptr) := Alloc(s, 8);
            && ptr == start + 80 && t.mapped == s.mapped && FirstFit(s.blocks, BlockSize(8), 0) == 1
            && Free(t, ptr).blocks == [Block(start, 32, false),
                                       Block(start + 56, IDENTITY_MAP_LIMIT - start - 80, true)]
  {
    var rest := Block(start + 88, IDENTITY_MAP_LIMIT - start - 112, true);
    var s := State([Block(start, 32, false), Block(start + 56, 8, true), rest], IDENTITY_MAP_LIMIT);
    assert BlockSize(8) == 8;
    hide BlockSize;
    var taken := [Block(start, 32, false), Block(start + 56, 8, false), rest];
    assert Take(s.blocks, 1, 8) == taken;
    assert LiveIndex(taken, start + 80, 0) == 1;
  }

  lemma RunTwo(s: State, a: Request, b: Request)
    requires Bounded(a) && Bounded(b)
    ensures AllBounded([a, b])
    ensures Run(s, [a, b]) == Step(Step(s, a).0, b).0
  {
    hide Step;
    assert [a, b][1..] == [b] && [b][1..] == [];
    var t := Step(s, a).0;
    assert Run(t, [b]) == Run(Step(t, b).0, []);
  }

  lemma RunThree(s: State, a: Request, b: Request, c: Request)
    requires Bounded(a) && Bounded(b) && Bounded(c)
    ensures AllBounded([a, b, c])
    ensures Run(s, [a, b, c]) == Step(Step(Step(s, a).0, b).0, c).0
  {
    hide Step;
    assert [a, b, c][1..] == [b, c] && [b, c][1..] == [c] && [c][1..] == [];
    assert Run(s, [a, b, c]) == Run(Step(s, a).0, [b, c]);
    var t := Step(s, a).0;
    assert Run(t, [b, c]) == Run(Step(t, b).0, [c]);
    var u := Step(t, b).0;
    assert Run(u, [c]) == Run(Step(u, c).0, []);
  }
}
