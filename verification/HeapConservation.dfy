/** The three counters of the heap: no byte is lost and none is counted twice. */
module HeapConservation {
  import opened Word32
  import opened HeapSpec
  import opened HeapLaws

  lemma {:induction false} Conservation(bs: seq<Block>)
    ensures Used(bs) + Remaining(bs) == Total(bs)
    ensures Tiled(bs) && bs != [] ==> Total(bs) + HEADER_SIZE * |bs| == Brk(bs) - bs[0].addr
  {
    if bs != [] {
      Conservation(bs[1..]);
      if Tiled(bs) && |bs| > 1 {
        TiledConcat([bs[0]], bs[1..]);
        assert bs == [bs[0]] + bs[1..];
      }
    }
  }

  lemma {:induction false} SumWithin(bs: seq<Block>, countFree: bool, countLive: bool)
    ensures SumOf(bs, countFree, countLive) <= Total(bs)
  {
    if bs != [] { SumWithin(bs[1..], countFree, countLive); }
  }

  /** The sums stay below the heap limit, so 32-bit addition does not wrap. */
  lemma CountersFit(bs: seq<Block>)
    requires Tiled(bs) && (bs != [] ==> Brk(bs) <= HEAP_VIRT_LIMIT)
    ensures Total(bs) <= HEAP_VIRT_LIMIT < TWO32
  {
    Conservation(bs);
  }

  /** One turn of a summing walk. */
  lemma SumStep(bs: seq<Block>, k: nat, countFree: bool, countLive: bool)
    requires k < |bs|
    ensures SumOf(bs[k..], countFree, countLive) ==
            (if if bs[k].free then countFree else countLive then bs[k].size else 0) +
                SumOf(bs[k + 1..], countFree, countLive)
  {
    assert bs[k..][1..] == bs[k + 1..];
  }

  lemma SuffixEnds(bs: seq<Block>)
    ensures bs[0..] == bs && bs[|bs|..] == []
  {}

  // ----- the counters as sums over sets of blocks -----

  /** The payload bytes of a set of blocks. */
  ghost function SizeOf(blocks: set<Block>): nat {
    if blocks == {} then 0
    else
      var b :| b in blocks;
      b.size + SizeOf(blocks - {b})
  }

  /** The sum does not depend on the order in which the blocks are taken. */
  lemma {:induction false} SizeOfRemove(blocks: set<Block>, b: Block)
    requires b in blocks
    ensures SizeOf(blocks) == b.size + SizeOf(blocks - {b})
    decreases |blocks|
  {
    var c :| c in blocks && SizeOf(blocks) == c.size + SizeOf(blocks - {c});
    if c != b {
      SizeOfRemove(blocks - {c}, b);
      SizeOfRemove(blocks - {b}, c);
      assert blocks - {c} - {b} == blocks - {b} - {c};
    }
  }

  lemma SizeOfAdd(blocks: set<Block>, b: Block)
    requires b !in blocks
    ensures SizeOf(blocks + {b}) == SizeOf(blocks) + b.size
  {
    SizeOfRemove(blocks + {b}, b);
    assert blocks + {b} - {b} == blocks;
  }

  ghost function Idle(bs: seq<Block>): set<Block> {
    set b | b in bs && b.free
  }

  /** `kmalloc_used` is the size of the live blocks, `kmalloc_remaining` that of the free ones. */
  lemma {:induction false} CountersMean(bs: seq<Block>)
    requires Tiled(bs)
    ensures Used(bs) == SizeOf(Live(bs)) && Remaining(bs) == SizeOf(Idle(bs))
  {
    if bs != [] {
      var b, rest := bs[0], bs[1..];
      assert bs == [b] + rest;
      TiledConcat([b], rest);
      CountersMean(rest);
      Disjoint(bs, 1, b);
      assert b in bs[..1] && bs[1..] == rest;
      if b.free {
        assert Live(bs) == Live(rest) && Idle(bs) == Idle(rest) + {b};
        SizeOfAdd(Idle(rest), b);
      } else {
        assert Live(bs) == Live(rest) + {b} && Idle(bs) == Idle(rest);
        SizeOfAdd(Live(rest), b);
      }
    }
  }

  /** Nothing is used if and only if nothing is live, nothing remains if and only if nothing is free. */
  lemma NothingUsed(bs: seq<Block>)
    requires Tiled(bs)
    ensures Used(bs) == 0 <==> Live(bs) == {}
    ensures Remaining(bs) == 0 <==> Idle(bs) == {}
  {
    CountersMean(bs);
    if b :| b in Live(bs) { SizeOfRemove(Live(bs), b); }
    if b :| b in Idle(bs) { SizeOfRemove(Idle(bs), b); }
  }

  /** A pointer's block is the only live one with its payload address. */
  lemma BlockAt(bs: seq<Block>, ptr: nat)
    requires IsLive(bs, ptr)
    ensures var b := bs[LiveIndex(bs, ptr, 0)]; b in Live(bs) && b.Payload() == ptr && LiveSize(bs, ptr) == b.size
  {}

  lemma NullHasNoSize(bs: seq<Block>)
    ensures LiveSize(bs, 0) == 0
  {}

  /** A `kmalloc` adds exactly the size of the block it grants. */
  lemma AllocUses(s: State, size: nat)
    requires Inv(s) && size <= MAX_REQUEST
    ensures var (t, ptr) := Alloc(s, size); Used(t.blocks) == Used(s.blocks) + LiveSize(t.blocks, ptr)
  {
    hide Tiled, Live, Alloc, Used, LiveSize, SizeOf, LiveIndex;
    var (t, ptr) := Alloc(s, size);
    AllocNull(s, size);
    NullHasNoSize(t.blocks);
    if ptr != 0 {
      AllocGrants(s, size);
      BlockAt(t.blocks, ptr);
      CountersMean(s.blocks);
      CountersMean(t.blocks);
      SizeOfAdd(Live(s.blocks), t.blocks[LiveIndex(t.blocks, ptr, 0)]);
    }
  }

  /** A `kfree` takes exactly the size of the named block away, and nothing if there is none. */
  lemma FreeUses(s: State, ptr: nat)
    requires Inv(s)
    ensures Used(s.blocks) == Used(Free(s, ptr).blocks) + LiveSize(s.blocks, ptr)
  {
    hide Tiled, Live, Free, Used, LiveSize, SizeOf, LiveIndex;
    var t := Free(s, ptr);
    FreeReleases(s, ptr);
    CountersMean(s.blocks);
    CountersMean(t.blocks);
    if IsLive(s.blocks, ptr) {
      BlockAt(s.blocks, ptr);
      var b := s.blocks[LiveIndex(s.blocks, ptr, 0)];
      forall c | c in Live(s.blocks) && c.Payload() == ptr ensures c == b { OneLive(s.blocks, b, c); }
      assert Live(t.blocks) == Live(s.blocks) - {b};
      SizeOfRemove(Live(s.blocks), b);
    } else {
      NotLiveFreesNothing(s, ptr);
    }
  }

  lemma OneLive(bs: seq<Block>, b: Block, c: Block)
    requires Tiled(bs) && b in Live(bs) && c in Live(bs) && b.Payload() == c.Payload()
    ensures b == c
  {
    UniqueLive(bs, b, c);
  }

  lemma NotLiveFreesNothing(s: State, ptr: nat)
    requires !IsLive(s.blocks, ptr)
    ensures Free(s, ptr) == s && LiveSize(s.blocks, ptr) == 0
  {}

  /** A resize changes the use by the difference of the two blocks; one that fails changes nothing. */
  lemma ResizeUses(s: State, ptr: nat, size: nat)
    requires Inv(s) && IsLive(s.blocks, ptr) && 0 < size <= MAX_REQUEST
    ensures var (t, moved) := Realloc(s, ptr, size);
            if moved == 0 then t.blocks == s.blocks
            else Used(t.blocks) + LiveSize(s.blocks, ptr) == Used(s.blocks) + LiveSize(t.blocks, moved)
  {
    hide Tiled, Live, Realloc, Used, LiveSize, SizeOf, LiveIndex;
    var (t, moved) := Realloc(s, ptr, size);
    ReallocResizes(s, ptr, size);
    if moved != 0 {
      BlockAt(s.blocks, ptr);
      BlockAt(t.blocks, moved);
      CountersMean(s.blocks);
      CountersMean(t.blocks);
      var before := s.blocks[LiveIndex(s.blocks, ptr, 0)];
      var after := t.blocks[LiveIndex(t.blocks, moved, 0)];
      SizeOfRemove(Live(s.blocks), before);
      SizeOfAdd(Live(s.blocks) - {before}, after);
    }
  }
}
