/** What happens to the bytes of live payloads across the steps of an operation. */
module HeapPayloads {
  import opened Word32
  import opened HeapSpec
  import opened HeapLaws
  import opened HeapMemory

  /** No payload byte lies in a header. */
  lemma PayloadNotInHeader(bs: seq<Block>, b: Block, k: nat)
    requires Placed(bs) && b in bs && b.Payload() <= k < b.End()
    ensures !InHeader(Heads(bs), k)
  {
    var i :| 0 <= i < |bs| && bs[i] == b;
    forall h | h in Heads(bs) ensures !(h <= k < h + HEADER_SIZE) {
      var j :| 0 <= j < |bs| && bs[j].addr == h;
    }
  }

  /** A step that changes headers only keeps every byte that is payload before and after. */
  lemma PayloadByteKept(m0: seq<byte>, m1: seq<byte>, bs: seq<Block>, b: Block, cs: seq<Block>, c: Block, k: nat)
    requires SameOutside(m0, m1, Heads(bs) + Heads(cs)) && Placed(bs) && Placed(cs)
    requires b in bs && b.Payload() <= k < b.End() && c in cs && c.Payload() <= k < c.End() && k < |m1|
    ensures m1[k] == m0[k]
  {
    PayloadNotInHeader(bs, b, k);
    PayloadNotInHeader(cs, c, k);
    hide Heads;
    if InHeader(Heads(bs) + Heads(cs), k) {
      var h :| h in Heads(bs) + Heads(cs) && h <= k < h + HEADER_SIZE;
      if h in Heads(bs) { assert false; } else { assert false; }
    }
  }

  /** Blocks that are live before and after, except one at `exempt`, hold the same bytes. */
  ghost predicate PayloadsSame(m0: seq<byte>, m1: seq<byte>, before: set<Block>, after: set<Block>, exempt: nat) {
    && |m0| == |m1|
    && forall b, a :: b in before && b in after && b.Payload() != exempt && b.Payload() <= a < b.End() && a < |m1| ==>
         m1[a] == m0[a]
  }

  lemma PayloadsSameReflexive(m: seq<byte>, live: set<Block>)
    ensures PayloadsSame(m, m, live, live, 0)
  {}

  lemma PayloadsSameTwice(m0: seq<byte>, m1: seq<byte>, m2: seq<byte>,
                          before: set<Block>, middle: set<Block>, after: set<Block>, exempt: nat)
    requires PayloadsSame(m0, m1, before, middle, exempt) && PayloadsSame(m1, m2, middle, after, exempt)
    requires before * after <= middle
    ensures PayloadsSame(m0, m2, before, after, exempt)
  {
    forall b, a | b in before && b in after && b.Payload() != exempt && b.Payload() <= a < b.End() && a < |m2|
      ensures m2[a] == m0[a]
    {
      assert b in before * after;
      assert m1[a] == m0[a] && m2[a] == m1[a];
    }
  }

  lemma PayloadsSameBut(m0: seq<byte>, m1: seq<byte>, before: set<Block>, after: set<Block>, exempt: nat)
    requires PayloadsSame(m0, m1, before, after, 0)
    ensures PayloadsSame(m0, m1, before, after, exempt)
  {
    forall b, a | b in before && b in after && b.Payload() <= a < b.End() && a < |m1| ensures m1[a] == m0[a] {
      assert b.Payload() != 0;
    }
  }

  /** A block outside every live block, such as one just allocated, needs no exemption. */
  lemma PayloadsSameFresh(m0: seq<byte>, m1: seq<byte>, before: set<Block>, after: set<Block>, exempt: nat)
    requires PayloadsSame(m0, m1, before, after, exempt)
    requires forall b :: b in before && b in after ==> b.Payload() != exempt
    ensures PayloadsSame(m0, m1, before, after, 0)
  {}

  /** A copy that a payload holds is still there after a step that keeps the payload. */
  lemma CopiedThenKept(m0: seq<byte>, from: nat, m1: seq<byte>, m2: seq<byte>, b: Block, n: nat,
                       middle: set<Block>, after: set<Block>)
    requires Copied(m0, from, m1, b.Payload(), n) && n <= b.size
    requires PayloadsSame(m1, m2, middle, after, 0) && b in middle && b in after
    ensures Copied(m0, from, m2, b.Payload(), n)
  {
    assert b.Payload() != 0;
  }

  /** A payload that has been kept and is then copied. */
  lemma KeptThenCopied(m0: seq<byte>, m1: seq<byte>, m2: seq<byte>, b: Block, to: nat,
                       before: set<Block>, middle: set<Block>)
    requires PayloadsSame(m0, m1, before, middle, 0) && b in before && b in middle
    requires Copied(m1, b.Payload(), m2, to, b.size)
    ensures Copied(m0, b.Payload(), m2, to, b.size)
  {
    forall a | to <= a < to + b.size ensures m2[a] == m0[a - to + b.Payload()] {
      assert m1[a - to + b.Payload()] == m0[a - to + b.Payload()];
    }
  }

  lemma HeadersOnlyKeepPayloads(m0: seq<byte>, m1: seq<byte>, bs: seq<Block>, cs: seq<Block>)
    requires SameOutside(m0, m1, Heads(bs) + Heads(cs)) && Placed(bs) && Placed(cs)
    ensures PayloadsSame(m0, m1, Live(bs), Live(cs), 0)
  {
    SameLength(m0, m1, Heads(bs) + Heads(cs));
    forall b, a | b in Live(bs) && b in Live(cs) && b.Payload() <= a < b.End() && a < |m1| ensures m1[a] == m0[a] {
      hide SameOutside, Heads, Placed;
      PayloadByteKept(m0, m1, bs, b, cs, b, a);
    }
  }

  /** A step that changes headers only keeps everything outside the heap. */
  lemma HeadersOnlyKeepOutside(m0: seq<byte>, m1: seq<byte>, bs: seq<Block>, cs: seq<Block>, lo: nat, hi: nat)
    requires SameOutside(m0, m1, Heads(bs) + Heads(cs)) && Covers(bs, lo, hi) && Covers(cs, lo, hi)
    ensures KeptOutside(m0, m1, lo, hi)
  {
    hide Covers;
    forall k | 0 <= k < |m1| && !(lo <= k < hi) ensures !InHeader(Heads(bs) + Heads(cs), k) {
      NotInHeads(bs, lo, hi, k);
      NotInHeads(cs, lo, hi, k);
    }
  }

  /** The list lies in `[lo, hi)`. */
  ghost predicate Covers(bs: seq<Block>, lo: nat, hi: nat) {
    Tiled(bs) && (bs != [] ==> bs[0].addr == lo && Brk(bs) <= hi)
  }

  lemma NotInHeads(bs: seq<Block>, lo: nat, hi: nat, k: nat)
    requires Covers(bs, lo, hi) && !(lo <= k < hi)
    ensures !InHeader(Heads(bs), k)
  {
    hide Tiled;
    forall h | h in Heads(bs) ensures !(h <= k < h + HEADER_SIZE) {
      var i :| 0 <= i < |bs| && bs[i].addr == h;
      Within(bs, i);
    }
  }

  /** Writing into one payload keeps the others, and everything outside the heap. */
  lemma PayloadWriteKeeps(bs: seq<Block>, j: nat, m0: seq<byte>, m1: seq<byte>, from: nat, to: nat, lo: nat, hi: nat)
    requires Covers(bs, lo, hi) && j < |bs|
    requires KeptOutside(m0, m1, from, to) && bs[j].Payload() <= from <= to <= bs[j].End()
    ensures PayloadsSame(m0, m1, Live(bs), Live(bs), bs[j].Payload())
    ensures KeptOutside(m0, m1, lo, hi)
  {
    hide Tiled;
    Within(bs, j);
    forall b | b in Live(bs) && b.Payload() != bs[j].Payload()
      ensures b.End() <= bs[j].Payload() || bs[j].End() <= b.Payload()
    {
      Apart(bs, b, bs[j]);
    }
  }

  lemma KeptOutsideTwice(m0: seq<byte>, m1: seq<byte>, m2: seq<byte>, lo: nat, hi: nat)
    requires KeptOutside(m0, m1, lo, hi) && KeptOutside(m1, m2, lo, hi)
    ensures KeptOutside(m0, m2, lo, hi)
  {}

  lemma KeptOutsideMore(m0: seq<byte>, m1: seq<byte>, lo: nat, hi: nat, more: nat)
    requires KeptOutside(m0, m1, lo, hi) && hi <= more
    ensures KeptOutside(m0, m1, lo, more)
  {}

  /** A block that keeps its address keeps the bytes common to its old and new payload. */
  lemma HeadersOnlyKeepStretch(m0: seq<byte>, m1: seq<byte>, bs: seq<Block>, b: Block, cs: seq<Block>, c: Block)
    requires SameOutside(m0, m1, Heads(bs) + Heads(cs)) && Placed(bs) && Placed(cs) && |m1| == HEAP_VIRT_LIMIT
    requires b in bs && c in cs && b.addr == c.addr
    ensures Copied(m0, b.Payload(), m1, c.Payload(), Shorter(b, c))
  {
    SameLength(m0, m1, Heads(bs) + Heads(cs));
    assert b.End() <= HEAP_VIRT_LIMIT && c.End() <= HEAP_VIRT_LIMIT;
    hide SameOutside, Heads, Placed;
    forall a | c.Payload() <= a < c.Payload() + Shorter(b, c) ensures m1[a] == m0[a] {
      PayloadByteKept(m0, m1, bs, b, cs, c, a);
    }
  }

  function Shorter(b: Block, c: Block): nat {
    if b.size <= c.size then b.size else c.size
  }

  // ----- krealloc by moving -----

  /** After a copy into block `j` and the release of the block at `ptr`. */
  lemma CopyThenFree(s: State, ptr: nat, j: nat, size: nat, m0: seq<byte>, m1: seq<byte>, m2: seq<byte>)
    requires Inv(s) && j < |s.blocks| && !s.blocks[j].free && s.blocks[j].Payload() != ptr && size <= s.blocks[j].size
    requires var target := s.blocks[j].Payload();
             && Copied(m0, ptr, m1, target, size)
             && PayloadsSame(m0, m1, Live(s.blocks), Live(s.blocks), target)
             && PayloadsSame(m1, m2, Live(s.blocks), Live(Free(s, ptr).blocks), 0)
    ensures var target := s.blocks[j].Payload();
            && Copied(m0, ptr, m2, target, size)
            && PayloadsSame(m0, m2, Live(s.blocks), Live(Free(s, ptr).blocks), target)
  {
    hide Tiled, Free, PayloadsSame, Copied;
    var target := s.blocks[j].Payload();
    var before, after := Live(s.blocks), Live(Free(s, ptr).blocks);
    FreeReleases(s, ptr);
    PayloadsSameBut(m1, m2, before, after, target);
    PayloadsSameTwice(m0, m1, m2, before, before, after, target);
    CopiedThenKept(m0, ptr, m1, m2, s.blocks[j], size, before, after);
  }

  /** Allocation, copy and release together. */
  lemma MoveKeeps(s: State, i: nat, size: nat, m0: seq<byte>, m1: seq<byte>, m2: seq<byte>)
    requires Inv(s) && i < |s.blocks| && !s.blocks[i].free && size <= MAX_REQUEST && Alloc(s, size).1 != 0
    requires var (m, target) := Alloc(s, size);
             var ptr := s.blocks[i].Payload();
             && PayloadsSame(m0, m1, Live(s.blocks), Live(m.blocks), 0)
             && PayloadsSame(m1, m2, Live(m.blocks), Live(Free(m, ptr).blocks), target)
             && Copied(m1, ptr, m2, target, s.blocks[i].size)
    ensures var (m, target) := Alloc(s, size);
            var ptr := s.blocks[i].Payload();
            && PayloadsSame(m0, m2, Live(s.blocks), Live(Free(m, ptr).blocks), 0)
            && Copied(m0, ptr, m2, target, s.blocks[i].size)
  {
    hide Tiled, Alloc, Free, PayloadsSame, Copied, LiveIndex;
    var (m, target) := Alloc(s, size);
    MoveFacts(s, i, size);
    var b := s.blocks[i];
    var before, middle, after := Live(s.blocks), Live(m.blocks), Live(Free(m, b.Payload()).blocks);
    assert b in before && b in middle;
    PayloadsSameBut(m0, m1, before, middle, target);
    PayloadsSameTwice(m0, m1, m2, before, middle, after, target);
    PayloadsSameFresh(m0, m2, before, after, target);
    KeptThenCopied(m0, m1, m2, b, target, before, middle);
  }

  /** Allocation followed by writing into the new payload. */
  lemma AllocThenWrite(s: State, size: nat, m0: seq<byte>, m1: seq<byte>, m2: seq<byte>)
    requires Inv(s) && size <= MAX_REQUEST && Alloc(s, size).1 != 0
    requires var (m, target) := Alloc(s, size);
             && PayloadsSame(m0, m1, Live(s.blocks), Live(m.blocks), 0)
             && PayloadsSame(m1, m2, Live(m.blocks), Live(m.blocks), target)
    ensures PayloadsSame(m0, m2, Live(s.blocks), Live(Alloc(s, size).0.blocks), 0)
  {
    hide Tiled, Alloc, PayloadsSame;
    var (m, target) := Alloc(s, size);
    AllocFresh(s, size);
    PayloadsSameBut(m0, m1, Live(s.blocks), Live(m.blocks), target);
    PayloadsSameTwice(m0, m1, m2, Live(s.blocks), Live(m.blocks), Live(m.blocks), target);
    PayloadsSameFresh(m0, m2, Live(s.blocks), Live(m.blocks), target);
  }
}
