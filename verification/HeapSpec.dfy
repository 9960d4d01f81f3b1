/**
 The heap as a value: the list of blocks that the in-band headers describe, and
 how each operation of the allocator changes it.
 */
module HeapSpec {
  import opened Word32

  const IDENTITY_MAP_LIMIT: nat := 0x0040_0000
  const HEAP_VIRT_LIMIT: nat := 0x0400_0000
  const ALLOC_ALIGN: nat := 8
  const HEADER_SIZE: nat := 24
  const MIN_SPLIT_PAYLOAD: nat := 8

  /** The largest request whose rounding, header included, does not wrap. */
  const MAX_REQUEST: nat := 0xFFFF_EFE8

  datatype Block = Block(addr: nat, size: nat, free: bool) {
    function Payload(): nat { addr + HEADER_SIZE }
    function End(): nat { addr + HEADER_SIZE + size }
  }

  /** `blocks` is empty while the heap is not initialised. */
  datatype State = State(blocks: seq<Block>, mapped: nat)

  // ----- the block list -----

  /** Blocks lie end to end in address order; addresses and sizes keep the alignment. */
  ghost predicate Tiled(bs: seq<Block>) {
    && (forall b :: b in bs ==> b.addr % ALLOC_ALIGN == 0 && b.size % ALLOC_ALIGN == 0 && b.size >= MIN_SPLIT_PAYLOAD)
    && (forall i, j :: 0 <= i && j == i + 1 && j < |bs| ==> bs[j].addr == bs[i].End())
  }

  /** The end of the tiled range (the break of the heap). */
  function Brk(bs: seq<Block>): nat
    requires bs != []
  {
    bs[|bs| - 1].End()
  }

  /** The representation invariant of the allocator. */
  ghost predicate Inv(s: State) {
    && Tiled(s.blocks)
    && (s.blocks == [] ==> s.mapped == 0)
    && (s.blocks != [] ==>
          && 0 < s.blocks[0].addr
          && Brk(s.blocks) <= s.mapped
          && IDENTITY_MAP_LIMIT <= s.mapped <= HEAP_VIRT_LIMIT
          && s.mapped % PAGE_SIZE == 0
          && (Brk(s.blocks) == s.mapped || s.mapped == HEAP_VIRT_LIMIT))
  }

  predicate Fits(b: Block, required: nat) {
    b.free && b.size >= required
  }

  /** The index of the lowest-addressed free block that fits, or `|bs|`. */
  function FirstFit(bs: seq<Block>, required: nat, from: nat): (i: nat)
    requires from <= |bs|
    ensures from <= i <= |bs|
    ensures i < |bs| ==> Fits(bs[i], required)
    ensures forall k :: from <= k < i ==> !Fits(bs[k], required)
    decreases |bs| - from
  {
    if from == |bs| || Fits(bs[from], required) then from else FirstFit(bs, required, from + 1)
  }

  /** The index of the live block whose payload starts at `ptr`, or `|bs|`. */
  function LiveIndex(bs: seq<Block>, ptr: nat, from: nat): (i: nat)
    requires from <= |bs|
    ensures from <= i <= |bs|
    ensures i < |bs| ==> !bs[i].free && bs[i].Payload() == ptr
    ensures forall k :: from <= k < i ==> bs[k].free || bs[k].Payload() != ptr
    decreases |bs| - from
  {
    if from == |bs| || (!bs[from].free && bs[from].Payload() == ptr) then from else LiveIndex(bs, ptr, from + 1)
  }

  predicate IsLive(bs: seq<Block>, ptr: nat) {
    LiveIndex(bs, ptr, 0) < |bs|
  }

  /** The payload size of a live pointer, 0 for every other. */
  function LiveSize(bs: seq<Block>, ptr: nat): nat {
    var i := LiveIndex(bs, ptr, 0);
    if i < |bs| then bs[i].size else 0
  }

  ghost function Live(bs: seq<Block>): set<Block> {
    set b | b in bs && !b.free
  }

  // ----- steps on the block list -----

  predicate Splits(b: Block, required: nat) {
    b.size >= required + HEADER_SIZE + MIN_SPLIT_PAYLOAD
  }

  function SplitAt(bs: seq<Block>, i: nat, required: nat): seq<Block>
    requires i < |bs|
  {
    var b := bs[i];
    if !Splits(b, required) then bs
    else
      var rest := Block(b.Payload() + required, b.size - required - HEADER_SIZE, true);
      bs[..i] + [b.(size := required), rest] + bs[i + 1..]
  }

  function MergeNext(bs: seq<Block>, i: nat): seq<Block>
    requires i < |bs|
  {
    if i + 1 == |bs| || !bs[i + 1].free then bs
    else bs[..i] + [bs[i].(size := bs[i].size + HEADER_SIZE + bs[i + 1].size)] + bs[i + 2..]
  }

  function Mark(bs: seq<Block>, i: nat, free: bool): seq<Block>
    requires i < |bs|
  {
    bs[i := bs[i].(free := free)]
  }

  /** Carves `required` bytes out of the free block `i`. */
  function Take(bs: seq<Block>, i: nat, required: nat): seq<Block>
    requires i < |bs|
  {
    Mark(SplitAt(bs, i, required), i, false)
  }

  /** Gives the block `i` back and merges it with its free neighbours. */
  function Release(bs: seq<Block>, i: nat): seq<Block>
    requires i < |bs|
  {
    var merged := MergeNext(Mark(bs, i, true), i);
    if 0 < i && bs[i - 1].free then MergeNext(merged, i - 1) else merged
  }

  function LongerTail(bs: seq<Block>, added: nat): seq<Block>
    requires bs != []
  {
    var n := |bs| - 1;
    bs[n := bs[n].(size := bs[n].size + added)]
  }

  function NewTail(bs: seq<Block>, size: nat): seq<Block>
    requires bs != []
  {
    bs + [Block(Brk(bs), size, true)]
  }

  /** A free tail takes new bytes itself; behind a live tail they become a free block. */
  function GrownTail(bs: seq<Block>, added: nat): seq<Block>
    requires bs != [] && HEADER_SIZE <= added
  {
    if bs[|bs| - 1].free then LongerTail(bs, added) else NewTail(bs, added - HEADER_SIZE)
  }

  // ----- the operations -----

  /** The heap after `kmalloc_init`. */
  function Initial(start: nat): State
    requires start + HEADER_SIZE <= IDENTITY_MAP_LIMIT
  {
    State([Block(start, IDENTITY_MAP_LIMIT - start - HEADER_SIZE, true)], IDENTITY_MAP_LIMIT)
  }

  /** The payload size that serves a request. */
  function BlockSize(size: nat): (required: nat)
    requires 0 < size <= MAX_REQUEST
    ensures size <= required < size + ALLOC_ALIGN
    ensures required % ALLOC_ALIGN == 0 && 0 < required <= MAX_REQUEST
  {
    AlignUpExact(size, ALLOC_ALIGN);
    AlignUp32(size, ALLOC_ALIGN)
  }

  /** The bytes the tail lacks: its own payload counts if it is free, a new header is needed if not. */
  function Shortfall(tail: Block, required: nat): nat
    requires !Fits(tail, required)
  {
    if tail.free then required - tail.size else required + HEADER_SIZE
  }

  function GrowthBytes(tail: Block, required: nat): (added: nat)
    requires 0 < required <= MAX_REQUEST && !Fits(tail, required)
    ensures Shortfall(tail, required) <= added < Shortfall(tail, required) + PAGE_SIZE
    ensures PAGE_SIZE <= added && added % PAGE_SIZE == 0
  {
    AlignUpExact(Shortfall(tail, required), PAGE_SIZE);
    AlignUp32(Shortfall(tail, required), PAGE_SIZE)
  }

  /** Whole pages are mapped behind the tail; at the limit the mapping stops half-way. */
  function Grow(s: State, required: nat): (State, bool)
    requires 0 < required <= MAX_REQUEST
  {
    if s.blocks == [] then (s, false)
    else
      var n := |s.blocks| - 1;
      var tail := s.blocks[n];
      if Fits(tail, required) then (s, true)
      else
        var added := GrowthBytes(tail, required);
        if s.mapped + added > HEAP_VIRT_LIMIT then (s.(mapped := HEAP_VIRT_LIMIT), false)
        else (State(GrownTail(s.blocks, added), s.mapped + added), true)
  }

  /** `kmalloc`: the new state and the payload address, 0 for null. */
  function Alloc(s: State, size: nat): (State, nat)
    requires size <= MAX_REQUEST
  {
    if size == 0 || s.blocks == [] then (s, 0)
    else
      var required := BlockSize(size);
      var i := FirstFit(s.blocks, required, 0);
      if i < |s.blocks| then (s.(blocks := Take(s.blocks, i, required)), s.blocks[i].Payload())
      else
        var (g, ok) := Grow(s, required);
        if !ok then (g, 0)
        else
          var j := FirstFit(g.blocks, required, 0);
          if j == |g.blocks| then (g, 0)
          else (g.(blocks := Take(g.blocks, j, required)), g.blocks[j].Payload())
  }

  /** `kcalloc` refuses a product that does not fit 32 bits. */
  function Calloc(s: State, count: nat, size: nat): (State, nat)
    requires count * size <= MAX_REQUEST || count * size >= TWO32
  {
    if count * size == 0 || count * size >= TWO32 then (s, 0) else Alloc(s, count * size)
  }

  /** The payload bytes of the free blocks, of the live blocks, or of both. */
  function SumOf(bs: seq<Block>, countFree: bool, countLive: bool): nat {
    if bs == [] then 0
    else (if if bs[0].free then countFree else countLive then bs[0].size else 0) + SumOf(bs[1..], countFree, countLive)
  }

  function Total(bs: seq<Block>): nat { SumOf(bs, true, true) }

  function Remaining(bs: seq<Block>): nat { SumOf(bs, true, false) }

  function Used(bs: seq<Block>): nat { SumOf(bs, false, true) }

  /** `kfree`: pointers that are not live are ignored. */
  function Free(s: State, ptr: nat): State {
    var i := LiveIndex(s.blocks, ptr, 0);
    if i == |s.blocks| then s else s.(blocks := Release(s.blocks, i))
  }

  /** `krealloc`: the new state and the payload address, 0 for null. */
  function Realloc(s: State, ptr: nat, size: nat): (State, nat)
    requires size <= MAX_REQUEST
  {
    if ptr == 0 then Alloc(s, size)
    else if size == 0 then (Free(s, ptr), 0)
    else
      var bs := s.blocks;
      var i := LiveIndex(bs, ptr, 0);
      if i == |bs| then (s, 0)
      else Resize(s, i, BlockSize(size))
  }

  /** Resizing the live block `i`: cut it, let it take over the next block, or move it. */
  function Resize(s: State, i: nat, required: nat): (State, nat)
    requires i < |s.blocks| && required <= MAX_REQUEST
  {
    var bs := s.blocks;
    var ptr := bs[i].Payload();
    if required <= bs[i].size then (s.(blocks := SplitAt(bs, i, required)), ptr)
    else if GrowsInPlace(bs, i, required) then (s.(blocks := SplitAt(MergeNext(bs, i), i, required)), ptr)
    else
      var (moved, target) := Alloc(s, required);
      if target == 0 then (moved, 0) else (Free(moved, ptr), target)
  }

  /** The next block is free and completes block `i` to the required size. */
  predicate GrowsInPlace(bs: seq<Block>, i: nat, required: nat)
    requires i < |bs|
  {
    i + 1 < |bs| && bs[i + 1].free && bs[i].size + HEADER_SIZE + bs[i + 1].size >= required
  }
}
