/**
 The allocator: the list walks and the entry points of the heap over the byte
 array of `HeapMemory` and the page tables of `Paging`. Each method is proved
 against the function of the same purpose in `HeapSpec`.
 */
module Heap {
  import opened Word32
  import opened HeapSpec
  import opened HeapLaws
  import opened HeapMemory
  import opened HeapPayloads
  import opened HeapConservation
  import Paging

  class Heap {
    const ram: Memory
    const pt: Paging.PageTables

    var nextFreePhys: nat
    var heapStart: nat
    var mappedEnd: nat
    var head: nat

    /** The list that the headers in memory describe. */
    ghost var blocks: seq<Block>

    ghost function View(): State
      reads this
    {
      State(blocks, mappedEnd)
    }

    ghost predicate Valid()
      reads this, ram.mem, pt, pt.directory, pt.pool, pt.used
    {
      && ram.mem.Length == HEAP_VIRT_LIMIT
      && Inv(View())
      && ram.Represents(blocks)
      && pt.Valid()
      && (blocks == [] ==> head == 0 && heapStart == 0)
      && (blocks != [] ==>
            && head == heapStart == blocks[0].addr
            && nextFreePhys == mappedEnd
            && pt.KernelMapping(mappedEnd))
    }

    /** Before `kmalloc_init`: no heap yet. */
    constructor (ram: Memory, pt: Paging.PageTables)
      requires ram.mem.Length == HEAP_VIRT_LIMIT && pt.Valid()
      ensures Valid() && blocks == [] && this.ram == ram && this.pt == pt
    {
      this.ram := ram;
      this.pt := pt;
      nextFreePhys := IDENTITY_MAP_LIMIT;
      heapStart := 0;
      mappedEnd := 0;
      head := 0;
      blocks := [];
    }

    // ----- list walks -----

    method LastBlock() returns (block: nat)
      requires Valid()
      ensures block == if blocks == [] then 0 else blocks[|blocks| - 1].addr
    {
      block := head;
      if block == 0 {
        return;
      }
      ghost var k := 0;
      while ram.HeaderAt(block).next != 0
        invariant k < |blocks| && block == blocks[k].addr
        decreases |blocks| - k
      {
        assert ram.HeaderAt(blocks[k].addr) == HeaderOf(blocks, k);
        block := ram.HeaderAt(block).next;
        k := k + 1;
      }
      assert ram.HeaderAt(blocks[k].addr) == HeaderOf(blocks, k);
    }

    method FindFreeBlock(required: nat) returns (block: nat, ghost i: nat)
      requires Valid()
      ensures i == FirstFit(blocks, required, 0)
      ensures var k := FirstFit(blocks, required, 0); block == if k < |blocks| then blocks[k].addr else 0
    {
      block := head;
      i := 0;
      while block != 0
        invariant i <= |blocks|
        invariant block == if i < |blocks| then blocks[i].addr else 0
        invariant FirstFit(blocks, required, 0) == FirstFit(blocks, required, i)
        decreases |blocks| - i
      {
        assert ram.HeaderAt(blocks[i].addr) == HeaderOf(blocks, i);
        var h := ram.HeaderAt(block);
        if h.magic == BLOCK_MAGIC && h.free != 0 && h.size >= required {
          return;
        }
        block := h.next;
        i := i + 1;
      }
    }

    predicate InHeap(ptr: nat)
      reads this
    {
      heapStart <= ptr < mappedEnd
    }

    /** A pointer that the allocator does not take for a live block. */
    ghost predicate Inert(ptr: nat)
      requires Valid()
      reads this, ram.mem, pt, pt.directory, pt.pool, pt.used
    {
      || ptr == 0 || !InHeap(ptr) || ptr < heapStart + HEADER_SIZE
      || ram.HeaderAt(ptr - HEADER_SIZE).magic != BLOCK_MAGIC
      || ram.HeaderAt(ptr - HEADER_SIZE).free != 0
    }

    /** The header address under a pointer, or 0; only the magic word is tested. */
    method BlockFromPtr(ptr: nat) returns (block: nat)
      requires Valid()
      ensures block == 0 ==> Inert(ptr)
      ensures block != 0 ==>
                && block + HEADER_SIZE == ptr && InHeap(ptr) && heapStart <= block
                && block + HEADER_BYTES <= ram.mem.Length
                && (ram.HeaderAt(block).free != 0 <==> Inert(ptr))
    {
      hide Tiled, Memory.HeaderAt, Memory.Represents, Paging.PageTables.Valid, Paging.PageTables.KernelMapping;
      if ptr == 0 || !InHeap(ptr) {
        return 0;
      }
      if ptr < heapStart + HEADER_SIZE {
        return 0;
      }
      block := ptr - HEADER_SIZE;
      if !InHeap(block) || ram.HeaderAt(block).magic != BLOCK_MAGIC {
        return 0;
      }
    }

    // ----- growth -----

    /** Maps pages behind the heap and hands them to the tail, or stops at the limit. */
    method ExtendHeapToFit(required: nat) returns (ok: bool)
      requires Valid() && 0 < required <= MAX_REQUEST
      modifies this, ram.mem, pt.directory, pt.pool, pt.used
      ensures Valid() && (View(), ok) == Grow(old(View()), required)
      ensures ram.OnlyHeaders(old(blocks), blocks)
      ensures heapStart == old(heapStart)
    {
      hide Valid, Inv, GrowthBytes, SameOutside, Memory.HeaderAt, Memory.Represents;
      HeadIsNull();
      NothingChanged(ram.mem[..], Heads(blocks) + Heads(blocks), 0, 0);
      if head == 0 {
        return false;
      }
      var tail, neededPayload := Lacking(required);
      if neededPayload == 0 {
        return true;
      }
      ok := GrowBy(tail, neededPayload, required);
    }

    /** The first half of `extend_heap_to_fit`: the tail and the bytes it lacks, 0 for none. */
    method Lacking(required: nat) returns (tail: nat, neededPayload: nat)
      requires Valid() && blocks != [] && 0 < required
      ensures var last := blocks[|blocks| - 1];
              tail == last.addr && neededPayload == if Fits(last, required) then 0 else Shortfall(last, required)
    {
      hide Memory.HeaderAt, Memory.Represents;
      ram.HeaderSays(blocks, |blocks| - 1);
      hide Valid, Inv;
      tail := LastBlock();
      neededPayload := required;
      if ram.HeaderAt(tail).free != 0 {
        if ram.HeaderAt(tail).size >= neededPayload {
          return tail, 0;
        }
        neededPayload := neededPayload - ram.HeaderAt(tail).size;
      } else {
        neededPayload := neededPayload + HEADER_SIZE;
      }
    }

    /** The second half of `extend_heap_to_fit`: maps the missing bytes in whole pages. */
    method GrowBy(tail: nat, neededPayload: nat, ghost required: nat) returns (ok: bool)
      requires Valid() && blocks != [] && 0 < required <= MAX_REQUEST
      requires var last := blocks[|blocks| - 1];
               tail == last.addr && !Fits(last, required) && neededPayload == Shortfall(last, required)
      modifies this, ram.mem, pt.directory, pt.pool, pt.used
      ensures Valid() && (View(), ok) == Grow(old(View()), required)
      ensures ram.OnlyHeaders(old(blocks), blocks)
      ensures heapStart == old(heapStart)
    {
      hide Paging.PageTables.Valid, Paging.PageTables.KernelMapping;
      hide Tiled, GrowthBytes, AlignUp32, Shortfall, Heads, InHeader, GrownTail, Memory.HeaderAt, Memory.Represents;
      GrowKeeps(View(), required);
      GrowthBytesIs(blocks[|blocks| - 1], required);
      var bytesNeeded := AlignUp32(neededPayload, PAGE_SIZE);
      var pagesNeeded := bytesNeeded / PAGE_SIZE;
      var addedBytes := pagesNeeded * PAGE_SIZE;
      assert addedBytes == GrowthBytes(blocks[|blocks| - 1], required);
      ok := MapPages(pagesNeeded);
      if !ok {
        return;
      }
      ram.StoreGrowth(tail, addedBytes, blocks);
      blocks := GrownTail(blocks, addedBytes);
    }

    /** The growth loop: the page behind the heap is mapped to the frame of the same address. */
    method MapPages(pages: nat) returns (ok: bool)
      requires pt.Valid() && mappedEnd % PAGE_SIZE == 0 && IDENTITY_MAP_LIMIT <= mappedEnd <= HEAP_VIRT_LIMIT
      requires nextFreePhys == mappedEnd && pt.KernelMapping(mappedEnd)
      modifies this`nextFreePhys, this`mappedEnd, pt.directory, pt.pool, pt.used
      ensures pt.Valid()
      ensures ok <==> old(mappedEnd) + pages * PAGE_SIZE <= HEAP_VIRT_LIMIT
      ensures mappedEnd == if ok then old(mappedEnd) + pages * PAGE_SIZE else HEAP_VIRT_LIMIT
      ensures nextFreePhys == mappedEnd && pt.KernelMapping(mappedEnd)
    {
      hide Paging.PageTables.Valid, Paging.PageTables.KernelMapping, Paging.PageTables.MapsOnly;
      for i := 0 to pages
        invariant pt.Valid() && mappedEnd == old(mappedEnd) + i * PAGE_SIZE <= HEAP_VIRT_LIMIT
        invariant nextFreePhys == mappedEnd && pt.KernelMapping(mappedEnd)
      {
        if mappedEnd >= HEAP_VIRT_LIMIT {
          return false;
        }
        label before:
        pt.MapPage(mappedEnd, nextFreePhys, Paging.FLAG_RW);
        pt.MappingGrows@before(mappedEnd);
        mappedEnd := mappedEnd + PAGE_SIZE;
        nextFreePhys := nextFreePhys + PAGE_SIZE;
      }
      return true;
    }

    lemma ShapeNow()
      requires Valid()
      ensures ram.mem.Length == HEAP_VIRT_LIMIT && Placed(blocks) && Tiled(blocks) && Inv(View())
      ensures Covers(blocks, heapStart, mappedEnd)
    {}

    /**
     With the heap as the only caller of `map_page`: every heap address is reached
     under its own number and can be written, user mode reaches none above four
     megabytes, and half of the pool of page tables is never needed.
     */
    lemma HeapIsIdentityMapped(address: nat)
      requires Valid() && blocks != []
      ensures mappedEnd <= HEAP_VIRT_LIMIT && nextFreePhys == mappedEnd
      ensures address < mappedEnd ==> pt.Walk(address) == address && pt.Writable(address)
      ensures address < mappedEnd ==> (pt.UserAccessible(address) <==> address < IDENTITY_MAP_LIMIT)
      ensures forall k :: 16 <= k < Paging.POOL_COUNT ==> !pt.used[k]
    {
      hide Tiled, Memory.HeaderAt, Memory.Represents;
      hide Paging.PageTables.IdentityBelow, Paging.PageTables.FlagsBelow;
      hide Paging.PageTables.Writable, Paging.PageTables.UserAccessible, Paging.PageTables.Walk;
      if address < mappedEnd {
        pt.WalkIsIdentity(mappedEnd, address);
        pt.AccessBelow(mappedEnd, address);
      }
    }

    /** No live payload has changed. */
    twostate predicate PayloadsKept()
      reads this, ram.mem
    {
      PayloadsSame(old(ram.mem[..]), ram.mem[..], Live(old(blocks)), Live(blocks), 0)
    }

    /** No byte outside the heap has changed, such as the kernel's below its start. */
    twostate predicate OutsideKept()
      reads this, ram.mem
    {
      KeptOutside(old(ram.mem[..]), ram.mem[..], heapStart, mappedEnd)
    }

    // ----- kmalloc -----

    /** No live payload is touched, and nothing outside the heap: only headers are written. */
    method Kmalloc(size: nat) returns (ptr: nat)
      requires Valid() && size <= MAX_REQUEST
      modifies this, ram.mem, pt.directory, pt.pool, pt.used
      ensures Valid() && (View(), ptr) == Alloc(old(View()), size)
      ensures ram.OnlyHeaders(old(blocks), blocks) && PayloadsKept()
      ensures heapStart == old(heapStart) && OutsideKept()
      ensures NoneRevived(old(ram.mem[..]), ram.mem[..], Granted(ptr))
    {
      hide Inv, Tiled, Placed, Live, Heads, SameOutside, PayloadsSame, NoneRevived, KeptOutside, Alloc;
      ShapeNow();
      AllocKeepsInv(View(), size);
      ptr := KmallocBlock(size);
      ShapeNow();
      HeadersOnlyKeepOutside(old(ram.mem[..]), ram.mem[..], old(blocks), blocks, heapStart, mappedEnd);
      ram.AllocRevivesNone(old(View()), size);
      HeadersOnlyKeepPayloads(old(ram.mem[..]), ram.mem[..], old(blocks), blocks);
    }

    method KmallocBlock(size: nat) returns (ptr: nat)
      requires Valid() && size <= MAX_REQUEST
      modifies this, ram.mem, pt.directory, pt.pool, pt.used
      ensures Valid() && (View(), ptr) == Alloc(old(View()), size)
      ensures ram.OnlyHeaders(old(blocks), blocks)
      ensures heapStart == old(heapStart)
    {
      hide Valid, Inv, Heads, SameOutside, Grow, BlockSize, AlignUp32, Take, FirstFit;
      HeadIsNull();
      NothingChanged(ram.mem[..], Heads(blocks) + Heads(blocks), 0, 0);
      if size == 0 || head == 0 {
        return 0;
      }
      BlockSizeIs(size);
      NoNullBlock();
      var alignedSize := AlignUp32(size, ALLOC_ALIGN);
      var block, i := FindFreeBlock(alignedSize);
      if block == 0 {
        block, i := GrowAndFind(alignedSize);
        if block == 0 {
          return 0;
        }
      }
      ghost var grown := blocks;
      ghost var middle := ram.mem[..];
      ptr := Carve(block, alignedSize, i);
      SameOutsideTwice(old(ram.mem[..]), middle, ram.mem[..], old(blocks), grown, blocks);
    }

    /** The retry of `kmalloc`: grow the heap, then search again. */
    method GrowAndFind(required: nat) returns (block: nat, ghost i: nat)
      requires Valid() && blocks != [] && 0 < required <= MAX_REQUEST
      modifies this, ram.mem, pt.directory, pt.pool, pt.used
      ensures Valid() && View() == Grow(old(View()), required).0
      ensures block == 0 <==> !Grow(old(View()), required).1 || i == |blocks|
      ensures block != 0 ==> i == FirstFit(blocks, required, 0) && i < |blocks| && block == blocks[i].addr
      ensures Grow(old(View()), required).1 ==> i == FirstFit(blocks, required, 0)
      ensures ram.OnlyHeaders(old(blocks), blocks)
      ensures heapStart == old(heapStart)
    {
      hide Valid, Inv, SameOutside, Grow, FirstFit;
      i := 0;
      var ok := ExtendHeapToFit(required);
      if !ok {
        return 0, 0;
      }
      NoNullBlock();
      block, i := FindFreeBlock(required);
    }

    lemma HeadIsNull()
      requires Valid()
      ensures head == 0 <==> blocks == []
    {}

    lemma NoNullBlock()
      requires Valid()
      ensures ram.mem.Length == HEAP_VIRT_LIMIT
      ensures forall i :: 0 <= i < |blocks| ==> blocks[i].addr != 0
    {}

    /** The end of `kmalloc`: the block found is split, marked live and handed out. */
    method Carve(block: nat, required: nat, ghost i: nat) returns (ptr: nat)
      requires Valid() && i < |blocks| && block == blocks[i].addr
      requires Fits(blocks[i], required) && required % ALLOC_ALIGN == 0 && 0 < required
      modifies this, ram.mem
      ensures Valid() && blocks == Take(old(blocks), i, required) && ptr == old(blocks)[i].Payload()
      ensures mappedEnd == old(mappedEnd) && heapStart == old(heapStart)
      ensures ram.OnlyHeaders(old(blocks), blocks) && Heads(old(blocks)) <= Heads(blocks)
    {
      hide Heads, SameOutside, Take, Live, Memory.Represents, Memory.HeaderAt;
      hide Paging.PageTables.Valid, Paging.PageTables.KernelMapping;
      TakeKeeps(blocks, i, required);
      HeadsOfTake(blocks, i, required);
      hide Tiled;
      ram.TakeBlock(block, required, blocks, i);
      blocks := Take(blocks, i, required);
      ptr := block + HEADER_SIZE;
    }

    // ----- kfree, ksize -----

    /** A pointer into the heap that has no live header under it, as one that has been freed. */
    ghost predicate Stale(ptr: nat)
      reads this, ram.mem
    {
      InHeap(ptr) && heapStart + HEADER_SIZE <= ptr && ptr % ALLOC_ALIGN == 0 && Dead(ram.mem[..], ptr - HEADER_SIZE)
    }

    /** `kfree`, `ksize` and `krealloc` take a stale pointer for what it is. */
    lemma StaleIsInert(ptr: nat)
      requires Valid()
      ensures Stale(ptr) ==> Inert(ptr) && !IsLive(blocks, ptr)
      ensures Inert(ptr) && InHeap(ptr) && heapStart + HEADER_SIZE <= ptr && ptr % ALLOC_ALIGN == 0 ==> Stale(ptr)
    {
      hide Tiled, Join, Memory.Represents;
      if IsLive(blocks, ptr) { LiveIsNotInert(ptr); }
    }

    /** Null and pointers outside the payloads' range are ignored. */
    lemma StrayIsInert(ptr: nat)
      requires Valid()
      ensures ptr == 0 || ptr < heapStart + HEADER_SIZE || mappedEnd <= ptr ==> Inert(ptr) && !IsLive(blocks, ptr)
    {
      hide Tiled, Memory.HeaderAt, Memory.Represents;
      if IsLive(blocks, ptr) { LiveInHeap(ptr); }
    }

    /** A pointer the caller may pass: live, or one the allocator ignores. */
    ghost predicate Passable(ptr: nat)
      requires Valid()
      reads this, ram.mem, pt, pt.directory, pt.pool, pt.used
    {
      Inert(ptr) || IsLive(blocks, ptr)
    }

    /** A live pointer is never inert: its header is in place. */
    lemma LiveIsNotInert(ptr: nat)
      requires Valid() && IsLive(blocks, ptr)
      ensures !Inert(ptr) && ptr != 0
      ensures var i := LiveIndex(blocks, ptr, 0);
              ptr - HEADER_SIZE == blocks[i].addr && ram.HeaderAt(blocks[i].addr).size == blocks[i].size
    {
      hide Memory.HeaderAt, Memory.Represents, Tiled;
      var i := LiveIndex(blocks, ptr, 0);
      ram.HeaderSays(blocks, i);
      Within(blocks, i);
    }

    lemma LiveInHeap(ptr: nat)
      requires Valid() && IsLive(blocks, ptr)
      ensures InHeap(ptr) && heapStart + HEADER_SIZE <= ptr && ptr % ALLOC_ALIGN == 0
    {
      hide Memory.HeaderAt, Memory.Represents;
      var i := LiveIndex(blocks, ptr, 0);
      assert blocks[i] in blocks;
      Within(blocks, i);
    }

    /** The same across a step that writes into a stretch of memory clear of the header. */
    twostate lemma StaleStaysOutside(new ptr: nat, new granted: set<nat>, new lo: nat, new hi: nat)
      requires old(Stale(ptr)) && heapStart == old(heapStart) && old(mappedEnd) <= mappedEnd
      requires NoneRevivedOutside(old(ram.mem[..]), ram.mem[..], granted, lo, hi)
      requires Granted(ptr) !! granted && HEADER_SIZE <= ptr && Clear(ptr - HEADER_SIZE, lo, hi)
      ensures Stale(ptr)
    {
      hide Dead, Clear;
    }

    /** A stale pointer stays stale across every step that revives nothing at its address. */
    twostate lemma StaleStays(new ptr: nat, new granted: set<nat>)
      requires old(Stale(ptr)) && heapStart == old(heapStart) && old(mappedEnd) <= mappedEnd
      requires NoneRevived(old(ram.mem[..]), ram.mem[..], granted) && Granted(ptr) !! granted
      ensures Stale(ptr)
    {
      hide Dead;
    }

    /** No live payload is touched; a pointer that is not live changes nothing at all. */
    method Kfree(ptr: nat)
      requires Valid() && Passable(ptr)
      modifies this, ram.mem
      ensures Valid() && View() == Free(old(View()), ptr) && Inert(ptr)
      ensures ram.OnlyHeaders(old(blocks), blocks) && PayloadsKept()
      ensures !IsLive(old(blocks), ptr) ==> ram.mem[..] == old(ram.mem[..])
      ensures NoneRevived(old(ram.mem[..]), ram.mem[..], {})
      ensures heapStart == old(heapStart) && OutsideKept()
    {
      hide Valid, Inv, Inert, Tiled, Placed, Live, Heads, SameOutside, PayloadsSame, NoneRevived, KeptOutside;
      ShapeNow();
      KfreeBlock(ptr);
      ShapeNow();
      HeadersOnlyKeepOutside(old(ram.mem[..]), ram.mem[..], old(blocks), blocks, heapStart, mappedEnd);
      HeadersOnlyKeepPayloads(old(ram.mem[..]), ram.mem[..], old(blocks), blocks);
    }

    method KfreeBlock(ptr: nat)
      requires Valid() && Passable(ptr)
      modifies this, ram.mem
      ensures Valid() && View() == Free(old(View()), ptr) && Inert(ptr)
      ensures ram.OnlyHeaders(old(blocks), blocks)
      ensures !IsLive(old(blocks), ptr) ==> ram.mem[..] == old(ram.mem[..])
      ensures NoneRevived(old(ram.mem[..]), ram.mem[..], {})
      ensures heapStart == old(heapStart)
    {
      hide Valid, Inv, Inert, Heads, InHeader, NoneRevived, Memory.HeaderAt;
      if IsLive(blocks, ptr) { LiveIsNotInert(ptr); }
      NoneRevivedReflexive(ram.mem[..]);
      var block := BlockFromPtr(ptr);
      if block != 0 && ram.HeaderAt(block).free == 0 {
        GiveBack(block, LiveIndex(blocks, ptr, 0));
      }
    }

    /** The end of `kfree`: the block is marked free and merged with its free neighbours. */
    method GiveBack(block: nat, ghost i: nat)
      requires Valid() && i < |blocks| && block == blocks[i].addr && !blocks[i].free
      modifies this, ram.mem
      ensures Valid() && blocks == Release(old(blocks), i) && Inert(block + HEADER_SIZE)
      ensures mappedEnd == old(mappedEnd) && heapStart == old(heapStart)
      ensures ram.OnlyHeaders(old(blocks), blocks) && NoneRevived(old(ram.mem[..]), ram.mem[..], {})
    {
      hide Heads, SameOutside, Release, Live, NoneRevived, Memory.Represents, Memory.HeaderAt;
      hide Paging.PageTables.Valid, Paging.PageTables.KernelMapping;
      ReleaseKeeps(blocks, i);
      hide Tiled;
      ram.ReleaseBlock(block, blocks, i);
      blocks := Release(blocks, i);
    }

    method Ksize(ptr: nat) returns (size: nat)
      requires Valid() && Passable(ptr)
      ensures size == if IsLive(blocks, ptr) then blocks[LiveIndex(blocks, ptr, 0)].size else 0
    {
      if IsLive(blocks, ptr) { LiveIsNotInert(ptr); }
      var block := BlockFromPtr(ptr);
      if block == 0 || ram.HeaderAt(block).free != 0 {
        return 0;
      }
      return ram.HeaderAt(block).size;
    }

    // ----- payloads -----

    /** The copying of `krealloc`: the whole old payload, and no byte elsewhere. */
    method CopyPayload(block: nat, target: nat, ghost i: nat, ghost j: nat)
      requires Valid() && i < |blocks| && j < |blocks| && i != j
      requires block == blocks[i].addr && target == blocks[j].Payload() && blocks[i].size <= blocks[j].size
      modifies ram.mem
      ensures Valid() && View() == old(View()) && heapStart == old(heapStart) && OutsideKept()
      ensures Copied(old(ram.mem[..]), block + HEADER_SIZE, ram.mem[..], target, blocks[i].size)
      ensures PayloadsSame(old(ram.mem[..]), ram.mem[..], Live(blocks), Live(blocks), target)
      ensures NoneRevivedOutside(old(ram.mem[..]), ram.mem[..], {}, target, target + blocks[i].size)
    {
      hide Inv, Live, PayloadsSame, KeptOutside, Covers, NoneRevivedOutside, Memory.HeaderAt, Memory.Represents;
      hide Paging.PageTables.Valid, Paging.PageTables.KernelMapping;
      ShapeNow();
      ram.CopyBytes(block, target, blocks, i, j);
      PayloadWriteKeeps(blocks, j, old(ram.mem[..]), ram.mem[..],
                        target, target + blocks[i].size, heapStart, mappedEnd);
      WritesReviveNoneOutside(old(ram.mem[..]), ram.mem[..], target, target + blocks[i].size);
    }

    // ----- kmalloc_init -----

    /** One free block from the end of the kernel to the end of the identity map, if it fits. */
    method KmallocInit(kernelEnd: nat)
      requires ram.mem.Length == HEAP_VIRT_LIMIT && pt.Valid()
      requires pt.KernelMapping(IDENTITY_MAP_LIMIT)
      requires 0 < kernelEnd <= TWO32 - HEADER_SIZE - MIN_SPLIT_PAYLOAD - ALLOC_ALIGN
      modifies this, ram.mem
      ensures Valid()
      ensures var start := AlignUp32(kernelEnd, ALLOC_ALIGN);
              View() == if start + HEADER_SIZE + MIN_SPLIT_PAYLOAD >= IDENTITY_MAP_LIMIT then State([], 0)
                        else Initial(start)
      ensures OutsideKept()
    {
      hide AlignUp32, Memory.HeaderAt, Initial;
      var start := AlignUp32(kernelEnd, ALLOC_ALIGN);
      AlignUpExact(kernelEnd, ALLOC_ALIGN);
      if start + HEADER_SIZE + MIN_SPLIT_PAYLOAD >= IDENTITY_MAP_LIMIT {
        heapStart := 0;
        mappedEnd := 0;
        head := 0;
        blocks := [];
        return;
      }
      FirstBlock(start);
    }

    method FirstBlock(start: nat)
      requires ram.mem.Length == HEAP_VIRT_LIMIT && pt.Valid()
      requires pt.KernelMapping(IDENTITY_MAP_LIMIT)
      requires 0 < start && start % ALLOC_ALIGN == 0
      requires start + HEADER_SIZE + MIN_SPLIT_PAYLOAD < IDENTITY_MAP_LIMIT
      modifies this, ram.mem
      ensures Valid() && View() == Initial(start) && OutsideKept()
    {
      hide Inv, Initial, AlignUp32, KeptOutside, Memory.HeaderAt, Memory.Represents;
      hide Paging.PageTables.Valid, Paging.PageTables.KernelMapping;
      InitialInv(start);
      InitialIs(start);
      PageRoundLimit();
      nextFreePhys := AlignUp32(IDENTITY_MAP_LIMIT, PAGE_SIZE);
      heapStart := start;
      mappedEnd := IDENTITY_MAP_LIMIT;
      head := heapStart;
      ram.FirstHeader(head, mappedEnd - heapStart - HEADER_SIZE);
      KeptOutsideMore(old(ram.mem[..]), ram.mem[..], start, start + HEADER_SIZE, mappedEnd);
      blocks := [Block(start, IDENTITY_MAP_LIMIT - start - HEADER_SIZE, true)];
    }

    static lemma PageRoundLimit()
      ensures AlignUp32(IDENTITY_MAP_LIMIT, PAGE_SIZE) == IDENTITY_MAP_LIMIT
    {}

    // ----- krealloc -----

    /** The payload at `ptr` before, cut to the smaller of the two sizes, is found at `moved` after. */
    twostate predicate ContentMoved(ptr: nat, moved: nat)
      requires IsLive(old(blocks), ptr) && IsLive(blocks, moved)
      reads this, ram.mem
    {
      var before := old(blocks)[LiveIndex(old(blocks), ptr, 0)];
      var after := blocks[LiveIndex(blocks, moved, 0)];
      Copied(old(ram.mem[..]), ptr, ram.mem[..], moved, Shorter(before, after))
    }

    /** A move to a larger block copies the whole payload. */
    twostate lemma WholeContentMoved(new ptr: nat, new moved: nat)
      requires IsLive(old(blocks), ptr) && IsLive(blocks, moved)
      requires LiveSize(old(blocks), ptr) <= blocks[LiveIndex(blocks, moved, 0)].size
      requires Copied(old(ram.mem[..]), ptr, ram.mem[..], moved, LiveSize(old(blocks), ptr))
      ensures ContentMoved(ptr, moved)
    {
      hide LiveIndex, Copied;
    }

    twostate lemma InPlaceKeeps(new i: nat)
      requires ram.OnlyHeaders(old(blocks), blocks) && ram.mem.Length == HEAP_VIRT_LIMIT
      requires Placed(old(blocks)) && Placed(blocks) && Tiled(old(blocks)) && Tiled(blocks)
      requires i < |old(blocks)| && i < |blocks| && blocks[i].addr == old(blocks)[i].addr
      requires !blocks[i].free && !old(blocks)[i].free
      ensures IsLive(old(blocks), blocks[i].Payload()) && IsLive(blocks, blocks[i].Payload())
      ensures ContentMoved(blocks[i].Payload(), blocks[i].Payload())
      ensures PayloadsKept()
    {
      hide Tiled, Placed, Live, Heads, SameOutside, PayloadsSame, Copied, LiveIndex;
      LiveIndexAt(old(blocks), i);
      LiveIndexAt(blocks, i);
      HeadersOnlyKeepPayloads(old(ram.mem[..]), ram.mem[..], old(blocks), blocks);
      HeadersOnlyKeepStretch(old(ram.mem[..]), ram.mem[..], old(blocks), old(blocks)[i], blocks, blocks[i]);
    }

    /** First path of `krealloc`: the block is large enough; what is left over is split off. */
    method ShrinkInPlace(block: nat, required: nat, ghost i: nat)
      requires Valid() && i < |blocks| && block == blocks[i].addr && !blocks[i].free
      requires required % ALLOC_ALIGN == 0 && 0 < required <= blocks[i].size
      modifies this, ram.mem
      ensures Valid() && View() == old(View()).(blocks := SplitAt(old(blocks), i, required))
      ensures i < |blocks| && blocks[i].addr == block && !blocks[i].free
      ensures heapStart == old(heapStart) && ram.OnlyHeaders(old(blocks), blocks)
      ensures NoneRevived(old(ram.mem[..]), ram.mem[..], {})
    {
      hide Tiled, Live, SameOutside, NoneRevived, Memory.HeaderAt, Memory.Represents;
      hide Paging.PageTables.Valid, Paging.PageTables.KernelMapping;
      SplitExchanges(blocks, i, required);
      ram.SplitBlock(block, required, blocks, i);
      blocks := SplitAt(blocks, i, required);
    }

    /** Second path of `krealloc`: the block takes over the free block behind it. */
    method GrowInPlace(block: nat, required: nat, ghost i: nat)
      requires Valid() && i < |blocks| && block == blocks[i].addr && !blocks[i].free
      requires required % ALLOC_ALIGN == 0 && 0 < required && GrowsInPlace(blocks, i, required)
      modifies this, ram.mem
      ensures Valid() && View() == old(View()).(blocks := SplitAt(MergeNext(old(blocks), i), i, required))
      ensures i < |blocks| && blocks[i].addr == block && !blocks[i].free
      ensures heapStart == old(heapStart) && ram.OnlyHeaders(old(blocks), blocks)
      ensures NoneRevived(old(ram.mem[..]), ram.mem[..], {})
    {
      hide Tiled, Live, SameOutside, NoneRevived, Memory.HeaderAt, Memory.Represents;
      hide Paging.PageTables.Valid, Paging.PageTables.KernelMapping;
      MergeExchanges(blocks, i);
      SplitExchanges(MergeNext(blocks, i), i, required);
      ram.GrowBlock(block, required, blocks, i);
      blocks := SplitAt(MergeNext(blocks, i), i, required);
    }

    /** Third path of `krealloc`: allocate, copy the old payload, free it. */
    method MoveBlock(ptr: nat, block: nat, required: nat, ghost i: nat) returns (target: nat)
      requires Valid() && i < |blocks| && block == blocks[i].addr && !blocks[i].free && ptr == blocks[i].Payload()
      requires blocks[i].size < required <= MAX_REQUEST
      modifies this, ram.mem, pt.directory, pt.pool, pt.used
      ensures Valid()
      ensures var (m, granted) := Alloc(old(View()), required);
              target == granted && View() == if target == 0 then m else Free(m, ptr)
      ensures heapStart == old(heapStart)
      ensures PayloadsKept() && OutsideKept()
      ensures target != 0 ==> IsLive(old(blocks), ptr) && IsLive(blocks, target) && ContentMoved(ptr, target)
      ensures target != ptr && (target == 0 ==> NoneRevived(old(ram.mem[..]), ram.mem[..], {}))
      ensures target != 0 ==> Inert(ptr)
      ensures target != 0 ==>
                NoneRevivedOutside(old(ram.mem[..]), ram.mem[..], Granted(target),
                                   target, target + LiveSize(old(blocks), ptr))
    {
      hide Valid, Inv, Alloc, Free, Tiled, Placed, Live, SameOutside, PayloadsSame, LiveIndex;
      hide Inert, KeptOutside, Covers, Copied, ContentMoved, LiveSize, NoneRevived, NoneRevivedOutside;
      ghost var s := View();
      ghost var m0 := ram.mem[..];
      ShapeNow();
      LiveIndexAt(blocks, i);
      LiveSizeAt(blocks, ptr);
      target := Kmalloc(required);
      ghost var m := View();
      ghost var m1 := ram.mem[..];
      if target != 0 {
        MoveFacts(s, i, required);
        LiveSizeAt(m.blocks, ptr);
        ghost var m2 := CopyAndFree(ptr, block, target);
        MoveKeeps(s, i, required, m0, m1, ram.mem[..]);
        KeptOutsideTwice(m0, m1, ram.mem[..], heapStart, mappedEnd);
        NoneRevivedAround(m0, m1, m2, ram.mem[..], Granted(target), target, target + LiveSize(s.blocks, ptr));
        WholeContentMoved(ptr, target);
      }
    }

    /** The end of a move: both blocks are live; the source is copied and freed. */
    method CopyAndFree(ptr: nat, block: nat, target: nat) returns (ghost copied: seq<byte>)
      requires Valid() && IsLive(blocks, ptr) && IsLive(blocks, target) && ptr != target && block + HEADER_SIZE == ptr
      requires blocks[LiveIndex(blocks, ptr, 0)].size <= blocks[LiveIndex(blocks, target, 0)].size
      modifies this, ram.mem
      ensures Valid() && View() == Free(old(View()), ptr) && heapStart == old(heapStart)
      ensures mappedEnd == old(mappedEnd) && OutsideKept()
      ensures PayloadsSame(old(ram.mem[..]), ram.mem[..], Live(old(blocks)), Live(blocks), target)
      ensures Copied(old(ram.mem[..]), ptr, ram.mem[..], target, old(blocks[LiveIndex(blocks, ptr, 0)].size))
      ensures NoneRevivedOutside(old(ram.mem[..]), copied, {}, target, target + LiveSize(old(blocks), ptr))
      ensures NoneRevived(copied, ram.mem[..], {}) && Inert(ptr)
    {
      hide Valid, Inv, Free, Tiled, Placed, Live, SameOutside, LiveIndex, PayloadsSame, Copied, Inert, Heads;
      hide KeptOutside, Covers, NoneRevived, NoneRevivedOutside, Memory.HeaderAt, Memory.Represents;
      ghost var s := View();
      ghost var i := LiveIndex(blocks, ptr, 0);
      ghost var j := LiveIndex(blocks, target, 0);
      ghost var m0 := ram.mem[..];
      ShapeNow();
      assert LiveSize(blocks, ptr) == blocks[i].size;
      CopyPayload(block, target, i, j);
      ghost var m1 := ram.mem[..];
      copied := m1;
      FreeReleases(s, ptr);
      Kfree(ptr);
      ShapeNow();
      HeadersOnlyKeepPayloads(m1, ram.mem[..], s.blocks, blocks);
      CopyThenFree(s, ptr, j, s.blocks[i].size, m0, m1, ram.mem[..]);
      KeptOutsideTwice(m0, m1, ram.mem[..], heapStart, mappedEnd);
    }

    /** The three paths of `krealloc` for a live block. */
    method ReallocLive(ptr: nat, block: nat, required: nat, ghost i: nat) returns (moved: nat)
      requires Valid() && 0 < required <= MAX_REQUEST && required % ALLOC_ALIGN == 0
      requires i < |blocks| && !blocks[i].free && ptr == blocks[i].Payload() && block == blocks[i].addr
      modifies this, ram.mem, pt.directory, pt.pool, pt.used
      ensures Valid() && (View(), moved) == Resize(old(View()), i, required)
      ensures heapStart == old(heapStart) && PayloadsKept() && OutsideKept()
      ensures moved != 0 ==> IsLive(old(blocks), ptr) && IsLive(blocks, moved) && ContentMoved(ptr, moved)
      ensures moved == 0 || moved == ptr ==> NoneRevived(old(ram.mem[..]), ram.mem[..], {})
      ensures moved != 0 && moved != ptr ==> Inert(ptr)
      ensures moved != 0 && moved != ptr ==>
                NoneRevivedOutside(old(ram.mem[..]), ram.mem[..], Granted(moved),
                                   moved, moved + LiveSize(old(blocks), ptr))
    {
      hide Valid, Inv, Alloc, Free, MergeNext;
      hide SplitAt, GrowsInPlace, LiveIndex, PayloadsKept, OutsideKept, ContentMoved;
      hide Inert, NoneRevived, NoneRevivedOutside, LiveSize, TakesOverNext, Memory.HeaderAt;
      BlockTests(block, required, i);
      if required <= ram.HeaderAt(block).size {
        ResizeInPlace(block, required, false, i);
        moved := ptr;
      } else if TakesOverNext(block, required) {
        ResizeInPlace(block, required, true, i);
        moved := ptr;
      } else {
        moved := MoveBlock(ptr, block, required, i);
      }
    }

    /** The test of the second path: the next block is free and completes this one. */
    predicate TakesOverNext(block: nat, required: nat)
      requires Valid() && block + HEADER_BYTES <= ram.mem.Length
      requires ram.HeaderAt(block).next + HEADER_BYTES <= ram.mem.Length
      reads this, ram.mem, pt, pt.directory, pt.pool, pt.used
    {
      var next := ram.HeaderAt(block).next;
      && next != 0 && ram.HeaderAt(next).free != 0 && ram.HeaderAt(next).magic == BLOCK_MAGIC
      && ram.HeaderAt(block).size + HEADER_SIZE + ram.HeaderAt(next).size >= required
    }

    lemma BlockTests(block: nat, required: nat, i: nat)
      requires Valid() && i < |blocks| && block == blocks[i].addr
      ensures block + HEADER_BYTES <= ram.mem.Length && ram.HeaderAt(block).next + HEADER_BYTES <= ram.mem.Length
      ensures ram.HeaderAt(block).size == blocks[i].size
      ensures TakesOverNext(block, required) <==> GrowsInPlace(blocks, i, required)
    {
      hide Memory.HeaderAt, Memory.Represents;
      ram.HeaderSays(blocks, i);
      if i + 1 < |blocks| { ram.HeaderSays(blocks, i + 1); }
    }

    method ResizeInPlace(block: nat, required: nat, grow: bool, ghost i: nat)
      requires Valid() && 0 < required <= MAX_REQUEST && required % ALLOC_ALIGN == 0
      requires i < |blocks| && !blocks[i].free && block == blocks[i].addr
      requires if grow then GrowsInPlace(blocks, i, required) else required <= blocks[i].size
      modifies this, ram.mem
      ensures var merged := if grow then MergeNext(old(blocks), i) else old(blocks);
              Valid() && View() == old(View()).(blocks := SplitAt(merged, i, required))
      ensures heapStart == old(heapStart) && PayloadsKept() && OutsideKept()
      ensures var ptr := block + HEADER_SIZE;
              IsLive(old(blocks), ptr) && IsLive(blocks, ptr) && ContentMoved(ptr, ptr)
      ensures NoneRevived(old(ram.mem[..]), ram.mem[..], {})
    {
      hide Valid, Inv, Tiled, Placed, Live, Heads, SameOutside, PayloadsSame, Copied, NoneRevived;
      hide Covers, KeptOutside, LiveIndex, MergeNext, SplitAt, GrowsInPlace;
      ShapeNow();
      if grow {
        GrowInPlace(block, required, i);
      } else {
        ShrinkInPlace(block, required, i);
      }
      ShapeNow();
      HeadersOnlyKeepOutside(old(ram.mem[..]), ram.mem[..], old(blocks), blocks, heapStart, mappedEnd);
      InPlaceKeeps(i);
    }

    /** `krealloc` of a pointer that is not null to a size that is not 0. */
    method ReallocTo(ptr: nat, newSize: nat) returns (moved: nat)
      requires Valid() && Passable(ptr) && 0 < newSize <= MAX_REQUEST && ptr != 0
      modifies this, ram.mem, pt.directory, pt.pool, pt.used
      ensures Valid() && (View(), moved) == Realloc(old(View()), ptr, newSize)
      ensures heapStart == old(heapStart) && PayloadsKept() && OutsideKept()
      ensures moved != 0 ==> IsLive(old(blocks), ptr) && IsLive(blocks, moved) && ContentMoved(ptr, moved)
      ensures moved == 0 || moved == ptr ==> NoneRevived(old(ram.mem[..]), ram.mem[..], {})
      ensures moved != 0 && moved != ptr ==> Inert(ptr)
      ensures moved != 0 && moved != ptr ==>
                NoneRevivedOutside(old(ram.mem[..]), ram.mem[..], Granted(moved),
                                   moved, moved + LiveSize(old(blocks), ptr))
    {
      hide Valid, Inv, Live, Heads, SameOutside, PayloadsSame, Copied, NoneRevived, NoneRevivedOutside, LiveSize;
      hide LiveIndex, Resize, Inert, AlignUp32, Memory.HeaderAt, Memory.Represents;
      if IsLive(blocks, ptr) { LiveIsNotInert(ptr); }
      NoneRevivedReflexive(ram.mem[..]);
      PayloadsSameReflexive(ram.mem[..], Live(blocks));
      assert PayloadsKept() && OutsideKept();
      hide PayloadsKept, OutsideKept, ContentMoved;
      var block := BlockFromPtr(ptr);
      moved := 0;
      if block != 0 && ram.HeaderAt(block).free == 0 {
        var alignedSize := AlignUp32(newSize, ALLOC_ALIGN);
        assert alignedSize == BlockSize(newSize);
        hide BlockSize;
        moved := ReallocLive(ptr, block, alignedSize, LiveIndex(blocks, ptr, 0));
      }
    }

    method Krealloc(ptr: nat, newSize: nat) returns (moved: nat)
      requires Valid() && Passable(ptr) && newSize <= MAX_REQUEST
      modifies this, ram.mem, pt.directory, pt.pool, pt.used
      ensures Valid() && (View(), moved) == Realloc(old(View()), ptr, newSize)
      ensures heapStart == old(heapStart) && PayloadsKept() && OutsideKept()
      ensures moved != 0 && ptr != 0 ==> IsLive(old(blocks), ptr) && IsLive(blocks, moved) && ContentMoved(ptr, moved)
      ensures ptr == 0 ==> NoneRevived(old(ram.mem[..]), ram.mem[..], Granted(moved))
      ensures moved == 0 || moved == ptr ==> NoneRevived(old(ram.mem[..]), ram.mem[..], {})
      ensures ptr != 0 && (newSize == 0 || (moved != 0 && moved != ptr)) ==> Inert(ptr)
      ensures moved != 0 && ptr != 0 && moved != ptr ==>
                NoneRevivedOutside(old(ram.mem[..]), ram.mem[..], Granted(moved),
                                   moved, moved + LiveSize(old(blocks), ptr))
    {
      hide Valid, Inv, PayloadsKept, OutsideKept, ContentMoved;
      hide Passable, Inert, NoneRevived, NoneRevivedOutside, LiveSize;
      hide IsLive, Alloc, Free, Resize, Memory.HeaderAt, Memory.Represents;
      if ptr == 0 {
        moved := Kmalloc(newSize);
      } else if newSize == 0 {
        Kfree(ptr);
        moved := 0;
      } else {
        moved := ReallocTo(ptr, newSize);
      }
    }

    // ----- kcalloc -----

    method Kcalloc(count: nat, size: nat) returns (ptr: nat)
      requires Valid() && count < TWO32 && size < TWO32
      requires count * size <= MAX_REQUEST || count * size >= TWO32
      modifies this, ram.mem, pt.directory, pt.pool, pt.used
      ensures Valid() && (View(), ptr) == Calloc(old(View()), count, size)
      ensures heapStart == old(heapStart) && PayloadsKept() && OutsideKept()
      ensures ptr != 0 ==> Zeros(ram.mem[..], ptr, count * size)
      ensures NoneRevived(old(ram.mem[..]), ram.mem[..], Granted(ptr))
    {
      hide Valid, Inv, Alloc, Live, PayloadsSame, LiveIndex, IsLive, NoneRevived, KeptOutside;
      ghost var s := View();
      NothingChanged(ram.mem[..], {}, heapStart, mappedEnd);
      NoneRevivedReflexive(ram.mem[..]);
      if count == 0 || size == 0 || count * size >= TWO32 {
        PayloadsSameReflexive(ram.mem[..], Live(blocks));
        return 0;
      }
      var total := count * size;
      ShapeNow();
      ghost var m0 := ram.mem[..];
      ptr := Kmalloc(total);
      if ptr != 0 {
        ghost var m1 := ram.mem[..];
        AllocGrants(s, total);
        ZeroPayload(ptr, total);
        AllocThenWrite(s, total, m0, m1, ram.mem[..]);
        KeptOutsideTwice(m0, m1, ram.mem[..], heapStart, mappedEnd);
        NoneRevivedTwice(m0, m1, ram.mem[..], Granted(ptr));
      }
    }

    /** The loop of `kcalloc` over the new payload. */
    method ZeroPayload(ptr: nat, total: nat)
      requires Valid() && IsLive(blocks, ptr) && total <= blocks[LiveIndex(blocks, ptr, 0)].size
      modifies ram.mem
      ensures Valid() && View() == old(View()) && heapStart == old(heapStart) && OutsideKept()
      ensures Zeros(ram.mem[..], ptr, total)
      ensures PayloadsSame(old(ram.mem[..]), ram.mem[..], Live(blocks), Live(blocks), ptr)
      ensures NoneRevived(old(ram.mem[..]), ram.mem[..], {})
    {
      hide Inv, Live, PayloadsSame, LiveIndex, Covers, KeptOutside, Zeros, NoneRevived, Stamped;
      hide Memory.HeaderAt, Memory.Represents;
      hide Paging.PageTables.Valid, Paging.PageTables.KernelMapping;
      ghost var j := LiveIndex(blocks, ptr, 0);
      ShapeNow();
      ram.RepresentsStamps(blocks);
      assert blocks[j] in blocks;
      ram.ZeroBytes(ptr, total, blocks, j);
      ZerosReviveNone(old(ram.mem[..]), ram.mem[..], blocks[j], total);
      PayloadWriteKeeps(blocks, j, old(ram.mem[..]), ram.mem[..], ptr, ptr + total, heapStart, mappedEnd);
    }

    /** A client's store into a payload: that byte changes and no other; no header is touched. */
    method PokePayload(a: nat, v: byte, ghost j: nat)
      requires Valid() && j < |blocks| && blocks[j].Payload() <= a < blocks[j].End()
      modifies ram.mem
      ensures Valid() && View() == old(View()) && heapStart == old(heapStart) && OutsideKept()
      ensures a < ram.mem.Length && ram.mem[..] == old(ram.mem[..])[a := v]
      ensures NoneRevivedOutside(old(ram.mem[..]), ram.mem[..], {}, a, a + 1)
    {
      hide Inv, Live, PayloadsSame, KeptOutside, Covers, NoneRevivedOutside, Memory.HeaderAt, Memory.Represents;
      hide Paging.PageTables.Valid, Paging.PageTables.KernelMapping;
      ShapeNow();
      ram.Inside(blocks, j);
      ram.StoreByte(a, v, blocks, j);
      OneByteKeeps(old(ram.mem[..]), a, v);
      PayloadWriteKeeps(blocks, j, old(ram.mem[..]), ram.mem[..], a, a + 1, heapStart, mappedEnd);
      WritesReviveNoneOutside(old(ram.mem[..]), ram.mem[..], a, a + 1);
    }

    static lemma OneByteKeeps(m: seq<byte>, a: nat, v: byte)
      requires a < |m|
      ensures KeptOutside(m, m[a := v], a, a + 1)
    {}

    // ----- the counters -----

    method KmallocTotal() returns (total: nat)
      requires Valid()
      ensures total == Total(blocks)
    {
      CountersFit(blocks);
      total := ram.SumSizes(head, true, true, blocks);
    }

    method KmallocRemaining() returns (totalFree: nat)
      requires Valid()
      ensures totalFree == Remaining(blocks)
    {
      CountersFit(blocks);
      totalFree := ram.SumSizes(head, true, false, blocks);
    }

    method KmallocUsed() returns (totalUsed: nat)
      requires Valid()
      ensures totalUsed == Used(blocks)
    {
      CountersFit(blocks);
      totalUsed := ram.SumSizes(head, false, true, blocks);
    }
  }
}
