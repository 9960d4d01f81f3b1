/**
 32-bit two-level paging (section 4.3 of the Intel 64 and IA-32 Architectures
 Software Developer's Manual, Volume 3A): a page directory whose entries point
 into a fixed pool of page tables.
 */
module Paging {
  import opened Word32

  const PAGE_ENTRIES: nat := 1024
  const POOL_COUNT: nat := 32
  const FLAG_PRESENT: nat := 1
  const FLAG_RW: nat := 2
  const FLAG_USER: nat := 4

  /** The bytes that one directory entry spans. */
  const DIRECTORY_SPAN: nat := 0x0040_0000

  datatype Translation = NotMapped | Mapped(frame: nat, flags: nat)

  predicate Present(entry: nat) { entry % 2 == 1 }

  /** `entry & bit` for a single bit. */
  predicate HasBit(entry: nat, bit: nat)
    requires bit > 0
  {
    entry / bit % 2 == 1
  }

  /** The access that the kernel gives: everything to all below four megabytes, no user access above. */
  const BOOT_FLAGS: nat := 7
  const HEAP_FLAGS: nat := 3

  /** The flags of a page in the span of directory entry `d`. */
  function SpanFlags(d: nat): nat { if d == 0 then BOOT_FLAGS else HEAP_FLAGS }

  /** `frame | flags` for a page-aligned frame address: the low bits are disjoint. */
  function MakeEntry(frame: nat, flags: nat): nat
    requires flags < PAGE_SIZE
  {
    frame * PAGE_SIZE + flags
  }

  /** `(flags & PAGE_FLAG_MASK) | PAGE_FLAG_PRESENT` */
  function PresentFlags(flags: nat): (f: nat)
    ensures f < PAGE_SIZE && Present(f)
    ensures f == flags % PAGE_SIZE || f == flags % PAGE_SIZE + 1
  {
    var low := flags % PAGE_SIZE;
    if Present(low) then low else low + 1
  }

  lemma EntryFields(frame: nat, flags: nat)
    requires flags < PAGE_SIZE
    ensures MakeEntry(frame, flags) / PAGE_SIZE == frame
    ensures MakeEntry(frame, flags) % PAGE_SIZE == flags
    ensures Present(MakeEntry(frame, flags)) <==> Present(flags)
  {}

  function Decode(entry: nat): Translation {
    if Present(entry) then Mapped(entry / PAGE_SIZE, entry % PAGE_SIZE) else NotMapped
  }

  lemma EntryMeans(frame: nat, flags: nat)
    requires flags < PAGE_SIZE && Present(flags)
    ensures Decode(MakeEntry(frame, flags)) == Mapped(frame, flags)
  {
    EntryFields(frame, flags);
  }

  function DirectoryIndex(address: nat): nat { address / DIRECTORY_SPAN }

  function TableIndex(address: nat): (t: nat)
    ensures t < PAGE_ENTRIES
  {
    address / PAGE_SIZE % PAGE_ENTRIES
  }

  /** The index of the first table of the pool that is not in use, or the size of the pool. */
  function FirstUnused(used: seq<bool>, from: nat): (i: nat)
    requires from <= |used|
    ensures from <= i <= |used|
    ensures i < |used| ==> !used[i]
    ensures forall k :: from <= k < i ==> used[k]
    decreases |used| - from
  {
    if from == |used| || !used[from] then from else FirstUnused(used, from + 1)
  }

  class PageTables {
    const directory: array<nat>
    const pool: array2<nat>
    const used: array<bool>
    /** The physical page in which `page_table_pool` starts. */
    const poolFrame: nat

    /** The pool table to which a directory entry points. */
    function PoolIndex(entry: nat): int {
      entry / PAGE_SIZE - poolFrame
    }

    /** The sizes of the static arrays, and a pool that lies in memory; the contents may be anything. */
    predicate Shaped()
      reads this
    {
      && directory.Length == PAGE_ENTRIES
      && pool.Length0 == POOL_COUNT && pool.Length1 == PAGE_ENTRIES
      && used.Length == POOL_COUNT
      && 0 < poolFrame
      && (poolFrame + POOL_COUNT) * PAGE_SIZE <= TWO32
    }

    ghost predicate Valid()
      reads this, directory, pool, used
    {
      && Shaped()
      && (forall d :: 0 <= d < PAGE_ENTRIES && Present(directory[d]) ==>
            0 <= PoolIndex(directory[d]) < POOL_COUNT && used[PoolIndex(directory[d])])
      && (forall d, e :: 0 <= d < e < PAGE_ENTRIES && Present(directory[d]) && Present(directory[e]) ==>
            PoolIndex(directory[d]) != PoolIndex(directory[e]))
    }

    /** The abstract value: what each of the 2^20 pages, named by its two indices, maps to. */
    ghost function Lookup(d: nat, t: nat): Translation
      requires Valid() && d < PAGE_ENTRIES && t < PAGE_ENTRIES
      reads this, directory, pool, used
    {
      if Present(directory[d]) then Decode(pool[PoolIndex(directory[d]), t]) else NotMapped
    }

    /** The page walk of the processor. */
    ghost function Walk(address: nat): (physical: int)
      requires Valid() && address < TWO32
      reads this, directory, pool, used
    {
      var page := Lookup(DirectoryIndex(address), TableIndex(address));
      if page.Mapped? then page.frame * PAGE_SIZE + address % PAGE_SIZE else -1
    }

    /** The page walk of a write: both entries must have the write bit. */
    ghost predicate Writable(address: nat)
      requires Valid() && address < TWO32
      reads this, directory, pool, used
    {
      Permits(DirectoryIndex(address), TableIndex(address), FLAG_RW)
    }

    /** The page walk of user mode: both entries must have the user bit. */
    ghost predicate UserAccessible(address: nat)
      requires Valid() && address < TWO32
      reads this, directory, pool, used
    {
      Permits(DirectoryIndex(address), TableIndex(address), FLAG_USER)
    }

    /** The page is mapped, and the bit is set in the entries of both levels. */
    ghost predicate Permits(d: nat, t: nat, bit: nat)
      requires Valid() && d < PAGE_ENTRIES && t < PAGE_ENTRIES && bit > 0
      reads this, directory, pool, used
    {
      Lookup(d, t).Mapped? && HasBit(directory[d], bit) && HasBit(Lookup(d, t).flags, bit)
    }

    /** The static arrays as the boot code leaves them: all zero. */
    constructor (poolFrame: nat)
      requires 0 < poolFrame && (poolFrame + POOL_COUNT) * PAGE_SIZE <= TWO32
      ensures Valid() && fresh(directory) && fresh(pool) && fresh(used) && this.poolFrame == poolFrame
    {
      directory := new nat[PAGE_ENTRIES](_ => 0);
      pool := new nat[POOL_COUNT, PAGE_ENTRIES]((_, _) => 0);
      used := new bool[POOL_COUNT](_ => false);
      this.poolFrame := poolFrame;
      new;
      assert forall d :: 0 <= d < PAGE_ENTRIES ==> !Present(directory[d]);
    }

    /** The first unused table of the pool, zeroed; its physical address, or 0 when there is none. */
    method AllocPageTable() returns (table: nat)
      requires Shaped()
      modifies pool, used
      ensures var i := FirstUnused(old(used[..]), 0);
              if i == POOL_COUNT then
                table == 0 && used[..] == old(used[..]) && unchanged(pool)
              else
                && table == (poolFrame + i) * PAGE_SIZE
                && used[..] == old(used[..])[i := true]
                && (forall t :: 0 <= t < PAGE_ENTRIES ==> pool[i, t] == 0)
                && (forall k, t :: 0 <= k < POOL_COUNT && k != i && 0 <= t < PAGE_ENTRIES ==>
                    pool[k, t] == old(pool[k, t]))
    {
      for i := 0 to POOL_COUNT
        invariant FirstUnused(used[..], 0) >= i
        invariant used[..] == old(used[..])
        invariant unchanged(pool)
      {
        if !used[i] {
          used[i] := true;
          for j := 0 to PAGE_ENTRIES
            invariant used[..] == old(used[..])[i := true]
            invariant forall t :: 0 <= t < j ==> pool[i, t] == 0
            invariant forall k, t :: 0 <= k < POOL_COUNT && k != i && 0 <= t < PAGE_ENTRIES ==>
                    pool[k, t] == old(pool[k, t])
          {
            pool[i, j] := 0;
          }
          return (poolFrame + i) * PAGE_SIZE;
        }
      }
      return 0;
    }

    /** The address of the table under a directory entry, or 0. */
    method GetPageTable(d: nat) returns (table: nat)
      requires Valid() && d < PAGE_ENTRIES
      ensures table == if Present(directory[d]) then AlignDown(directory[d], PAGE_SIZE) else 0
      ensures table != 0 <==> Present(directory[d])
      ensures Present(directory[d]) ==> PoolIndex(table) == PoolIndex(directory[d])
    {
      var entry := directory[d];
      if !Present(entry) {
        return 0;
      }
      return AlignDown(entry, PAGE_SIZE);
    }

    /** The mapping is what it was. */
    twostate predicate SameMapping()
      requires old(Valid()) && Valid()
      reads this, directory, pool, used
    {
      forall e, t :: 0 <= e < PAGE_ENTRIES && 0 <= t < PAGE_ENTRIES ==> Lookup(e, t) == old(Lookup(e, t))
    }

    method GetOrCreatePageTable(d: nat) returns (table: nat)
      requires Valid() && d < PAGE_ENTRIES
      modifies directory, pool, used
      ensures Valid() && SameMapping()
      ensures table != 0 <==> Present(directory[d])
      ensures table != 0 <==> old(CanMap(d))
      ensures table != 0 ==> PoolIndex(table) == PoolIndex(directory[d])
      ensures var i := FirstUnused(old(used[..]), 0);
              if old(Present(directory[d])) || i == POOL_COUNT then
                directory[..] == old(directory[..]) && used[..] == old(used[..]) && unchanged(pool)
              else
                && directory[d] == MakeEntry(poolFrame + i, FLAG_PRESENT + FLAG_RW)
                && directory[d] % PAGE_SIZE == FLAG_PRESENT + FLAG_RW
                && directory[..] == old(directory[..])[d := directory[d]]
                && used[..] == old(used[..])[i := true]
                && Present(directory[d]) && PoolIndex(directory[d]) == i
    {
      hide MakeEntry, AlignDown, Decode, FirstUnused, Present;
      table := GetPageTable(d);
      if table != 0 {
        return;
      }
      table := AllocPageTable();
      if table == 0 {
        return;
      }
      ghost var i := FirstUnused(old(used[..]), 0);
      TableTaken(i);
      assert table / PAGE_SIZE == poolFrame + i;
      LinkTable(d, i, table / PAGE_SIZE);
    }

    /** Taking a table that no entry points to changes no translation. */
    twostate lemma TableTaken(new i: nat)
      requires old(Valid()) && i < POOL_COUNT && !old(used[i]) && unchanged(directory)
      requires used[..] == old(used[..])[i := true]
      requires forall k, t :: 0 <= k < POOL_COUNT && k != i && 0 <= t < PAGE_ENTRIES ==> pool[k, t] == old(pool[k, t])
      ensures Valid() && SameMapping()
      ensures forall e :: 0 <= e < PAGE_ENTRIES && Present(directory[e]) ==> PoolIndex(directory[e]) != i
    {
      hide Decode, PoolIndex, Present;
      assert forall k :: 0 <= k < POOL_COUNT && k != i ==> used[k] == used[..][k] == old(used[k]);
      assert used[i] == used[..][i];
    }

    /** An entry that was absent now points to an empty table of its own. */
    method LinkTable(d: nat, ghost i: nat, frame: nat)
      requires Valid() && d < PAGE_ENTRIES && !Present(directory[d])
      requires i < POOL_COUNT && frame == poolFrame + i && used[i]
      requires forall e :: 0 <= e < PAGE_ENTRIES && Present(directory[e]) ==> PoolIndex(directory[e]) != i
      requires forall t :: 0 <= t < PAGE_ENTRIES ==> pool[i, t] == 0
      modifies directory
      ensures Valid() && SameMapping()
      ensures Present(directory[d]) && PoolIndex(directory[d]) == i
      ensures directory[d] == MakeEntry(frame, FLAG_PRESENT + FLAG_RW)
      ensures directory[d] % PAGE_SIZE == FLAG_PRESENT + FLAG_RW
      ensures directory[..] == old(directory[..])[d := directory[d]]
    {
      hide MakeEntry;
      EntryFields(frame, FLAG_PRESENT + FLAG_RW);
      directory[d] := MakeEntry(frame, FLAG_PRESENT + FLAG_RW);
      assert forall e :: 0 <= e < PAGE_ENTRIES && e != d ==> directory[e] == old(directory[e]);
    }

    /** A table for this directory entry exists or can still be taken from the pool. */
    ghost predicate CanMap(d: nat)
      requires Valid() && d < PAGE_ENTRIES
      reads this, directory, pool, used
    {
      Present(directory[d]) || FirstUnused(used[..], 0) < POOL_COUNT
    }

    /** One page has been mapped, at the cost of at most one table of the pool, and nothing else has changed. */
    twostate predicate MapsOnly(virt: nat, phys: nat, flags: nat)
      requires old(Valid()) && Valid() && virt < TWO32
      reads this, directory, pool, used
    {
      var d, t := DirectoryIndex(virt), TableIndex(virt);
      var i := FirstUnused(old(used[..]), 0);
      && (forall e, u :: 0 <= e < PAGE_ENTRIES && 0 <= u < PAGE_ENTRIES ==>
            Lookup(e, u) ==
            if (e, u) == (d, t) && old(CanMap(d)) then Mapped(phys / PAGE_SIZE, PresentFlags(flags))
            else old(Lookup(e, u)))
      && if old(Present(directory[d])) || i == POOL_COUNT then
        directory[..] == old(directory[..]) && used[..] == old(used[..])
      else
        && Present(directory[d]) && PoolIndex(directory[d]) == i
        && directory[d] % PAGE_SIZE == FLAG_PRESENT + FLAG_RW
        && directory[..] == old(directory[..])[d := directory[d]] && used[..] == old(used[..])[i := true]
    }

    /** Maps one page; every other translation stays. With the pool exhausted nothing changes. */
    method MapPage(virt: nat, phys: nat, flags: nat)
      requires Valid() && virt < TWO32 && phys < TWO32
      modifies directory, pool, used
      ensures Valid() && MapsOnly(virt, phys, flags)
    {
      hide MakeEntry, FirstUnused, PresentFlags, AlignDown, DirectoryIndex, TableIndex, Decode, Present;
      hide PoolIndex, Lookup, Valid;
      var vaddr := AlignDown(virt, PAGE_SIZE);
      var paddr := AlignDown(phys, PAGE_SIZE);
      AlignDownPage(virt);
      AlignDownPage(phys);
      var d := DirectoryIndex(vaddr);
      var t := TableIndex(vaddr);
      var table := GetOrCreatePageTable(d);
      if table == 0 {
        return;
      }
      var entry := MakeEntry(paddr / PAGE_SIZE, PresentFlags(flags));
      EntryMeans(paddr / PAGE_SIZE, PresentFlags(flags));
      StoreEntry(table, d, t, entry);
    }

    /** One store into a table changes one translation: no other directory entry points to that table. */
    method StoreEntry(table: nat, d: nat, t: nat, entry: nat)
      requires Valid() && d < PAGE_ENTRIES && t < PAGE_ENTRIES
      requires Present(directory[d]) && PoolIndex(table) == PoolIndex(directory[d])
      modifies pool
      ensures Valid()
      ensures forall e, u :: 0 <= e < PAGE_ENTRIES && 0 <= u < PAGE_ENTRIES ==>
                Lookup(e, u) == if (e, u) == (d, t) then Decode(entry) else old(Lookup(e, u))
    {
      hide Decode;
      pool[PoolIndex(table), t] := entry;
    }

    /** Removes one page from the mapping; every other translation stays. */
    method UnmapPage(virt: nat)
      requires Valid() && virt < TWO32
      modifies pool
      ensures Valid()
      ensures forall e, u :: 0 <= e < PAGE_ENTRIES && 0 <= u < PAGE_ENTRIES ==>
                Lookup(e, u) ==
                if (e, u) == (DirectoryIndex(virt), TableIndex(virt)) then NotMapped else old(Lookup(e, u))
    {
      var vaddr := AlignDown(virt, PAGE_SIZE);
      AlignDownPage(virt);
      var d := DirectoryIndex(vaddr);
      var t := TableIndex(vaddr);
      var table := GetPageTable(d);
      if table == 0 {
        return;
      }
      StoreEntry(table, d, t, 0);
    }

    lemma FirstSpanMapped()
      requires Shaped()
      requires directory[0] == MakeEntry(poolFrame, FLAG_PRESENT + FLAG_RW + FLAG_USER)
      requires forall d :: 0 < d < PAGE_ENTRIES ==> directory[d] == 0
      requires forall u :: 0 <= u < PAGE_ENTRIES ==> pool[0, u] == MakeEntry(u, FLAG_PRESENT + FLAG_RW + FLAG_USER)
      requires forall k :: 0 <= k < POOL_COUNT ==> (used[k] <==> k == 0)
      ensures Valid() && IdentityBelow(DIRECTORY_SPAN) && SequentialTables(DIRECTORY_SPAN)
      ensures directory[0] % PAGE_SIZE == FLAG_PRESENT + FLAG_RW + FLAG_USER && FlagsBelow(DIRECTORY_SPAN)
      ensures forall e, u :: 0 <= e < PAGE_ENTRIES && 0 <= u < PAGE_ENTRIES ==>
                Lookup(e, u) ==
                if e == 0 then Mapped(u, FLAG_PRESENT + FLAG_RW + FLAG_USER) else NotMapped
    {
      forall u | 0 <= u < PAGE_ENTRIES
        ensures Decode(pool[0, u]) == Mapped(u, FLAG_PRESENT + FLAG_RW + FLAG_USER)
      {
        EntryFields(u, FLAG_PRESENT + FLAG_RW + FLAG_USER);
      }
      EntryFields(poolFrame, FLAG_PRESENT + FLAG_RW + FLAG_USER);
      hide Decode, MakeEntry;
      assert forall d :: 0 < d < PAGE_ENTRIES ==> !Present(directory[d]);
    }

    /** The identity map of the first four megabytes, in the first table of the pool. */
    method PagingInit()
      requires Shaped()
      modifies directory, pool, used
      ensures Valid()
      ensures forall e, u :: 0 <= e < PAGE_ENTRIES && 0 <= u < PAGE_ENTRIES ==>
                Lookup(e, u) ==
                if e == 0 then Mapped(u, FLAG_PRESENT + FLAG_RW + FLAG_USER) else NotMapped
      ensures directory[0] % PAGE_SIZE == FLAG_PRESENT + FLAG_RW + FLAG_USER
      ensures KernelMapping(DIRECTORY_SPAN)
    {
      hide MakeEntry, FirstUnused;
      for i := 0 to PAGE_ENTRIES
        invariant forall d :: 0 <= d < i ==> directory[d] == 0
      {
        directory[i] := 0;
      }
      for i := 0 to POOL_COUNT
        invariant forall d :: 0 <= d < PAGE_ENTRIES ==> directory[d] == 0
        invariant forall k :: 0 <= k < i ==> !used[k]
      {
        used[i] := false;
      }
      assert !used[..][0];
      var table := AllocPageTable();
      for i := 0 to PAGE_ENTRIES
        invariant forall d :: 0 <= d < PAGE_ENTRIES ==> directory[d] == 0
        invariant forall u :: 0 <= u < i ==> pool[0, u] == MakeEntry(u, FLAG_PRESENT + FLAG_RW + FLAG_USER)
        invariant forall k :: 0 <= k < POOL_COUNT ==> (used[k] <==> k == 0)
      {
        pool[PoolIndex(table), i] := MakeEntry(i, FLAG_PRESENT + FLAG_RW + FLAG_USER);
      }
      directory[0] := MakeEntry(table / PAGE_SIZE, FLAG_PRESENT + FLAG_RW + FLAG_USER);
      FirstSpanMapped();
    }

    // ----- the heap as the only caller of MapPage -----

    /** Every page below `end` is mapped to the frame of the same number. */
    ghost predicate IdentityBelow(end: nat)
      requires Valid() && end <= TWO32
      reads this, directory, pool, used
    {
      forall d, t :: 0 <= d < PAGE_ENTRIES && 0 <= t < PAGE_ENTRIES && (d * PAGE_ENTRIES + t) * PAGE_SIZE < end ==>
        Lookup(d, t).Mapped? && Lookup(d, t).frame == d * PAGE_ENTRIES + t
    }

    /** Tables have been taken from the pool in address order, one for every started span below `end`. */
    ghost predicate SequentialTables(end: nat)
      requires Valid()
      reads this, directory, pool, used
    {
      && (forall d :: 0 <= d < PAGE_ENTRIES ==> (Present(directory[d]) <==> d * DIRECTORY_SPAN < end))
      && (forall d :: 0 <= d < PAGE_ENTRIES && Present(directory[d]) ==> PoolIndex(directory[d]) == d)
      && (forall k :: 0 <= k < POOL_COUNT ==> (used[k] <==> k * DIRECTORY_SPAN < end))
    }

    /** Up to `end` the first span has the boot flags and every later one the heap's, in both levels. */
    ghost predicate FlagsBelow(end: nat)
      requires Valid() && end <= TWO32
      reads this, directory, pool, used
    {
      && (forall d :: 0 <= d < PAGE_ENTRIES && d * DIRECTORY_SPAN < end ==> directory[d] % PAGE_SIZE == SpanFlags(d))
      && (forall d, t :: 0 <= d < PAGE_ENTRIES && 0 <= t < PAGE_ENTRIES && (d * PAGE_ENTRIES + t) * PAGE_SIZE < end ==>
            Lookup(d, t).Mapped? && Lookup(d, t).flags == SpanFlags(d))
    }

    /** A page that growth maps can be written by the kernel and not be reached from user mode. */
    twostate lemma FlagsGrow(new end: nat, new flags: nat)
      requires old(Valid()) && Valid() && PresentFlags(flags) == HEAP_FLAGS
      requires end % PAGE_SIZE == 0 && DIRECTORY_SPAN <= end < 16 * DIRECTORY_SPAN
      requires old(FlagsBelow(end)) && old(SequentialTables(end)) && MapsOnly(end, end, flags)
      ensures FlagsBelow(end + PAGE_SIZE)
    {
      hide SequentialTables, MapsOnly, Valid, PresentFlags, Lookup;
      TablesInOrder(end, flags);
      DirectoryFlagsGrow(end, flags);
      PageFlagsGrow(end, flags);
    }

    twostate lemma DirectoryFlagsGrow(new end: nat, new flags: nat)
      requires old(Valid()) && Valid()
      requires end % PAGE_SIZE == 0 && DIRECTORY_SPAN <= end < 16 * DIRECTORY_SPAN
      requires old(FlagsBelow(end)) && old(SequentialTables(end)) && MapsOnly(end, end, flags)
      requires old(CanMap(DirectoryIndex(end)))
      ensures forall d :: 0 <= d < PAGE_ENTRIES && d * DIRECTORY_SPAN < end + PAGE_SIZE ==>
                directory[d] % PAGE_SIZE == SpanFlags(d)
    {
      hide Lookup, DirectoryIndex, TableIndex, PresentFlags, FirstUnused;
      SpanOf(end);
      var d := DirectoryIndex(end);
      forall e | 0 <= e < PAGE_ENTRIES && e * DIRECTORY_SPAN < end + PAGE_SIZE
        ensures directory[e] % PAGE_SIZE == SpanFlags(e)
      {
        assert directory[e] == directory[..][e] && old(directory[e]) == old(directory[..])[e];
      }
    }

    twostate lemma PageFlagsGrow(new end: nat, new flags: nat)
      requires old(Valid()) && Valid() && PresentFlags(flags) == HEAP_FLAGS
      requires end % PAGE_SIZE == 0 && DIRECTORY_SPAN <= end < 16 * DIRECTORY_SPAN
      requires old(FlagsBelow(end)) && MapsOnly(end, end, flags) && old(CanMap(DirectoryIndex(end)))
      ensures forall d, t :: 0 <= d < PAGE_ENTRIES && 0 <= t < PAGE_ENTRIES ==>
                (d * PAGE_ENTRIES + t) * PAGE_SIZE < end + PAGE_SIZE ==>
                  Lookup(d, t).Mapped? && Lookup(d, t).flags == SpanFlags(d)
    {
      hide Lookup, Valid, CanMap, PresentFlags, FirstUnused, DirectoryIndex, TableIndex;
      PageNumber(end);
      SpanOf(end);
      forall e, u | 0 <= e < PAGE_ENTRIES && 0 <= u < PAGE_ENTRIES &&
          (e * PAGE_ENTRIES + u) * PAGE_SIZE < end + PAGE_SIZE
        ensures Lookup(e, u).Mapped? && Lookup(e, u).flags == SpanFlags(e)
      {
        if (e * PAGE_ENTRIES + u) * PAGE_SIZE >= end { PageOf(e, u, end); }
      }
    }

    /** The mapping that the heap lives on, up to `end`. */
    ghost predicate KernelMapping(end: nat)
      requires Valid() && end <= TWO32
      reads this, directory, pool, used
    {
      IdentityBelow(end) && SequentialTables(end) && FlagsBelow(end)
    }

    /** Growth by one writable page keeps it. */
    twostate lemma MappingGrows(new end: nat)
      requires old(Valid()) && Valid()
      requires end % PAGE_SIZE == 0 && DIRECTORY_SPAN <= end < 16 * DIRECTORY_SPAN
      requires old(KernelMapping(end)) && MapsOnly(end, end, FLAG_RW)
      ensures KernelMapping(end + PAGE_SIZE)
    {
      assert PresentFlags(FLAG_RW) == HEAP_FLAGS;
      hide IdentityBelow, SequentialTables, FlagsBelow, MapsOnly, Valid, PresentFlags;
      IdentityGrows(end, FLAG_RW);
      FlagsGrow(end, FLAG_RW);
    }

    /** Below `end` every page can be written, and exactly the first four megabytes can be reached from user mode. */
    lemma AccessBelow(end: nat, address: nat)
      requires Valid() && end <= TWO32 && KernelMapping(end) && address < end
      ensures Writable(address) && (UserAccessible(address) <==> address < DIRECTORY_SPAN)
    {
      hide Lookup;
      var d, t := DirectoryIndex(address), TableIndex(address);
      PageNumber(address);
      LowBits(directory[d]);
      LowBits(Lookup(d, t).flags);
    }

    /** Growth by one page never runs out of tables and keeps the mapping the identity. */
    twostate lemma IdentityGrows(new end: nat, new flags: nat)
      requires old(Valid()) && Valid()
      requires end % PAGE_SIZE == 0 && DIRECTORY_SPAN <= end < 16 * DIRECTORY_SPAN
      requires old(IdentityBelow(end)) && old(SequentialTables(end)) && MapsOnly(end, end, flags)
      ensures IdentityBelow(end + PAGE_SIZE) && SequentialTables(end + PAGE_SIZE)
    {
      hide IdentityBelow, SequentialTables, MapsOnly, Valid;
      TablesInOrder(end, flags);
      PageJoins(end, flags);
    }

    /** The next table is taken when a new span begins, and it is the next of the pool. */
    twostate lemma TablesInOrder(new end: nat, new flags: nat)
      requires old(Valid()) && Valid()
      requires end % PAGE_SIZE == 0 && DIRECTORY_SPAN <= end < 16 * DIRECTORY_SPAN
      requires old(SequentialTables(end)) && MapsOnly(end, end, flags)
      ensures old(CanMap(DirectoryIndex(end))) && SequentialTables(end + PAGE_SIZE)
    {
      hide Lookup, DirectoryIndex, TableIndex;
      SpanOf(end);
      var d := DirectoryIndex(end);
      assert old(used[..])[d] == old(used[d]);
      assert !old(Present(directory[d])) ==> end == d * DIRECTORY_SPAN && FirstUnused(old(used[..]), 0) == d;
      forall e | 0 <= e < PAGE_ENTRIES ensures directory[e] == if e == d then directory[d] else old(directory[e]) {
        assert directory[e] == directory[..][e] && old(directory[e]) == old(directory[..])[e];
      }
      forall k | 0 <= k < POOL_COUNT ensures used[k] <==> (k == d || old(used[k])) {
        assert used[k] == used[..][k] && old(used[k]) == old(used[..])[k];
      }
    }

    twostate lemma PageJoins(new end: nat, new flags: nat)
      requires old(Valid()) && Valid() && end % PAGE_SIZE == 0 && end < 16 * DIRECTORY_SPAN
      requires old(IdentityBelow(end)) && MapsOnly(end, end, flags) && old(CanMap(DirectoryIndex(end)))
      ensures IdentityBelow(end + PAGE_SIZE)
    {
      hide Lookup, Valid, CanMap, PresentFlags, FirstUnused, DirectoryIndex, TableIndex;
      PageNumber(end);
      forall e, u | 0 <= e < PAGE_ENTRIES && 0 <= u < PAGE_ENTRIES &&
          (e * PAGE_ENTRIES + u) * PAGE_SIZE < end + PAGE_SIZE
        ensures Lookup(e, u).Mapped? && Lookup(e, u).frame == e * PAGE_ENTRIES + u
      {
        if (e * PAGE_ENTRIES + u) * PAGE_SIZE >= end { PageOf(e, u, end); }
      }
    }

    /** The page walk is the identity on all of `[0, end)`. */
    lemma WalkIsIdentity(end: nat, address: nat)
      requires Valid() && end <= TWO32 && IdentityBelow(end) && address < end
      ensures Walk(address) == address
    {
      var d, t := DirectoryIndex(address), TableIndex(address);
      PageNumber(address);
      assert Lookup(d, t).Mapped? && Lookup(d, t).frame == d * PAGE_ENTRIES + t;
    }
  }

  /** The two bits lie in the low twelve. */
  lemma LowBits(entry: nat)
    ensures HasBit(entry, FLAG_RW) <==> HasBit(entry % PAGE_SIZE, FLAG_RW)
    ensures HasBit(entry, FLAG_USER) <==> HasBit(entry % PAGE_SIZE, FLAG_USER)
  {
    var q, low := entry / PAGE_SIZE, entry % PAGE_SIZE;
    assert entry / 2 == 2 * (1024 * q) + low / 2;
    assert entry / 4 == 2 * (512 * q) + low / 4;
    Even(1024 * q, low / 2);
    Even(512 * q, low / 4);
  }

  lemma Even(n: nat, m: nat)
    ensures (2 * n + m) % 2 == m % 2
  {}

  /** An address is its directory index, its table index and its offset. */
  lemma PageNumber(address: nat)
    ensures DirectoryIndex(address) * PAGE_ENTRIES + TableIndex(address) == address / PAGE_SIZE
    ensures address / PAGE_SIZE * PAGE_SIZE + address % PAGE_SIZE == address
    ensures address < TWO32 ==> DirectoryIndex(address) < PAGE_ENTRIES
  {
    var page := address / PAGE_SIZE;
    var d, t, r := page / PAGE_ENTRIES, page % PAGE_ENTRIES, address % PAGE_SIZE;
    assert address == DIRECTORY_SPAN * d + (PAGE_SIZE * t + r);
    assert 0 <= PAGE_SIZE * t + r < DIRECTORY_SPAN;
  }

  /** The spans that begin below the next page. */
  lemma SpanOf(address: nat)
    requires address % PAGE_SIZE == 0
    ensures var d := DirectoryIndex(address);
            && d * DIRECTORY_SPAN <= address < (d + 1) * DIRECTORY_SPAN
            && address + PAGE_SIZE <= (d + 1) * DIRECTORY_SPAN
  {
    hide DirectoryIndex, TableIndex;
    PageNumber(address);
  }

  /** The page that starts at an address has that address's indices. */
  lemma PageOf(d: nat, t: nat, address: nat)
    requires t < PAGE_ENTRIES && address % PAGE_SIZE == 0
    requires address <= (d * PAGE_ENTRIES + t) * PAGE_SIZE < address + PAGE_SIZE
    ensures d == DirectoryIndex(address) && t == TableIndex(address)
  {
    PageNumber(address);
    assert address / PAGE_SIZE == d * PAGE_ENTRIES + t;
  }

  lemma AlignDownPage(address: nat)
    ensures AlignDown(address, PAGE_SIZE) / PAGE_SIZE == address / PAGE_SIZE
    ensures DirectoryIndex(AlignDown(address, PAGE_SIZE)) == DirectoryIndex(address)
    ensures TableIndex(AlignDown(address, PAGE_SIZE)) == TableIndex(address)
    ensures address < TWO32 ==> DirectoryIndex(address) < PAGE_ENTRIES
  {
    var down := AlignDown(address, PAGE_SIZE);
    assert down == PAGE_SIZE * (address / PAGE_SIZE);
    PageNumber(address);
    PageNumber(down);
  }
}
