/**
 What the clients can rely on: a map from the pointers they hold to the bytes they
 know to be there. Grants start unknown or zero, `krealloc` carries the common prefix
 over, stores make bytes known. The memory refines this map at every step.
 */
module HeapContents {
  import opened Word32
  import opened HeapSpec
  import opened HeapLaws
  import opened HeapMemory
  import opened HeapPayloads
  import opened HeapRuns

  datatype Content = Unknown | Known(v: byte)

  type Contents = map<nat, seq<Content>>

  /** The known contents `xs` in a payload of `n` bytes: cut, or followed by unknown bytes. */
  function Fitted(xs: seq<Content>, n: nat): (ys: seq<Content>)
    ensures |ys| == n
  {
    seq(n, k requires 0 <= k < n => if k < |xs| then xs[k] else Unknown)
  }

  function Zeroes(n: nat): seq<Content> {
    seq(n, _ => Known(0))
  }

  /** One more pointer with contents, unless the answer is null. */
  function WithGrant(c: Contents, bs: seq<Block>, answer: nat, xs: seq<Content>): Contents {
    if answer == 0 then c else c[answer := Fitted(xs, LiveSize(bs, answer))]
  }

  /** The map after a request. */
  function AfterRequest(s: State, c: Contents, r: Request): Contents
    requires Bounded(r)
  {
    var (t, answer) := Step(s, r);
    match r
    case Kmalloc(_) => WithGrant(c, t.blocks, answer, [])
    case Kcalloc(count, size) => WithGrant(c, t.blocks, answer, Zeroes(count * size))
    case Kfree(ptr) => c - {ptr}
    case Krealloc(ptr, size) =>
      if ptr == 0 then WithGrant(c, t.blocks, answer, [])
      else if size == 0 then c - {ptr}
      else if answer == 0 || ptr !in c then c
      else (c - {ptr})[answer := Fitted(c[ptr], LiveSize(t.blocks, answer))]
  }

  /** The map after a client's store at `a`. */
  function AfterStore(c: Contents, a: nat, v: byte): (d: Contents)
    ensures d.Keys == c.Keys && forall p :: p in c ==> |d[p]| == |c[p]|
    ensures forall p, k :: p in c && 0 <= k < |c[p]| ==> d[p][k] == if p + k == a then Known(v) else c[p][k]
  {
    map p | p in c :: if p <= a < p + |c[p]| then c[p][a - p := Known(v)] else c[p]
  }

  ghost predicate KnownAt(m: seq<byte>, p: nat, xs: seq<Content>) {
    && p + |xs| <= |m|
    && forall k :: 0 <= k < |xs| && xs[k].Known? ==> m[p + k] == xs[k].v
  }

  /** The map has exactly the live pointers, with whole payloads, and the memory holds what it knows. */
  ghost predicate Holds(bs: seq<Block>, m: seq<byte>, c: Contents) {
    && c.Keys == Handles(bs)
    && forall p :: p in c ==> |c[p]| == LiveSize(bs, p) && KnownAt(m, p, c[p])
  }

  /** What a request does to the memory, as its answer promises. */
  ghost predicate Effect(s: State, r: Request, m0: seq<byte>, m1: seq<byte>)
    requires Bounded(r)
  {
    var (t, answer) := Step(s, r);
    && PayloadsSame(m0, m1, Live(s.blocks), Live(t.blocks), 0)
    && (r.Kcalloc? && answer != 0 ==> Zeros(m1, answer, r.count * r.size))
    && (r.Krealloc? && r.ptr != 0 && answer != 0 ==>
          Copied(m0, r.ptr, m1, answer, Common(s.blocks, r.ptr, t.blocks, answer)))
  }

  /** The smaller of two payload sizes. */
  function Common(bs: seq<Block>, p: nat, cs: seq<Block>, q: nat): nat {
    if LiveSize(bs, p) <= LiveSize(cs, q) then LiveSize(bs, p) else LiveSize(cs, q)
  }

  // ----- live pointers and their blocks -----

  lemma HandleIsLive(bs: seq<Block>, p: nat)
    ensures p in Handles(bs) <==> IsLive(bs, p)
  {
    var i := LiveIndex(bs, p, 0);
    if i < |bs| {
      assert bs[i] in Live(bs);
    }
    if p in Handles(bs) {
      var b :| b in Live(bs) && b.Payload() == p;
      var k :| 0 <= k < |bs| && bs[k] == b;
    }
  }

  /** The block of a live pointer. */
  function BlockOf(bs: seq<Block>, p: nat): Block
    requires IsLive(bs, p)
  {
    bs[LiveIndex(bs, p, 0)]
  }

  lemma BlockOfHandle(bs: seq<Block>, p: nat)
    requires p in Handles(bs)
    ensures IsLive(bs, p) && BlockOf(bs, p) in Live(bs) && BlockOf(bs, p).Payload() == p
    ensures LiveSize(bs, p) == BlockOf(bs, p).size
  {
    HandleIsLive(bs, p);
  }

  lemma HandleOfBlock(bs: seq<Block>, b: Block)
    requires Tiled(bs) && b in Live(bs)
    ensures b.Payload() in Handles(bs) && LiveSize(bs, b.Payload()) == b.size
  {
    var k :| 0 <= k < |bs| && bs[k] == b;
    LiveIndexAt(bs, k);
  }

  lemma InsideMemory(s: State, p: nat)
    requires Inv(s) && p in Handles(s.blocks)
    ensures p != 0 && p + LiveSize(s.blocks, p) <= HEAP_VIRT_LIMIT
  {
    hide Tiled, Live, LiveIndex, LiveSize;
    BlockOfHandle(s.blocks, p);
    var i := LiveIndex(s.blocks, p, 0);
    Within(s.blocks, i);
  }

  // ----- one block -----

  /** A block that is live before and after keeps what is known. */
  lemma BlockKeeps(m0: seq<byte>, m1: seq<byte>, b: Block, before: set<Block>, after: set<Block>, xs: seq<Content>)
    requires PayloadsSame(m0, m1, before, after, 0) && b in before && b in after
    requires KnownAt(m0, b.Payload(), xs) && |xs| == b.size
    ensures KnownAt(m1, b.Payload(), xs)
  {
    forall k | 0 <= k < |xs| && xs[k].Known? ensures m1[b.Payload() + k] == xs[k].v {
      assert b.Payload() != 0 && m1[b.Payload() + k] == m0[b.Payload() + k];
    }
  }

  lemma UnknownFits(m: seq<byte>, p: nat, n: nat)
    requires p + n <= |m|
    ensures KnownAt(m, p, Fitted([], n))
  {}

  lemma ZeroesFit(m: seq<byte>, p: nat, total: nat, n: nat)
    requires p + n <= |m| && Zeros(m, p, total)
    ensures KnownAt(m, p, Fitted(Zeroes(total), n))
  {
    var ys := Fitted(Zeroes(total), n);
    forall k | 0 <= k < n && ys[k].Known? ensures m[p + k] == ys[k].v {
      assert k < total;
    }
  }

  lemma CopyFits(m0: seq<byte>, p: nat, xs: seq<Content>, m1: seq<byte>, q: nat, n: nat)
    requires KnownAt(m0, p, xs) && q + n <= |m1| && Copied(m0, p, m1, q, if |xs| <= n then |xs| else n)
    ensures KnownAt(m1, q, Fitted(xs, n))
  {
    var ys := Fitted(xs, n);
    forall k | 0 <= k < n && ys[k].Known? ensures m1[q + k] == ys[k].v {
      assert k < |xs| && m1[q + k] == m0[q + k - q + p];
    }
  }

  // ----- one step -----

  /** A pointer that is live before and after a request, with the same block. */
  lemma PointerKeeps(s: State, t: State, m0: seq<byte>, m1: seq<byte>, c: Contents, b: Block)
    requires Tiled(s.blocks) && Tiled(t.blocks) && Holds(s.blocks, m0, c)
    requires PayloadsSame(m0, m1, Live(s.blocks), Live(t.blocks), 0)
    requires b in Live(s.blocks) && b in Live(t.blocks)
    ensures var p := b.Payload();
            p in c && p in Handles(t.blocks) && |c[p]| == LiveSize(t.blocks, p) && KnownAt(m1, p, c[p])
  {
    hide Tiled, Live, LiveSize, Handles, KnownAt, PayloadsSame;
    HandleOfBlock(s.blocks, b);
    HandleOfBlock(t.blocks, b);
    BlockKeeps(m0, m1, b, Live(s.blocks), Live(t.blocks), c[b.Payload()]);
  }

  /** If every live block but the answered one was there before, its contents are still known. */
  lemma OthersKeep(s: State, t: State, m0: seq<byte>, m1: seq<byte>, c: Contents, answer: nat)
    requires Tiled(s.blocks) && Tiled(t.blocks) && Holds(s.blocks, m0, c)
    requires PayloadsSame(m0, m1, Live(s.blocks), Live(t.blocks), 0)
    requires forall b :: b in Live(t.blocks) && b.Payload() != answer ==> b in Live(s.blocks)
    ensures forall p :: p in Handles(t.blocks) && p != answer ==>
              p in c && |c[p]| == LiveSize(t.blocks, p) && KnownAt(m1, p, c[p])
  {
    hide Tiled, Live, LiveSize, LiveIndex, KnownAt, PayloadsSame, Holds;
    forall p | p in Handles(t.blocks) && p != answer
      ensures p in c && |c[p]| == LiveSize(t.blocks, p) && KnownAt(m1, p, c[p])
    {
      BlockOfHandle(t.blocks, p);
      PointerKeeps(s, t, m0, m1, c, BlockOf(t.blocks, p));
    }
  }

  /** A granted payload with contents joins the map. */
  lemma GrantHolds(s: State, size: nat, m0: seq<byte>, m1: seq<byte>, c: Contents, xs: seq<Content>)
    requires Inv(s) && size <= MAX_REQUEST && Holds(s.blocks, m0, c)
    requires PayloadsSame(m0, m1, Live(s.blocks), Live(Alloc(s, size).0.blocks), 0)
    requires var (t, answer) := Alloc(s, size);
             answer != 0 ==> KnownAt(m1, answer, Fitted(xs, LiveSize(t.blocks, answer)))
    ensures var (t, answer) := Alloc(s, size); Holds(t.blocks, m1, WithGrant(c, t.blocks, answer, xs))
  {
    hide Tiled, Live, LiveSize, LiveIndex, KnownAt, PayloadsSame, Alloc, Fitted;
    var (t, answer) := Alloc(s, size);
    AllocKeepsInv(s, size);
    AllocHandles(s, size);
    GrantedOnly(s, size);
    OthersKeep(s, t, m0, m1, c, answer);
    if answer == 0 { NoNullHandle(t); }
  }

  lemma NoNullHandle(s: State)
    requires Inv(s)
    ensures 0 !in Handles(s.blocks)
  {
    hide Inv, Handles;
    if 0 in Handles(s.blocks) { InsideMemory(s, 0); }
  }

  lemma GrantedOnly(s: State, size: nat)
    requires Inv(s) && size <= MAX_REQUEST
    ensures var (t, answer) := Alloc(s, size);
            forall b :: b in Live(t.blocks) && b.Payload() != answer ==> b in Live(s.blocks)
  {
    hide Tiled, Live, LiveIndex, Alloc;
    AllocNull(s, size);
    if Alloc(s, size).1 != 0 { AllocGrants(s, size); }
  }

  lemma ReleaseHolds(s: State, ptr: nat, m0: seq<byte>, m1: seq<byte>, c: Contents)
    requires Inv(s) && Holds(s.blocks, m0, c)
    requires PayloadsSame(m0, m1, Live(s.blocks), Live(Free(s, ptr).blocks), 0)
    ensures Holds(Free(s, ptr).blocks, m1, c - {ptr})
  {
    hide Tiled, Live, LiveSize, LiveIndex, KnownAt, PayloadsSame, Free;
    var t := Free(s, ptr);
    FreeReleases(s, ptr);
    StepKeepsHandles(s, Kfree(ptr));
    NoNullHandle(t);
    OthersKeep(s, t, m0, m1, c, 0);
  }

  /** The live blocks behind a resize, other than the answered one, were there before. */
  lemma ResizedOnly(s: State, ptr: nat, size: nat)
    requires Inv(s) && IsLive(s.blocks, ptr) && 0 < size <= MAX_REQUEST && Realloc(s, ptr, size).1 != 0
    ensures var (t, answer) := Realloc(s, ptr, size);
            && Inv(t) && answer in Handles(t.blocks)
            && forall b :: b in Live(t.blocks) && b.Payload() != answer ==> b in Live(s.blocks)
  {
    hide Tiled, Live, Realloc, LiveIndex;
    var (t, answer) := Realloc(s, ptr, size);
    ReallocResizes(s, ptr, size);
    HandleIsLive(t.blocks, answer);
  }

  lemma ResizeHolds(s: State, ptr: nat, size: nat, m0: seq<byte>, m1: seq<byte>, c: Contents)
    requires Inv(s) && IsLive(s.blocks, ptr) && ptr != 0 && 0 < size <= MAX_REQUEST && Holds(s.blocks, m0, c)
    requires |m0| == HEAP_VIRT_LIMIT && Effect(s, Krealloc(ptr, size), m0, m1)
    ensures var t := Step(s, Krealloc(ptr, size)).0; Holds(t.blocks, m1, AfterRequest(s, c, Krealloc(ptr, size)))
  {
    hide Tiled, Live, LiveSize, LiveIndex, IsLive, KnownAt, PayloadsSame, Copied, Realloc, Fitted, Inv, Handles;
    var (t, answer) := Realloc(s, ptr, size);
    HandleIsLive(s.blocks, ptr);
    ReallocHandles(s, ptr, size);
    TiledNow(s);
    SameSize(m0, m1, Live(s.blocks), Live(t.blocks));
    if answer == 0 {
      ReallocResizes(s, ptr, size);
      NoNullHandle(s);
      OthersKeep(s, t, m0, m1, c, 0);
    } else {
      ResizedOnly(s, ptr, size);
      TiledNow(t);
      InsideMemory(t, answer);
      CopyFits(m0, ptr, c[ptr], m1, answer, LiveSize(t.blocks, answer));
      OthersKeep(s, t, m0, m1, c, answer);
    }
  }

  lemma TiledNow(s: State)
    requires Inv(s)
    ensures Tiled(s.blocks)
  {}

  lemma SameSize(m0: seq<byte>, m1: seq<byte>, before: set<Block>, after: set<Block>)
    requires PayloadsSame(m0, m1, before, after, 0)
    ensures |m0| == |m1|
  {}

  lemma NothingHolds(s: State, m0: seq<byte>, m1: seq<byte>, c: Contents)
    requires Inv(s) && Holds(s.blocks, m0, c) && PayloadsSame(m0, m1, Live(s.blocks), Live(s.blocks), 0)
    ensures Holds(s.blocks, m1, c)
  {
    hide Live, LiveSize, LiveIndex, KnownAt, PayloadsSame, Handles, Inv;
    TiledNow(s);
    NoNullHandle(s);
    OthersKeep(s, s, m0, m1, c, 0);
  }

  lemma AllocHolds(s: State, size: nat, m0: seq<byte>, m1: seq<byte>, c: Contents)
    requires Inv(s) && size <= MAX_REQUEST && Holds(s.blocks, m0, c) && |m0| == HEAP_VIRT_LIMIT
    requires PayloadsSame(m0, m1, Live(s.blocks), Live(Alloc(s, size).0.blocks), 0)
    ensures var (t, answer) := Alloc(s, size); Holds(t.blocks, m1, WithGrant(c, t.blocks, answer, []))
  {
    hide Live, LiveSize, LiveIndex, KnownAt, PayloadsSame, Handles, Inv, Alloc, Fitted, Holds;
    var (t, answer) := Alloc(s, size);
    SameSize(m0, m1, Live(s.blocks), Live(t.blocks));
    AllocKeepsInv(s, size);
    AllocHandles(s, size);
    if answer != 0 {
      InsideMemory(t, answer);
      UnknownFits(m1, answer, LiveSize(t.blocks, answer));
    }
    GrantHolds(s, size, m0, m1, c, []);
  }

  lemma CallocHolds(s: State, count: nat, size: nat, m0: seq<byte>, m1: seq<byte>, c: Contents)
    requires Inv(s) && Bounded(Kcalloc(count, size)) && Holds(s.blocks, m0, c) && |m0| == HEAP_VIRT_LIMIT
    requires Effect(s, Kcalloc(count, size), m0, m1)
    ensures Holds(Step(s, Kcalloc(count, size)).0.blocks, m1, AfterRequest(s, c, Kcalloc(count, size)))
  {
    hide Live, LiveSize, LiveIndex, KnownAt, PayloadsSame, Handles, Inv, Alloc, Fitted, Holds, Zeros, Zeroes;
    var (t, answer) := Calloc(s, count, size);
    SameSize(m0, m1, Live(s.blocks), Live(t.blocks));
    if count * size == 0 || count * size >= TWO32 {
      NothingHolds(s, m0, m1, c);
    } else {
      var total: nat := count * size;
      AllocKeepsInv(s, total);
      AllocHandles(s, total);
      if answer != 0 {
        InsideMemory(t, answer);
        ZeroesFit(m1, answer, total, LiveSize(t.blocks, answer));
      }
      GrantHolds(s, total, m0, m1, c, Zeroes(total));
    }
  }

  /** Every request takes the map to what the memory then holds. */
  lemma RequestHolds(s: State, r: Request, m0: seq<byte>, m1: seq<byte>, c: Contents)
    requires Inv(s) && Bounded(r) && Holds(s.blocks, m0, c) && |m0| == HEAP_VIRT_LIMIT && Effect(s, r, m0, m1)
    ensures Holds(Step(s, r).0.blocks, m1, AfterRequest(s, c, r))
  {
    hide Live, LiveSize, LiveIndex, IsLive, PayloadsSame, Handles, Inv, Alloc, Free, Calloc;
    hide Copied, Zeros, Zeroes, Holds, Resize, WithGrant, Fitted;
    match r
    case Kmalloc(size) => AllocHolds(s, size, m0, m1, c);
    case Kcalloc(count, size) => CallocHolds(s, count, size, m0, m1, c);
    case Kfree(ptr) => ReleaseHolds(s, ptr, m0, m1, c);
    case Krealloc(ptr, size) =>
      if ptr == 0 {
        AllocHolds(s, size, m0, m1, c);
      } else if size == 0 {
        ReleaseHolds(s, ptr, m0, m1, c);
      } else if IsLive(s.blocks, ptr) {
        ResizeHolds(s, ptr, size, m0, m1, c);
      } else {
        NotLiveChangesNothing(s, ptr, size);
        NothingHolds(s, m0, m1, c);
      }
  }

  lemma NotLiveChangesNothing(s: State, ptr: nat, size: nat)
    requires ptr != 0 && 0 < size <= MAX_REQUEST && !IsLive(s.blocks, ptr)
    ensures Realloc(s, ptr, size) == (s, 0)
  {
    hide LiveIndex;
  }

  /**
   No request forgets: contents that it does not name stay as they are, `kcalloc` makes
   zeros known, and `krealloc` carries over what both blocks have room for.
   */
  lemma RequestRemembers(s: State, c: Contents, r: Request)
    requires Inv(s) && Bounded(r) && c.Keys == Handles(s.blocks)
    ensures var d := AfterRequest(s, c, r);
            var (t, answer) := Step(s, r);
            && (forall p :: p in c && !Names(r, p) ==> p in d && d[p] == c[p])
            && (r.Kcalloc? && answer != 0 ==>
                  answer in d && forall k :: 0 <= k < r.count * r.size && k < |d[answer]| ==> d[answer][k] == Known(0))
            && (r.Krealloc? && r.ptr in c && answer != 0 ==>
                  answer in d && forall k :: 0 <= k < |c[r.ptr]| && k < |d[answer]| ==> d[answer][k] == c[r.ptr][k])
            && (r.Krealloc? && r.ptr in c && answer == 0 && r.size != 0 ==> d == c)
  {
    hide Inv, Handles, Alloc, Free, Resize, LiveSize;
    StepKeepsHandles(s, r);
    NewAnswer(s, r);
    NoNullHandle(s);
  }

  /** A granted pointer is new, or the one that was resized. */
  lemma NewAnswer(s: State, r: Request)
    requires Inv(s) && Bounded(r)
    ensures var (t, answer) := Step(s, r); answer != 0 && answer in Handles(s.blocks) ==> r.Krealloc? && answer == r.ptr
  {
    hide Inv, Handles, Alloc, Free, LiveIndex, SplitAt, MergeNext;
    StepKeepsHandles(s, r);
    if r.Krealloc? {
      if r.ptr == 0 {
        AllocHandles(s, r.size);
      } else if r.size != 0 && IsLive(s.blocks, r.ptr) {
        AllocHandles(s, BlockSize(r.size));
      }
    }
  }

  /** A store makes one byte known. */
  lemma StoreHolds(bs: seq<Block>, m: seq<byte>, c: Contents, a: nat, v: byte)
    requires Holds(bs, m, c) && a < |m|
    ensures Holds(bs, m[a := v], AfterStore(c, a, v))
  {
    hide Handles, LiveSize;
    var d := AfterStore(c, a, v);
    forall p | p in d ensures KnownAt(m[a := v], p, d[p]) {
      assert KnownAt(m, p, c[p]);
      forall k | 0 <= k < |d[p]| && d[p][k].Known? ensures m[a := v][p + k] == d[p][k].v {
        if p + k != a { assert d[p][k] == c[p][k]; }
      }
    }
  }

  // ----- where a map comes from -----

  /** The `n` bytes at `p`, as far as the memory goes. */
  function KnownBytes(m: seq<byte>, p: nat, n: nat): seq<Content> {
    seq(n, k requires 0 <= k < n => if p + k < |m| then Known(m[p + k]) else Unknown)
  }

  /** Everything that the live payloads hold. */
  ghost function Snapshot(bs: seq<Block>, m: seq<byte>): Contents {
    map p | p in Handles(bs) :: KnownBytes(m, p, LiveSize(bs, p))
  }

  /** Every heap can be entered into the map, with every byte known. */
  lemma SnapshotHolds(s: State, m: seq<byte>)
    requires Inv(s) && |m| == HEAP_VIRT_LIMIT
    ensures var c := Snapshot(s.blocks, m);
            Holds(s.blocks, m, c) && forall p, k :: p in c && 0 <= k < |c[p]| ==> c[p][k].Known?
  {
    hide Inv, Handles, LiveSize;
    forall p | p in Handles(s.blocks) ensures p + LiveSize(s.blocks, p) <= |m| { InsideMemory(s, p); }
  }
}
