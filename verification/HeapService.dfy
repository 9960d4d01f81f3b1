/**
 Whole runs on the memory itself: the requests of the system call dispatcher, and
 between them the stores of the clients into their payloads.
 */
module HeapService {
  import opened Word32
  import opened HeapSpec
  import opened HeapContents
  import opened HeapLaws
  import opened HeapMemory
  import opened HeapPayloads
  import opened HeapRuns
  import Heap

  datatype Event = Ask(request: Request) | Store(a: nat, v: byte)

  ghost predicate AllBoundedEvents(es: seq<Event>) {
    forall e :: e in es && e.Ask? ==> Bounded(e.request)
  }

  /** The block list after an event, and the answer of a request; a store changes no block. */
  function Happen(s: State, e: Event): (State, nat)
    requires e.Ask? ==> Bounded(e.request)
  {
    if e.Ask? then Step(s, e.request) else (s, 0)
  }

  function RunAll(s: State, es: seq<Event>): State
    requires AllBoundedEvents(es)
    decreases |es|
  {
    if es == [] then s else RunAll(Happen(s, es[0]).0, es[1..])
  }

  function Answers(s: State, es: seq<Event>): seq<nat>
    requires AllBoundedEvents(es)
    decreases |es|
  {
    if es == [] then []
    else
      var (t, answer) := Happen(s, es[0]);
      [answer] + Answers(t, es[1..])
  }

  // ----- what clients may do -----

  /**
   The stale pointers that are sure after an event: a grant takes its pointer out, a
   free puts it in; stores, and the copy of a move, take out those whose headers they
   may have overwritten.
   */
  function StaleNext(s: State, stale: set<nat>, e: Event): set<nat>
    requires e.Ask? ==> Bounded(e.request)
  {
    match e
    case Store(a, _) => ClearOf(stale, a, a + 1)
    case Ask(Kmalloc(_)) => stale - {Happen(s, e).1}
    case Ask(Kcalloc(_, _)) => stale - {Happen(s, e).1}
    case Ask(Kfree(ptr)) => if IsLive(s.blocks, ptr) then stale + {ptr} else stale
    case Ask(Krealloc(ptr, size)) => AfterResize(s.blocks, stale, ptr, size, Happen(s, e).1)
  }

  function AfterResize(bs: seq<Block>, stale: set<nat>, ptr: nat, size: nat, answer: nat): set<nat> {
    if ptr == 0 then stale - {answer}
    else if !IsLive(bs, ptr) then stale
    else if size == 0 then stale + {ptr}
    else if answer == 0 || answer == ptr then stale
    else ClearOf(stale - {answer}, answer, answer + LiveSize(bs, ptr)) + {ptr}
  }

  /** The pointers whose headers lie clear of `[lo, hi)`. */
  function ClearOf(stale: set<nat>, lo: nat, hi: nat): set<nat> {
    set q | q in stale && HEADER_SIZE <= q && Clear(q - HEADER_SIZE, lo, hi)
  }

  /** Clients name only null, live and stale pointers, and store only into live payloads. */
  ghost predicate Allowed(s: State, stale: set<nat>, e: Event) {
    match e
    case Store(a, _) => InLivePayload(s.blocks, a)
    case Ask(r) => r.Kfree? || r.Krealloc? ==> r.ptr == 0 || IsLive(s.blocks, r.ptr) || r.ptr in stale
  }

  ghost predicate InLivePayload(bs: seq<Block>, a: nat) {
    exists j :: 0 <= j < |bs| && !bs[j].free && bs[j].Payload() <= a < bs[j].End()
  }

  ghost predicate Mannered(s: State, stale: set<nat>, es: seq<Event>)
    requires AllBoundedEvents(es)
    decreases |es|
  {
    es != [] ==>
      && Allowed(s, stale, es[0])
      && Mannered(Happen(s, es[0]).0, StaleNext(s, stale, es[0]), es[1..])
  }

  function StaleAfter(s: State, stale: set<nat>, es: seq<Event>): set<nat>
    requires AllBoundedEvents(es)
    decreases |es|
  {
    if es == [] then stale else StaleAfter(Happen(s, es[0]).0, StaleNext(s, stale, es[0]), es[1..])
  }

  // ----- what the memory holds -----

  /** The live blocks that no request of the run names. */
  ghost function Unnamed(bs: seq<Block>, es: seq<Event>): set<Block> {
    set b | b in Live(bs) && forall e :: e in es && e.Ask? ==> !Names(e.request, b.Payload())
  }

  /** The value last stored at `a`, or `was` if nothing has been. */
  function LastStored(was: byte, es: seq<Event>, a: nat): byte
    decreases |es|
  {
    if es == [] then was
    else LastStored(if es[0].Store? && es[0].a == a then es[0].v else was, es[1..], a)
  }

  /** The blocks hold, byte by byte, what their clients stored last. */
  ghost predicate Remembers(m0: seq<byte>, es: seq<Event>, m1: seq<byte>, u: set<Block>) {
    && |m0| == |m1|
    && forall b, a :: b in u && b.Payload() <= a < b.End() && a < |m1| ==> m1[a] == LastStored(m0[a], es, a)
  }

  /** The map of known contents after an event. */
  function ContentsNext(s: State, c: Contents, e: Event): Contents
    requires e.Ask? ==> Bounded(e.request)
  {
    match e
    case Ask(r) => AfterRequest(s, c, r)
    case Store(a, v) => AfterStore(c, a, v)
  }

  function ContentsAfter(s: State, c: Contents, es: seq<Event>): Contents
    requires AllBoundedEvents(es)
    decreases |es|
  {
    if es == [] then c else ContentsAfter(Happen(s, es[0]).0, ContentsNext(s, c, es[0]), es[1..])
  }

  /** What an event does to the memory. */
  ghost predicate EventEffect(s: State, e: Event, m0: seq<byte>, m1: seq<byte>)
    requires e.Ask? ==> Bounded(e.request)
  {
    match e
    case Ask(r) => Effect(s, r, m0, m1)
    case Store(a, v) => a < |m0| && m1 == m0[a := v]
  }

  lemma EventHolds(s: State, e: Event, m0: seq<byte>, m1: seq<byte>, c: Contents)
    requires Inv(s) && (e.Ask? ==> Bounded(e.request)) && |m0| == HEAP_VIRT_LIMIT
    requires Holds(s.blocks, m0, c) && EventEffect(s, e, m0, m1)
    ensures Holds(Happen(s, e).0.blocks, m1, ContentsNext(s, c, e))
  {
    hide Inv, Holds, Effect, Step, AfterRequest, AfterStore;
    match e
    case Ask(r) => RequestHolds(s, r, m0, m1, c);
    case Store(a, v) => StoreHolds(s.blocks, m0, c, a, v);
  }

  // ----- blocks that no request names -----

  /** A request that does not name a live block answers with another pointer. */
  lemma AnswerIsOther(s: State, r: Request, b: Block)
    requires Inv(s) && Bounded(r) && b in Live(s.blocks) && !Names(r, b.Payload())
    ensures Step(s, r).1 != b.Payload()
  {
    hide Tiled, Alloc, Free, Realloc, LiveIndex, Live;
    var p := b.Payload();
    match r
    case Kmalloc(size) => AllocIsOther(s, size, b);
    case Kcalloc(count, size) => if count * size <= MAX_REQUEST { AllocIsOther(s, count * size, b); }
    case Kfree(_) =>
    case Krealloc(ptr, size) => ReallocIsOther(s, ptr, size, b);
  }

  lemma AllocIsOther(s: State, size: nat, b: Block)
    requires Inv(s) && size <= MAX_REQUEST && b in Live(s.blocks)
    ensures Alloc(s, size).1 != b.Payload()
  {
    hide Tiled, Alloc, Live;
    if Alloc(s, size).1 != 0 { AllocFresh(s, size); }
  }

  lemma ReallocIsOther(s: State, ptr: nat, size: nat, b: Block)
    requires Inv(s) && size <= MAX_REQUEST && b in Live(s.blocks) && ptr != b.Payload()
    ensures Realloc(s, ptr, size).1 != b.Payload()
  {
    hide Tiled, Alloc, Free, Resize, LiveIndex;
    var (t, answer) := Realloc(s, ptr, size);
    if ptr == 0 {
      AllocIsOther(s, size, b);
    } else if size != 0 && IsLive(s.blocks, ptr) && answer != 0 {
      ReallocResizes(s, ptr, size);
      var after := t.blocks[LiveIndex(t.blocks, answer, 0)];
      assert after in Live(t.blocks) && b in Live(t.blocks);
      if answer == b.Payload() { UniqueLive(t.blocks, after, b); }
    }
  }

  /** Requests leave the contents of such a block alone; a store changes the byte it goes to. */
  lemma UnnamedContentsStep(s: State, c: Contents, e: Event, rest: seq<Event>, b: Block)
    requires Inv(s) && (e.Ask? ==> Bounded(e.request)) && b in Unnamed(s.blocks, [e] + rest) && b.Payload() in c
    ensures var p := b.Payload();
            var d := ContentsNext(s, c, e);
            && p in d && |d[p]| == |c[p]|
            && forall k :: 0 <= k < |c[p]| ==> d[p][k] == if e.Store? && e.a == p + k then Known(e.v) else c[p][k]
  {
    hide Inv, Step, Live, LiveSize, Fitted;
    assert e in [e] + rest;
    UnnamedIsLive(s.blocks, [e] + rest);
    if e.Ask? { AnswerIsOther(s, e.request, b); }
  }

  /** Over a run, what was known of such a block becomes what was stored there last. */
  lemma {:induction false} UnnamedContents(s: State, c: Contents, es: seq<Event>, b: Block, k: nat, was: byte)
    requires Inv(s) && AllBoundedEvents(es) && b in Unnamed(s.blocks, es)
    requires b.Payload() in c && k < |c[b.Payload()]| && c[b.Payload()][k] == Known(was)
    ensures var d := ContentsAfter(s, c, es);
            var p := b.Payload();
            p in d && k < |d[p]| && d[p][k] == Known(LastStored(was, es, p + k))
    decreases |es|
  {
    hide Inv, Happen, ContentsNext, Unnamed;
    if es != [] {
      var e, rest := es[0], es[1..];
      assert es == [e] + rest;
      var now := if e.Store? && e.a == b.Payload() + k then e.v else was;
      UnnamedContentsStep(s, c, e, rest, b);
      EventKeepsInv(s, e);
      UnnamedStays(s, e, rest, {b});
      UnnamedContents(Happen(s, e).0, ContentsNext(s, c, e), rest, b, k, now);
    }
  }

  lemma EventKeepsInv(s: State, e: Event)
    requires Inv(s) && (e.Ask? ==> Bounded(e.request))
    ensures Inv(Happen(s, e).0) && s.mapped <= Happen(s, e).0.mapped
  {
    hide Inv, Step;
    if e.Ask? { StepKeepsInv(s, e.request); }
  }

  /** With every byte known at the start, the map at the end says what such a block holds. */
  lemma Remembered(s: State, m0: seq<byte>, es: seq<Event>, t: State, m1: seq<byte>)
    requires Inv(s) && AllBoundedEvents(es) && |m0| == HEAP_VIRT_LIMIT && |m1| == |m0|
    requires Holds(t.blocks, m1, ContentsAfter(s, Snapshot(s.blocks, m0), es))
    ensures Remembers(m0, es, m1, Unnamed(s.blocks, es))
  {
    hide Inv, Unnamed, ContentsAfter, AllBoundedEvents, Live, Handles, LiveSize;
    var c := Snapshot(s.blocks, m0);
    var d := ContentsAfter(s, c, es);
    forall b, a | b in Unnamed(s.blocks, es) && b.Payload() <= a < b.End() && a < |m1|
      ensures m1[a] == LastStored(m0[a], es, a)
    {
      UnnamedIsLive(s.blocks, es);
      TiledNow(s);
      HandleOfBlock(s.blocks, b);
      var p, k := b.Payload(), a - b.Payload();
      UnnamedContents(s, c, es, b, k, m0[a]);
      assert KnownAt(m1, p, d[p]);
    }
  }

  lemma UnnamedStays(s: State, e: Event, rest: seq<Event>, u: set<Block>)
    requires Inv(s) && (e.Ask? ==> Bounded(e.request)) && u <= Unnamed(s.blocks, [e] + rest)
    ensures u <= Unnamed(Happen(s, e).0.blocks, rest)
  {
    hide Inv, Step, Live, Names;
    forall b | b in u ensures b in Unnamed(Happen(s, e).0.blocks, rest) {
      assert e in [e] + rest;
      if e.Ask? { StepKeepsUnnamed(s, e.request, b); }
      assert forall q :: q in rest ==> q in [e] + rest;
    }
  }

  lemma UnnamedIsLive(bs: seq<Block>, es: seq<Event>)
    ensures Unnamed(bs, es) <= Live(bs)
  {}

  // ----- stale pointers -----

  ghost predicate AllStale(heap: Heap.Heap, stale: set<nat>)
    reads heap, heap.ram.mem
  {
    forall q :: q in stale ==> heap.Stale(q)
  }

  twostate lemma AllStaleStays(new heap: Heap.Heap, new stale: set<nat>, new ptr: nat)
    requires allocated(heap) && old(allocated(heap) && allocated(heap.ram) && allocated(heap.ram.mem))
    requires old(AllStale(heap, stale)) && heap.heapStart == old(heap.heapStart) &&
            old(heap.mappedEnd) <= heap.mappedEnd
    requires NoneRevived(old(heap.ram.mem[..]), heap.ram.mem[..], Granted(ptr))
    ensures AllStale(heap, stale - {ptr}) && (ptr == 0 ==> AllStale(heap, stale))
  {
    hide Heap.Heap.Stale, NoneRevived;
    forall q | q in stale && (ptr == 0 || q != ptr) ensures heap.Stale(q) {
      heap.StaleStays(q, Granted(ptr));
    }
  }

  twostate lemma AllStaleStaysOutside(new heap: Heap.Heap, new stale: set<nat>, new ptr: nat, new lo: nat, new hi: nat)
    requires allocated(heap) && old(allocated(heap) && allocated(heap.ram) && allocated(heap.ram.mem))
    requires old(AllStale(heap, stale)) && heap.heapStart == old(heap.heapStart) &&
            old(heap.mappedEnd) <= heap.mappedEnd
    requires NoneRevivedOutside(old(heap.ram.mem[..]), heap.ram.mem[..], Granted(ptr), lo, hi)
    ensures AllStale(heap, ClearOf(if ptr == 0 then stale else stale - {ptr}, lo, hi))
  {
    hide Heap.Heap.Stale, NoneRevivedOutside, Clear;
    forall q | q in ClearOf(if ptr == 0 then stale else stale - {ptr}, lo, hi) ensures heap.Stale(q) {
      heap.StaleStaysOutside(q, Granted(ptr), lo, hi);
    }
  }

  lemma PassableNow(heap: Heap.Heap, ptr: nat)
    requires heap.Valid() && (ptr == 0 || IsLive(heap.blocks, ptr))
    ensures heap.Passable(ptr)
  {}

  lemma PassableOnce(heap: Heap.Heap, ptr: nat, stale: set<nat>)
    requires heap.Valid() && AllStale(heap, stale) && (ptr == 0 || IsLive(heap.blocks, ptr) || ptr in stale)
    ensures heap.Passable(ptr)
  {
    hide Heap.Heap.Stale;
    heap.StaleIsInert(ptr);
    if ptr == 0 || IsLive(heap.blocks, ptr) { PassableNow(heap, ptr); }
  }

  lemma OneMoreStale(heap: Heap.Heap, stale: set<nat>, ptr: nat)
    requires heap.Valid() && AllStale(heap, stale) && heap.Inert(ptr)
    requires heap.InHeap(ptr) && heap.heapStart + HEADER_SIZE <= ptr && ptr % ALLOC_ALIGN == 0
    ensures AllStale(heap, stale + {ptr})
  {
    hide Heap.Heap.Valid, Heap.Heap.Stale, Heap.Heap.Inert;
    heap.StaleIsInert(ptr);
  }

  // ----- one event -----

  method ServeGrant(heap: Heap.Heap, r: Request, ghost stale: set<nat>) returns (answer: nat)
    requires heap.Valid() && Bounded(r) && (r.Kmalloc? || r.Kcalloc?) && AllStale(heap, stale)
    modifies heap, heap.ram.mem, heap.pt.directory, heap.pt.pool, heap.pt.used
    ensures heap.Valid() && (heap.View(), answer) == Step(old(heap.View()), r)
    ensures AllStale(heap, stale - {answer})
    ensures r.Kcalloc? && answer != 0 ==> Zeros(heap.ram.mem[..], answer, r.count * r.size)
    ensures heap.PayloadsKept() && heap.heapStart == old(heap.heapStart) && heap.OutsideKept()
  {
    hide Heap.Heap.Valid, Heap.Heap.PayloadsKept, Heap.Heap.OutsideKept, AllStale, NoneRevived, Alloc, Calloc, Inv;
    ghost var s := heap.View();
    heap.ShapeNow();
    StepKeepsInv(s, r);
    if r.Kmalloc? {
      answer := heap.Kmalloc(r.size);
    } else {
      answer := heap.Kcalloc(r.count, r.size);
    }
    AllStaleStays(heap, stale, answer);
  }

  method ServeRelease(heap: Heap.Heap, ptr: nat, ghost stale: set<nat>)
    requires heap.Valid() && AllStale(heap, stale) && (ptr == 0 || IsLive(heap.blocks, ptr) || ptr in stale)
    modifies heap, heap.ram.mem
    ensures heap.Valid() && heap.View() == Free(old(heap.View()), ptr)
    ensures AllStale(heap, if IsLive(old(heap.blocks), ptr) then stale + {ptr} else stale)
    ensures heap.PayloadsKept() && heap.heapStart == old(heap.heapStart) && heap.OutsideKept()
  {
    hide Heap.Heap.Valid, Heap.Heap.Passable, Heap.Heap.PayloadsKept, Heap.Heap.OutsideKept, AllStale, NoneRevived;
    hide Release, LiveIndex, IsLive;
    PassableOnce(heap, ptr, stale);
    ghost var live := IsLive(heap.blocks, ptr);
    if live { heap.LiveInHeap(ptr); }
    heap.Kfree(ptr);
    AllStaleStays(heap, stale, 0);
    if live { OneMoreStale(heap, stale, ptr); }
  }

  /** A pointer that is not live, and a size of 0, are answered with null. */
  lemma NullAnswer(s: State, ptr: nat, size: nat)
    requires size <= MAX_REQUEST && ptr != 0 && (size == 0 || !IsLive(s.blocks, ptr))
    ensures Realloc(s, ptr, size).1 == 0
  {
    hide LiveIndex;
  }

  /** The bytes carried over are those common to both payloads. */
  twostate lemma MovedCommon(new heap: Heap.Heap, new ptr: nat, new answer: nat)
    requires allocated(heap) && old(allocated(heap) && allocated(heap.ram) && allocated(heap.ram.mem))
    requires IsLive(old(heap.blocks), ptr) && IsLive(heap.blocks, answer) && heap.ContentMoved(ptr, answer)
    ensures Copied(old(heap.ram.mem[..]), ptr, heap.ram.mem[..], answer,
                   Common(old(heap.blocks), ptr, heap.blocks, answer))
  {
    hide LiveIndex, Copied;
  }

  method ServeResize(heap: Heap.Heap, ptr: nat, size: nat, ghost stale: set<nat>) returns (answer: nat)
    requires heap.Valid() && size <= MAX_REQUEST && AllStale(heap, stale)
    requires ptr == 0 || IsLive(heap.blocks, ptr) || ptr in stale
    modifies heap, heap.ram.mem, heap.pt.directory, heap.pt.pool, heap.pt.used
    ensures heap.Valid() && (heap.View(), answer) == Realloc(old(heap.View()), ptr, size)
    ensures AllStale(heap, AfterResize(old(heap.blocks), stale, ptr, size, answer))
    ensures ptr != 0 && answer != 0 ==>
              Copied(old(heap.ram.mem[..]), ptr, heap.ram.mem[..], answer,
                     Common(old(heap.blocks), ptr, heap.blocks, answer))
    ensures heap.PayloadsKept() && heap.heapStart == old(heap.heapStart) && heap.OutsideKept()
  {
    hide Heap.Heap.Valid, Heap.Heap.Passable, Heap.Heap.PayloadsKept, Heap.Heap.OutsideKept, Heap.Heap.ContentMoved;
    hide AllStale, Heap.Heap.Inert, NoneRevived, NoneRevivedOutside, Realloc, Inv, IsLive, LiveSize, ClearOf;
    ghost var s := heap.View();
    heap.ShapeNow();
    ReallocKeepsInv(s, ptr, size);
    if ptr != 0 && (size == 0 || !IsLive(s.blocks, ptr)) { NullAnswer(s, ptr, size); }
    PassableOnce(heap, ptr, stale);
    ghost var live := IsLive(heap.blocks, ptr);
    if live { heap.LiveInHeap(ptr); }
    answer := heap.Krealloc(ptr, size);
    if ptr != 0 && answer != 0 { MovedCommon(heap, ptr, answer); }
    if ptr == 0 {
      AllStaleStays(heap, stale, answer);
    } else if answer == 0 || answer == ptr {
      AllStaleStays(heap, stale, 0);
      if live && size == 0 { OneMoreStale(heap, stale, ptr); }
    } else {
      ghost var hi := answer + LiveSize(s.blocks, ptr);
      AllStaleStaysOutside(heap, stale, answer, answer, hi);
      OneMoreStale(heap, ClearOf(stale - {answer}, answer, hi), ptr);
    }
  }

  /** The heap cases of the dispatcher. */
  method Serve(heap: Heap.Heap, r: Request, ghost stale: set<nat>) returns (answer: nat)
    requires heap.Valid() && Bounded(r) && AllStale(heap, stale) && Allowed(heap.View(), stale, Ask(r))
    modifies heap, heap.ram.mem, heap.pt.directory, heap.pt.pool, heap.pt.used
    ensures heap.Valid() && (heap.View(), answer) == Step(old(heap.View()), r)
    ensures AllStale(heap, StaleNext(old(heap.View()), stale, Ask(r)))
    ensures Effect(old(heap.View()), r, old(heap.ram.mem[..]), heap.ram.mem[..])
    ensures heap.PayloadsKept() && heap.heapStart == old(heap.heapStart) && heap.OutsideKept()
  {
    hide Heap.Heap.Valid, Heap.Heap.OutsideKept, PayloadsSame, Copied, Zeros, Common, AllStale;
    hide Alloc, Calloc, Free, Realloc, IsLive, Live;
    match r
    case Kmalloc(_) => answer := ServeGrant(heap, r, stale);
    case Kcalloc(_, _) => answer := ServeGrant(heap, r, stale);
    case Kfree(ptr) =>
      ServeRelease(heap, ptr, stale);
      answer := 0;
    case Krealloc(ptr, size) => answer := ServeResize(heap, ptr, size, stale);
  }

  /** A client's store. */
  method Poke(heap: Heap.Heap, a: nat, v: byte, ghost stale: set<nat>)
    requires heap.Valid() && AllStale(heap, stale) && InLivePayload(heap.blocks, a)
    modifies heap.ram.mem
    ensures heap.Valid() && heap.View() == old(heap.View())
    ensures AllStale(heap, ClearOf(stale, a, a + 1))
    ensures a < heap.ram.mem.Length && heap.ram.mem[..] == old(heap.ram.mem[..])[a := v]
    ensures heap.heapStart == old(heap.heapStart) && heap.OutsideKept()
  {
    hide Heap.Heap.Valid, Heap.Heap.OutsideKept, AllStale, NoneRevivedOutside, ClearOf;
    ghost var j :| 0 <= j < |heap.blocks| && !heap.blocks[j].free &&
        heap.blocks[j].Payload() <= a < heap.blocks[j].End();
    heap.PokePayload(a, v, j);
    AllStaleStaysOutside(heap, stale, 0, a, a + 1);
  }

  // ----- runs -----

  /** The rest of a run, from the state now, leads where the whole run leads from its start. */
  ghost predicate OnCourse(s: State, stale0: set<nat>, es: seq<Event>,
                           now: State, stale: set<nat>, rest: seq<Event>, answers: seq<nat>)
  {
    && AllBoundedEvents(es) && AllBoundedEvents(rest) && Mannered(now, stale, rest)
    && RunAll(now, rest) == RunAll(s, es)
    && answers + Answers(now, rest) == Answers(s, es)
    && StaleAfter(now, stale, rest) == StaleAfter(s, stale0, es)
  }

  lemma CourseStep(s: State, stale0: set<nat>, es: seq<Event>, now: State, stale: set<nat>, k: nat, answers: seq<nat>)
    requires k < |es| && OnCourse(s, stale0, es, now, stale, es[k..], answers)
    ensures es[k..] == [es[k]] + es[k + 1..] && (es[k].Ask? ==> Bounded(es[k].request)) && Allowed(now, stale, es[k])
    ensures var (t, answer) := Happen(now, es[k]);
            OnCourse(s, stale0, es, t, StaleNext(now, stale, es[k]), es[k + 1..], answers + [answer])
  {
    hide Happen, StaleNext, Allowed;
    assert es[k..][0] == es[k] && es[k..][1..] == es[k + 1..];
    var (t, answer) := Happen(now, es[k]);
    assert answers + ([answer] + Answers(t, es[k + 1..])) == answers + [answer] + Answers(t, es[k + 1..]);
  }

  lemma CourseEnds(s: State, stale0: set<nat>, es: seq<Event>, now: State, stale: set<nat>, answers: seq<nat>)
    requires OnCourse(s, stale0, es, now, stale, [], answers)
    ensures now == RunAll(s, es) && answers == Answers(s, es) && stale == StaleAfter(s, stale0, es)
  {
    assert answers + [] == answers;
  }

  /** The memory holds a map that the rest of the run takes where the whole run takes the first one. */
  ghost predicate Charted(s: State, c0: Contents, es: seq<Event>,
                          now: State, m: seq<byte>, c: Contents, rest: seq<Event>)
    requires AllBoundedEvents(es) && AllBoundedEvents(rest)
  {
    Holds(now.blocks, m, c) && ContentsAfter(now, c, rest) == ContentsAfter(s, c0, es)
  }

  lemma ChartStep(s: State, c0: Contents, es: seq<Event>,
                  now: State, m0: seq<byte>, c: Contents, k: nat, m1: seq<byte>)
    requires k < |es| && AllBoundedEvents(es) && AllBoundedEvents(es[k..]) && AllBoundedEvents(es[k + 1..])
    requires Charted(s, c0, es, now, m0, c, es[k..]) && Inv(now) && |m0| == HEAP_VIRT_LIMIT
    requires (es[k].Ask? ==> Bounded(es[k].request)) && EventEffect(now, es[k], m0, m1)
    ensures Charted(s, c0, es, Happen(now, es[k]).0, m1, ContentsNext(now, c, es[k]), es[k + 1..])
  {
    hide Happen, ContentsNext, Inv, Holds, EventEffect;
    assert es[k..][0] == es[k] && es[k..][1..] == es[k + 1..];
    EventHolds(now, es[k], m0, m1, c);
  }

  lemma CourseBounded(s: State, stale0: set<nat>, es: seq<Event>, now: State, stale: set<nat>, rest: seq<Event>,
                      answers: seq<nat>)
    requires OnCourse(s, stale0, es, now, stale, rest, answers)
    ensures AllBoundedEvents(es) && AllBoundedEvents(rest)
  {}

  /** One event of a run on the memory. */
  method ServeEvent(heap: Heap.Heap, e: Event, ghost stale: set<nat>) returns (answer: nat)
    requires heap.Valid() && (e.Ask? ==> Bounded(e.request)) && AllStale(heap, stale) && Allowed(heap.View(), stale, e)
    modifies heap, heap.ram.mem, heap.pt.directory, heap.pt.pool, heap.pt.used
    ensures heap.Valid() && (heap.View(), answer) == Happen(old(heap.View()), e)
    ensures AllStale(heap, StaleNext(old(heap.View()), stale, e))
    ensures EventEffect(old(heap.View()), e, old(heap.ram.mem[..]), heap.ram.mem[..])
    ensures heap.heapStart == old(heap.heapStart) && heap.OutsideKept()
  {
    hide Heap.Heap.Valid, Heap.Heap.OutsideKept, AllStale, Allowed, Step, Effect;
    match e
    case Ask(r) =>
      answer := Serve(heap, r, stale);
    case Store(a, v) =>
      StoreAllowed(heap.View(), stale, a, v);
      Poke(heap, a, v, stale);
      answer := 0;
  }

  lemma StoreAllowed(s: State, stale: set<nat>, a: nat, v: byte)
    requires Allowed(s, stale, Store(a, v))
    ensures InLivePayload(s.blocks, a)
  {}

  /**
   Any run of requests and stores in which clients name only null, live pointers and
   pointers known to be stale, and store only into live payloads, from any heap with
   any known contents: blocks and answers are those of the block list, where naming a
   pointer that is not live changes nothing; the memory holds what the map of contents
   says, so that every block no request names is still live and holds, byte by byte,
   what was stored there last; nothing outside the heap has changed; and the pointers
   of `StaleAfter` are stale.
   */
  method ServeRun(heap: Heap.Heap, es: seq<Event>, ghost stale0: set<nat>, ghost c0: Contents)
    returns (answers: seq<nat>, ghost stale: set<nat>)
    requires heap.Valid() && AllBoundedEvents(es) && AllStale(heap, stale0) && Mannered(heap.View(), stale0, es)
    requires Holds(heap.blocks, heap.ram.mem[..], c0)
    modifies heap, heap.ram.mem, heap.pt.directory, heap.pt.pool, heap.pt.used
    ensures heap.Valid() && heap.View() == RunAll(old(heap.View()), es) && answers == Answers(old(heap.View()), es)
    ensures Holds(heap.blocks, heap.ram.mem[..], ContentsAfter(old(heap.View()), c0, es))
    ensures var u := Unnamed(old(heap.blocks), es);
            u <= Live(heap.blocks) && Remembers(old(heap.ram.mem[..]), es, heap.ram.mem[..], u)
    ensures heap.heapStart == old(heap.heapStart) && heap.OutsideKept()
    ensures stale == StaleAfter(old(heap.View()), stale0, es) && AllStale(heap, stale)
  {
    hide Heap.Heap.Valid, AllStale, Allowed, Happen, StaleNext, Unnamed, Remembers, KeptOutside, AllBoundedEvents;
    hide Inv, Holds, ContentsNext, ContentsAfter, EventEffect, Snapshot, OnCourse, Charted, Live;
    hide RunAll, Answers, StaleAfter, Mannered;
    ghost var s := heap.View();
    ghost var m := heap.ram.mem[..];
    ghost var u := Unnamed(heap.blocks, es);
    assert es[0..] == es && es[|es|..] == [];
    heap.ShapeNow();
    answers, stale := [], stale0;
    ghost var c, d := c0, Snapshot(heap.blocks, m);
    RunStarts(s, stale0, es, m, c0);
    NothingChanged(m, {}, heap.heapStart, heap.mappedEnd);
    for k := 0 to |es|
      invariant heap.Valid() && AllStale(heap, stale) && AllBoundedEvents(es[k..])
      invariant OnCourse(s, stale0, es, heap.View(), stale, es[k..], answers)
      invariant Charted(s, c0, es, heap.View(), heap.ram.mem[..], c, es[k..])
      invariant Charted(s, Snapshot(s.blocks, m), es, heap.View(), heap.ram.mem[..], d, es[k..])
      invariant u <= Unnamed(heap.blocks, es[k..])
      invariant heap.heapStart == old(heap.heapStart)
      invariant KeptOutside(m, heap.ram.mem[..], heap.heapStart, heap.mappedEnd)
    {
      ghost var now := heap.View();
      ghost var m1 := heap.ram.mem[..];
      heap.ShapeNow();
      CourseStep(s, stale0, es, now, stale, k, answers);
      UnnamedStays(now, es[k], es[k + 1..], u);
      EventKeepsInv(now, es[k]);
      var answer := ServeEvent(heap, es[k], stale);
      ghost var stale1 := StaleNext(now, stale, es[k]);
      CourseBounded(s, stale0, es, heap.View(), stale1, es[k + 1..], answers + [answer]);
      ChartStep(s, c0, es, now, m1, c, k, heap.ram.mem[..]);
      ChartStep(s, Snapshot(s.blocks, m), es, now, m1, d, k, heap.ram.mem[..]);
      KeptOutsideMore(m, m1, heap.heapStart, now.mapped, heap.mappedEnd);
      KeptOutsideTwice(m, m1, heap.ram.mem[..], heap.heapStart, heap.mappedEnd);
      c, d := ContentsNext(now, c, es[k]), ContentsNext(now, d, es[k]);
      stale := stale1;
      answers := answers + [answer];
    }
    UnnamedIsLive(heap.blocks, es[|es|..]);
    CourseEnds(s, stale0, es, heap.View(), stale, answers);
    ChartEnds(s, c0, es, heap.View(), heap.ram.mem[..], c);
    ChartEnds(s, Snapshot(s.blocks, m), es, heap.View(), heap.ram.mem[..], d);
    heap.ShapeNow();
    Remembered(s, m, es, heap.View(), heap.ram.mem[..]);
  }

  lemma RunStarts(s: State, stale0: set<nat>, es: seq<Event>, m: seq<byte>, c0: Contents)
    requires Inv(s) && AllBoundedEvents(es) && Mannered(s, stale0, es)
    requires Holds(s.blocks, m, c0) && |m| == HEAP_VIRT_LIMIT
    ensures OnCourse(s, stale0, es, s, stale0, es, [])
    ensures Charted(s, c0, es, s, m, c0, es)
    ensures var d := Snapshot(s.blocks, m); Charted(s, d, es, s, m, d, es)
  {
    hide Inv, Holds, Snapshot;
    SnapshotHolds(s, m);
    assert [] + Answers(s, es) == Answers(s, es);
  }

  lemma ChartEnds(s: State, c0: Contents, es: seq<Event>, now: State, m: seq<byte>, c: Contents)
    requires AllBoundedEvents(es) && Charted(s, c0, es, now, m, c, [])
    ensures Holds(now.blocks, m, ContentsAfter(s, c0, es))
  {
    hide Holds;
  }
}
