/** The task table and its stacks in the heap. */
module Tasking {
  import opened Word32
  import opened HeapSpec
  import opened HeapLaws
  import opened HeapMemory
  import opened HeapPayloads
  import opened Scheduling
  import Heap
  import Paging

  const MAX_TASKS: nat := 8
  const MIN_STACK_SIZE: nat := 1024
  const STACK_ALIGNMENT: nat := 16

  /** Above this size the rounding wraps to 0. */
  const LAST_STACK: nat := 0xFFFF_FFF0

  /** The bytes of the initial frame: three words for `iret`, eight for `popa`. */
  const FRAME_BYTES: nat := 44

  datatype Task = Task(id: nat, stack: nat, stackSize: nat, esp: nat, active: bool)

  /** The initial frame, from the stack pointer upwards: `popa` takes eight words, `iret` the rest. */
  ghost predicate InitialFrame(m: seq<byte>, esp: nat, entry: nat) {
    && esp + FRAME_BYTES <= |m|
    && (forall k :: 0 <= k < 8 ==> WordIn(m, esp + 4 * k) == 0)
    && WordIn(m, esp + 32) == entry
    && WordIn(m, esp + 36) == 0x0000_0008
    && WordIn(m, esp + 40) == 0x0000_0202
  }

  /** The registers of the processor. */
  datatype Cpu = Cpu(edi: nat, esi: nat, ebp: nat, ebx: nat, edx: nat, ecx: nat, eax: nat,
                     eip: nat, cs: nat, eflags: nat, esp: nat)

  /** What `popad` and `iretd` load from the stack; the saved stack pointer in between is skipped. */
  function Restored(m: seq<byte>, sp: nat): Cpu
    requires sp + FRAME_BYTES <= |m|
  {
    Cpu(WordIn(m, sp), WordIn(m, sp + 4), WordIn(m, sp + 8),
        WordIn(m, sp + 16), WordIn(m, sp + 20), WordIn(m, sp + 24), WordIn(m, sp + 28),
        WordIn(m, sp + 32), WordIn(m, sp + 36), WordIn(m, sp + 40), sp + FRAME_BYTES)
  }

  /** A task's first turn begins at its entry, in the kernel's segment, with interrupts on and clean registers. */
  lemma FirstTurnOf(m: seq<byte>, sp: nat, entry: nat)
    requires InitialFrame(m, sp, entry)
    ensures Restored(m, sp) == Cpu(0, 0, 0, 0, 0, 0, 0, entry, 0x08, 0x0202, sp + 44)
  {
    hide WordIn;
    assert WordIn(m, sp + 4 * 0) == 0 && WordIn(m, sp + 4 * 1) == 0 && WordIn(m, sp + 4 * 2) == 0;
    assert WordIn(m, sp + 4 * 4) == 0 && WordIn(m, sp + 4 * 5) == 0;
    assert WordIn(m, sp + 4 * 6) == 0 && WordIn(m, sp + 4 * 7) == 0;
  }

  /** A task that has not run: its initial frame lies in its stack. */
  ghost predicate FrameIn(m: seq<byte>, t: Task, entry: nat) {
    t.stack <= t.esp && t.esp + FRAME_BYTES <= t.stack + t.stackSize && InitialFrame(m, t.esp, entry)
  }

  ghost predicate FramesIn(m: seq<byte>, ts: seq<Task>, entries: seq<nat>) {
    |ts| == |entries| && forall i :: 0 <= i < |ts| ==> FrameIn(m, ts[i], entries[i])
  }

  /** A frame in a payload that is kept is kept. */
  lemma FrameKept(m0: seq<byte>, m1: seq<byte>, b: Block, before: set<Block>, after: set<Block>, t: Task, entry: nat)
    requires FrameIn(m0, t, entry) && PayloadsSame(m0, m1, before, after, 0) && b in before && b in after
    requires b.Payload() == t.stack && t.stackSize <= b.size
    ensures FrameIn(m1, t, entry)
  {
    hide WordIn;
    forall a | t.esp <= a < t.esp + FRAME_BYTES ensures m1[a] == m0[a] { assert b.Payload() != 0; }
    forall k | 0 <= k < 11 ensures WordIn(m1, t.esp + 4 * k) == WordIn(m0, t.esp + 4 * k) {
      SameWord(m0, m1, t.esp + 4 * k);
    }
    assert WordIn(m1, t.esp + 4 * 8) == WordIn(m0, t.esp + 4 * 8);
    assert WordIn(m1, t.esp + 4 * 9) == WordIn(m0, t.esp + 4 * 9);
    assert WordIn(m1, t.esp + 4 * 10) == WordIn(m0, t.esp + 4 * 10);
  }

  /** The frames of all tasks, across an allocation that keeps the payloads. */
  lemma FramesKept(s: State, size: nat, m0: seq<byte>, m1: seq<byte>, ts: seq<Task>, entries: seq<nat>)
    requires Inv(s) && size <= MAX_REQUEST && FramesIn(m0, ts, entries)
    requires PayloadsSame(m0, m1, Live(s.blocks), Live(Alloc(s, size).0.blocks), 0)
    requires forall i :: 0 <= i < |ts| ==>
               && IsLive(s.blocks, ts[i].stack)
               && ts[i].stackSize <= s.blocks[LiveIndex(s.blocks, ts[i].stack, 0)].size
    ensures FramesIn(m1, ts, entries)
  {
    hide Inv, Alloc, LiveIndex, PayloadsSame, FrameIn, Live;
    var after := Alloc(s, size).0.blocks;
    forall i | 0 <= i < |ts| ensures FrameIn(m1, ts[i], entries[i]) {
      var p := ts[i].stack;
      var b := s.blocks[LiveIndex(s.blocks, p, 0)];
      AllocKeepsHandle(s, size, p);
      LiveAt(s.blocks, LiveIndex(s.blocks, p, 0));
      LiveAt(after, LiveIndex(after, p, 0));
      FrameKept(m0, m1, b, Live(s.blocks), Live(after), ts[i], entries[i]);
    }
  }

  lemma LiveAt(bs: seq<Block>, i: nat)
    requires i < |bs| && !bs[i].free
    ensures bs[i] in Live(bs)
  {}

  lemma OneMoreFrame(m: seq<byte>, ts: seq<Task>, entries: seq<nat>, t: Task, entry: nat)
    requires FramesIn(m, ts, entries) && FrameIn(m, t, entry)
    ensures FramesIn(m, ts + [t], entries + [entry])
  {}

  /** The pushes of `task_create`. */
  method BuildFrame(ram: Memory, stackTop: nat, entry: nat, ghost bs: seq<Block>, ghost j: nat) returns (sp: nat)
    requires ram.Represents(bs) && j < |bs| && entry < TWO32
    requires bs[j].Payload() + FRAME_BYTES <= stackTop <= bs[j].End()
    modifies ram.mem
    ensures ram.Represents(bs) && sp == stackTop - FRAME_BYTES && stackTop <= ram.mem.Length
    ensures InitialFrame(ram.mem[..], sp, entry)
    ensures KeptOutside(old(ram.mem[..]), ram.mem[..], sp, stackTop)
  {
    hide Memory.Represents, Memory.Word, WordIn;
    sp := ram.PushWord(stackTop, 0x0000_0202, bs, j);
    sp := ram.PushWord(sp, 0x0000_0008, bs, j);
    sp := ram.PushWord(sp, entry, bs, j);
    sp := PushZeros(ram, sp, bs, j);
    forall k | 0 <= k < 11 ensures WordIn(ram.mem[..], sp + 4 * k) == ram.Word(sp + 4 * k) { WordIs(ram, sp + 4 * k); }
    assert WordIn(ram.mem[..], sp + 4 * 8) == entry;
    assert WordIn(ram.mem[..], sp + 4 * 9) == 0x0000_0008;
    assert WordIn(ram.mem[..], sp + 4 * 10) == 0x0000_0202;
  }

  lemma WordIs(ram: Memory, a: nat)
    requires a + 4 <= ram.mem.Length
    ensures ram.Word(a) == WordIn(ram.mem[..], a)
  {}

  /** The eight zero words of the `popa` image. */
  method PushZeros(ram: Memory, top: nat, ghost bs: seq<Block>, ghost j: nat) returns (sp: nat)
    requires ram.Represents(bs) && j < |bs| && bs[j].Payload() + 32 <= top <= bs[j].End()
    modifies ram.mem
    ensures ram.Represents(bs) && sp == top - 32 && top <= ram.mem.Length
    ensures forall k :: 0 <= k < 8 ==> ram.Word(sp + 4 * k) == 0
    ensures forall a: nat :: top <= a && a + 4 <= ram.mem.Length ==> ram.Word(a) == old(ram.Word(a))
    ensures forall a :: 0 <= a < ram.mem.Length && !(sp <= a < top) ==> ram.mem[a] == old(ram.mem[a])
  {
    hide Memory.Represents, Memory.Word;
    var middle := PushFourZeros(ram, top, bs, j);
    sp := PushFourZeros(ram, middle, bs, j);
    forall k | 0 <= k < 8 ensures ram.Word(sp + 4 * k) == 0 {
      if k >= 4 { assert ram.Word(middle + 4 * (k - 4)) == 0; }
    }
  }

  method PushFourZeros(ram: Memory, top: nat, ghost bs: seq<Block>, ghost j: nat) returns (sp: nat)
    requires ram.Represents(bs) && j < |bs| && bs[j].Payload() + 16 <= top <= bs[j].End()
    modifies ram.mem
    ensures ram.Represents(bs) && sp == top - 16 && top <= ram.mem.Length
    ensures forall k :: 0 <= k < 4 ==> ram.Word(sp + 4 * k) == 0
    ensures forall a: nat :: top <= a && a + 4 <= ram.mem.Length ==> ram.Word(a) == old(ram.Word(a))
    ensures forall a :: 0 <= a < ram.mem.Length && !(sp <= a < top) ==> ram.mem[a] == old(ram.mem[a])
  {
    hide Memory.Represents, Memory.Word;
    sp := ram.PushWord(top, 0, bs, j);
    sp := ram.PushWord(sp, 0, bs, j);
    sp := ram.PushWord(sp, 0, bs, j);
    sp := ram.PushWord(sp, 0, bs, j);
  }

  /** `align_up(stack_size < MIN_STACK_SIZE ? MIN_STACK_SIZE : stack_size, STACK_ALIGNMENT)` */
  function StackBytes(stackSize: nat): (bytes: nat)
    requires stackSize < TWO32
    ensures bytes % STACK_ALIGNMENT == 0
    ensures if stackSize > LAST_STACK then bytes == 0
            else
              && stackSize <= bytes && MIN_STACK_SIZE <= bytes
              && (bytes == MIN_STACK_SIZE || bytes < stackSize + STACK_ALIGNMENT)
  {
    var wanted := if stackSize < MIN_STACK_SIZE then MIN_STACK_SIZE else stackSize;
    AlignUpExact(wanted, STACK_ALIGNMENT);
    AlignUp32(wanted, STACK_ALIGNMENT)
  }

  /** The stack pointer of a new task: a frame below the aligned top of its stack. */
  function InitialEsp(raw: nat, bytes: nat): (esp: nat)
    requires MIN_STACK_SIZE <= bytes
    ensures raw <= esp && (esp + FRAME_BYTES) % STACK_ALIGNMENT == 0
    ensures raw + bytes - STACK_ALIGNMENT < esp + FRAME_BYTES <= raw + bytes
  {
    AlignDownFacts(raw + bytes, STACK_ALIGNMENT);
    AlignDown(raw + bytes, STACK_ALIGNMENT) - FRAME_BYTES
  }

  /** Allocates a stack and builds the initial frame in it; no other payload is touched. */
  method NewStack(heap: Heap.Heap, bytes: nat, entry: nat) returns (raw: nat, esp: nat)
    requires heap.Valid() && (bytes == 0 || MIN_STACK_SIZE <= bytes <= MAX_REQUEST) && entry < TWO32
    modifies heap, heap.ram.mem, heap.pt.directory, heap.pt.pool, heap.pt.used
    ensures heap.Valid() && (heap.View(), raw) == Alloc(old(heap.View()), bytes)
    ensures heap.PayloadsKept() && heap.heapStart == old(heap.heapStart) && heap.OutsideKept()
    ensures raw != 0 ==>
              bytes != 0 && esp == InitialEsp(raw, bytes) && InitialFrame(heap.ram.mem[..], esp, entry)
  {
    hide Heap.Heap.Valid, Inv, Alloc, Live, LiveIndex, PayloadsSame, InitialEsp, InitialFrame;
    esp := 0;
    ghost var s := heap.View();
    ghost var m0 := heap.ram.mem[..];
    heap.ShapeNow();
    raw := heap.Kmalloc(bytes);
    if raw != 0 {
      AllocNull(s, bytes);
      AllocGrants(s, bytes);
      ghost var m1 := heap.ram.mem[..];
      esp := WriteFrame(heap, raw, bytes, entry);
      AllocThenWrite(s, bytes, m0, m1, heap.ram.mem[..]);
      KeptOutsideTwice(m0, m1, heap.ram.mem[..], heap.heapStart, heap.mappedEnd);
    }
  }

  method WriteFrame(heap: Heap.Heap, raw: nat, bytes: nat, entry: nat) returns (esp: nat)
    requires heap.Valid() && IsLive(heap.blocks, raw) && entry < TWO32
    requires MIN_STACK_SIZE <= bytes <= heap.blocks[LiveIndex(heap.blocks, raw, 0)].size
    modifies heap.ram.mem
    ensures heap.Valid() && heap.View() == old(heap.View())
    ensures heap.heapStart == old(heap.heapStart) && heap.OutsideKept()
    ensures esp == InitialEsp(raw, bytes) && InitialFrame(heap.ram.mem[..], esp, entry)
    ensures PayloadsSame(old(heap.ram.mem[..]), heap.ram.mem[..], Live(heap.blocks), Live(heap.blocks), raw)
  {
    hide Inv, Live, PayloadsSame, LiveIndex, Memory.HeaderAt, Memory.Represents, InitialFrame;
    hide Paging.PageTables.Valid, Paging.PageTables.KernelMapping;
    ghost var j := LiveIndex(heap.blocks, raw, 0);
    heap.ShapeNow();
    var stackTop := AlignDown(raw + bytes, STACK_ALIGNMENT);
    AlignDownFacts(raw + bytes, STACK_ALIGNMENT);
    esp := BuildFrame(heap.ram, stackTop, entry, heap.blocks, j);
    PayloadWriteKeeps(heap.blocks, j, old(heap.ram.mem[..]), heap.ram.mem[..],
                      esp, stackTop, heap.heapStart, heap.mappedEnd);
  }

  class TaskTable {
    const heap: Heap.Heap
    const tasks: array<Task>
    var taskCount: nat
    var currentTask: nat
    var schedulerStarted: bool
    var bootstrapSwitchPending: bool

    ghost predicate TableOk()
      reads this
    {
      && tasks.Length == MAX_TASKS && taskCount <= MAX_TASKS
      && (currentTask < taskCount || currentTask == taskCount == 0)
    }

    ghost function Esps(): (esps: seq<nat>)
      requires taskCount <= tasks.Length
      reads this`taskCount, tasks
      ensures |esps| == taskCount
    {
      seq(taskCount, i requires 0 <= i < tasks.Length reads tasks => tasks[i].esp)
    }

    ghost function Active(): (active: seq<bool>)
      requires taskCount <= tasks.Length
      reads this`taskCount, tasks
      ensures |active| == taskCount
    {
      seq(taskCount, i requires 0 <= i < tasks.Length reads tasks => tasks[i].active)
    }

    /** The state of the scheduler. */
    ghost function View(): (s: Sched)
      requires TableOk()
      reads this, tasks
      ensures WellFormed(s) && |s.esps| == taskCount
    {
      Sched(Esps(), Active(), currentTask, schedulerStarted, bootstrapSwitchPending)
    }

    /** Every task still has the initial frame of its entry in its stack. */
    ghost predicate FramesOk(entries: seq<nat>)
      requires TableOk()
      reads this, tasks, heap.ram.mem
    {
      FramesIn(heap.ram.mem[..], tasks[..taskCount], entries)
    }

    /** No task is ever switched off. */
    ghost predicate AllActive()
      requires TableOk()
      reads this, tasks
    {
      forall i :: 0 <= i < taskCount ==> tasks[i].active
    }

    /** Every task's stack is a live payload of the heap, large enough, and no two tasks share one. */
    ghost predicate StacksOk()
      requires TableOk()
      reads this, tasks, heap
    {
      && (forall i :: 0 <= i < taskCount ==>
            && IsLive(heap.blocks, tasks[i].stack)
            && tasks[i].stackSize <= heap.blocks[LiveIndex(heap.blocks, tasks[i].stack, 0)].size)
      && (forall i, j :: 0 <= i < j < taskCount ==> tasks[i].stack != tasks[j].stack)
    }

    constructor (heap: Heap.Heap)
      ensures TableOk() && this.heap == heap && View() == Sched([], [], 0, false, false) && StacksOk()
      ensures fresh(tasks)
    {
      this.heap := heap;
      tasks := new Task[MAX_TASKS](_ => Task(0, 0, 0, 0, false));
      taskCount := 0;
      currentTask := 0;
      schedulerStarted := false;
      bootstrapSwitchPending := false;
    }

    method TaskingInit()
      requires TableOk()
      modifies this, tasks
      ensures TableOk() && StacksOk() && AllActive() && View() == Sched([], [], 0, false, false)
      ensures forall i :: 0 <= i < MAX_TASKS ==> tasks[i] == Task(i, 0, 0, 0, false)
    {
      taskCount := 0;
      currentTask := 0;
      schedulerStarted := false;
      bootstrapSwitchPending := false;
      for i := 0 to MAX_TASKS
        invariant TableOk() && taskCount == 0 && currentTask == 0 && !schedulerStarted && !bootstrapSwitchPending
        invariant forall k :: 0 <= k < i ==> tasks[k] == Task(k, 0, 0, 0, false)
      {
        tasks[i] := Task(i, 0, 0, 0, false);
      }
    }

    method TaskingStart()
      requires TableOk()
      modifies this
      ensures TableOk() && View() == Start(old(View()))
      ensures old(AllActive()) && taskCount > 0 ==> JustStarted(View())
      ensures taskCount == 0 ==> View() == old(View())
      ensures forall entries :: old(FramesOk(entries)) ==> FramesOk(entries)
    {
      if taskCount == 0 {
        return;
      }
      schedulerStarted := true;
      currentTask := 0;
      bootstrapSwitchPending := true;
    }

    /** The tick handler: saves the stack pointer it is given and answers the one to switch to. */
    method TaskingSchedule(currentEsp: nat) returns (esp: nat)
      requires TableOk()
      modifies this`currentTask, this`bootstrapSwitchPending, tasks
      ensures TableOk() && (View(), esp) == Tick(old(View()), currentEsp)
      ensures forall i :: 0 <= i < MAX_TASKS ==> tasks[i] == old(tasks[i]).(esp := tasks[i].esp)
      ensures forall i :: 0 <= i < MAX_TASKS && i != old(currentTask) ==> tasks[i] == old(tasks[i])
      ensures !schedulerStarted || taskCount == 0 ==> esp == currentEsp && tasks[..] == old(tasks[..])
    {
      if !schedulerStarted || taskCount == 0 {
        return currentEsp;
      }
      if bootstrapSwitchPending {
        bootstrapSwitchPending := false;
        return tasks[currentTask].esp;
      }
      SaveEsp(currentEsp);
      var next := NextActive();
      if next == taskCount {
        return currentEsp;
      }
      currentTask := next;
      return tasks[next].esp;
    }

    /** The interrupted task's stack pointer goes into its slot. */
    method SaveEsp(currentEsp: nat)
      requires TableOk() && taskCount > 0
      modifies tasks
      ensures TableOk() && Esps() == old(Esps())[currentTask := currentEsp] && Active() == old(Active())
      ensures forall i :: 0 <= i < MAX_TASKS ==> tasks[i] == old(tasks[i]).(esp := tasks[i].esp)
      ensures forall i :: 0 <= i < MAX_TASKS && i != currentTask ==> tasks[i] == old(tasks[i])
    {
      tasks[currentTask] := tasks[currentTask].(esp := currentEsp);
      assert Esps() == old(Esps())[currentTask := currentEsp] && Active() == old(Active());
    }

    /** The search loop of the tick: the number of tasks stands for "none". */
    method NextActive() returns (next: nat)
      requires TableOk() && taskCount > 0
      ensures next == Search(View().active, currentTask, taskCount)
    {
      ghost var active := View().active;
      next := currentTask;
      for i := 0 to taskCount
        invariant next < taskCount
        invariant Search(active, currentTask, taskCount) == Search(active, next, (taskCount - i) as nat)
      {
        next := (next + 1) % taskCount;
        if tasks[next].active {
          return;
        }
      }
      next := taskCount;
    }

    /** A run of timer ticks before `tasking_start`: each goes back to where it came from, and no slot changes. */
    method RunTicksBeforeStart(es: seq<nat>) returns (resumed: seq<nat>)
      requires TableOk() && (!schedulerStarted || taskCount == 0)
      modifies this`currentTask, this`bootstrapSwitchPending, tasks
      ensures TableOk() && resumed == es && View() == old(View()) && tasks[..] == old(tasks[..])
    {
      hide Tick;
      ghost var s := View();
      resumed := [];
      for k := 0 to |es|
        invariant TableOk() && View() == s && tasks[..] == old(tasks[..]) && resumed == es[..k]
      {
        TicksBeforeStart(s, es, k);
        TickOfRun(s, es, k);
        var esp := TaskingSchedule(es[k]);
        resumed := resumed + [esp];
      }
    }

    /**
     A run of timer ticks on a table that has just been started: tick `k` is answered
     with the initial stack pointer of task `k` in the first round, and from then on
     with the stack pointer that the task gave up when it was last interrupted.
     */
    method RunTicks(es: seq<nat>) returns (resumed: seq<nat>)
      requires TableOk() && JustStarted(View())
      modifies this`currentTask, this`bootstrapSwitchPending, tasks
      ensures TableOk() && |resumed| == |es| && View() == AfterTicks(old(View()), es, |es|)
      ensures forall k :: 0 <= k < |es| ==> resumed[k] == Expected(old(View()), es, k)
      ensures forall k :: 0 <= k < |es| && k < taskCount ==> resumed[k] == old(tasks[k].esp)
      ensures es != [] ==> currentTask == (|es| - 1) % taskCount
    {
      hide Tick, Resumed, Expected, Rotated, RunningAt;
      ghost var s := View();
      resumed := [];
      for k := 0 to |es|
        invariant TableOk() && View() == AfterTicks(s, es, k) && |resumed| == k
        invariant forall i :: 0 <= i < k ==> resumed[i] == Expected(s, es, i)
        invariant k > 0 ==> currentTask == RunningAt(s, es, k - 1)
      {
        RoundRobin(s, es, k);
        var esp := TaskingSchedule(es[k]);
        TickOfRun(s, es, k);
        resumed := resumed + [esp];
      }
      if es != [] { RoundRobin(s, es, |es| - 1); }
      forall k | 0 <= k < |es| && k < taskCount ensures resumed[k] == old(tasks[k].esp) { FirstRound(s, es, k); }
    }

    // ----- task_create -----

    /** One more task: its stack is a fresh block, its initial frame lies inside, nothing else is touched. */
    method TaskCreate(entry: nat, stackSize: nat) returns (ok: bool)
      requires TableOk() && heap.Valid() && StacksOk() && entry < TWO32
      requires stackSize < TWO32 && StackBytes(stackSize) <= MAX_REQUEST
      modifies this`taskCount, tasks, heap, heap.ram.mem, heap.pt.directory, heap.pt.pool, heap.pt.used
      ensures TableOk() && heap.Valid() && StacksOk()
      ensures var (s, raw) := Alloc(old(heap.View()), StackBytes(stackSize));
              if entry == 0 || old(taskCount) == MAX_TASKS then
                !ok && heap.View() == old(heap.View())
              else
                && ok == (raw != 0) && heap.View() == s
                && (ok ==> stackSize <= LAST_STACK && tasks[old(taskCount)] ==
                           Task(old(taskCount), raw, StackBytes(stackSize),
                                InitialEsp(raw, StackBytes(stackSize)), true))
      ensures taskCount == old(taskCount) + (if ok then 1 else 0)
      ensures forall i :: 0 <= i < old(taskCount) ==> tasks[i] == old(tasks[i])
      ensures old(AllActive()) ==> AllActive()
      ensures ok ==> InitialFrame(heap.ram.mem[..], tasks[old(taskCount)].esp, entry)
      ensures forall entries :: old(FramesOk(entries)) ==> FramesOk(if ok then entries + [entry] else entries)
      ensures heap.PayloadsKept() && heap.heapStart == old(heap.heapStart) && heap.OutsideKept()
    {
      hide Heap.Heap.Valid, Inv, Alloc, Live, LiveIndex, PayloadsSame, InitialEsp, InitialFrame, StackBytes, FramesIn;
      if entry == 0 || taskCount >= MAX_TASKS {
        PayloadsSameReflexive(heap.ram.mem[..], Live(heap.blocks));
        return false;
      }
      ok := AddTask(entry, StackBytes(stackSize));
    }

    /** `task_create` once the request has been accepted. */
    method AddTask(entry: nat, bytes: nat) returns (ok: bool)
      requires TableOk() && heap.Valid() && StacksOk() && entry < TWO32 && taskCount < MAX_TASKS
      requires bytes == 0 || MIN_STACK_SIZE <= bytes <= MAX_REQUEST
      modifies this`taskCount, tasks, heap, heap.ram.mem, heap.pt.directory, heap.pt.pool, heap.pt.used
      ensures TableOk() && heap.Valid() && StacksOk()
      ensures var (s, raw) := Alloc(old(heap.View()), bytes);
              && ok == (raw != 0) && heap.View() == s
              && (ok ==> bytes != 0 &&
                         tasks[old(taskCount)] == Task(old(taskCount), raw, bytes, InitialEsp(raw, bytes), true))
      ensures taskCount == old(taskCount) + (if ok then 1 else 0)
      ensures forall i :: 0 <= i < old(taskCount) ==> tasks[i] == old(tasks[i])
      ensures ok ==> InitialFrame(heap.ram.mem[..], tasks[old(taskCount)].esp, entry)
      ensures forall entries :: old(FramesOk(entries)) ==> FramesOk(if ok then entries + [entry] else entries)
      ensures heap.PayloadsKept() && heap.heapStart == old(heap.heapStart) && heap.OutsideKept()
    {
      hide Heap.Heap.Valid, Inv, Alloc, Live, LiveIndex, IsLive, PayloadsSame, InitialEsp, InitialFrame, StacksOk;
      hide FramesIn, FrameIn;
      ghost var s := heap.View();
      ghost var m0 := heap.ram.mem[..];
      ghost var ts := tasks[..taskCount];
      StacksOfTable();
      heap.ShapeNow();
      var raw, esp := NewStack(heap, bytes, entry);
      StacksStay(s, bytes);
      ghost var m1 := heap.ram.mem[..];
      forall entries | FramesIn(m0, ts, entries) ensures FramesIn(m1, ts, entries) {
        FramesKept(s, bytes, m0, m1, ts, entries);
      }
      ok := raw != 0;
      if ok {
        AllocGrants(s, bytes);
        ghost var task := Task(taskCount, raw, bytes, esp, true);
        FrameInside(m1, task, entry);
        FillSlot(Task(taskCount, raw, bytes, esp, true));
        assert tasks[..taskCount] == ts + [task];
        forall entries | FramesIn(m0, ts, entries) ensures FramesIn(m1, ts + [task], entries + [entry]) {
          OneMoreFrame(m1, ts, entries, task, entry);
        }
      }
    }

    lemma StacksOfTable()
      requires TableOk() && StacksOk()
      ensures forall i :: 0 <= i < taskCount ==>
                && IsLive(heap.blocks, tasks[..taskCount][i].stack)
                && tasks[..taskCount][i].stackSize
                   <= heap.blocks[LiveIndex(heap.blocks, tasks[..taskCount][i].stack, 0)].size
    {
      hide LiveIndex;
    }

    static lemma FrameInside(m: seq<byte>, t: Task, entry: nat)
      requires MIN_STACK_SIZE <= t.stackSize && t.esp == InitialEsp(t.stack, t.stackSize)
      requires InitialFrame(m, t.esp, entry)
      ensures FrameIn(m, t, entry)
    {
      hide InitialFrame;
    }

    method FillSlot(task: Task)
      requires TableOk() && taskCount < MAX_TASKS && heap.Valid() && StacksOk()
      requires IsLive(heap.blocks, task.stack)
      requires task.stackSize <= heap.blocks[LiveIndex(heap.blocks, task.stack, 0)].size
      requires forall i :: 0 <= i < taskCount ==> tasks[i].stack != task.stack
      modifies this`taskCount, tasks
      ensures TableOk() && taskCount == old(taskCount) + 1 && heap.Valid() && StacksOk()
      ensures tasks[old(taskCount)] == task
      ensures forall i :: 0 <= i < old(taskCount) ==> tasks[i] == old(tasks[i])
      ensures heap.View() == old(heap.View())
    {
      hide Inv, LiveIndex, Memory.HeaderAt, Memory.Represents;
      hide Paging.PageTables.Valid, Paging.PageTables.KernelMapping;
      Separate();
      tasks[taskCount] := task;
      taskCount := taskCount + 1;
    }

    /** The table and the heap share no memory. */
    lemma Separate()
      ensures tasks as object !in {heap as object, heap.ram.mem as object, heap.pt as object,
                                   heap.pt.directory as object, heap.pt.pool as object, heap.pt.used as object}
      ensures this as object !in {heap as object, heap.ram.mem as object, heap.pt as object,
                                  heap.pt.directory as object, heap.pt.pool as object, heap.pt.used as object}
    {}

    /** The stacks of the table are still there after an allocation, and the new block is none of them. */
    twostate lemma StacksStay(new s: State, new size: nat)
      requires old(TableOk()) && old(StacksOk()) && TableOk() && taskCount == old(taskCount) &&
              tasks[..] == old(tasks[..])
      requires s.blocks == old(heap.blocks)
      requires Inv(s) && size <= MAX_REQUEST && heap.View() == Alloc(s, size).0
      ensures StacksOk()
      ensures Alloc(s, size).1 != 0 ==> forall i :: 0 <= i < taskCount ==> tasks[i].stack != Alloc(s, size).1
    {
      hide Inv, Alloc, LiveIndex;
      forall i | 0 <= i < taskCount ensures tasks[i] == old(tasks[i]) { assert tasks[..][i] == old(tasks[..])[i]; }
      forall i | 0 <= i < taskCount
        ensures IsLive(heap.blocks, tasks[i].stack)
        ensures tasks[i].stackSize <= heap.blocks[LiveIndex(heap.blocks, tasks[i].stack, 0)].size
        ensures Alloc(s, size).1 != 0 ==> tasks[i].stack != Alloc(s, size).1
      {
        AllocKeepsHandle(s, size, tasks[i].stack);
        if Alloc(s, size).1 != 0 { NewHandle(s, size, tasks[i].stack); }
      }
    }

    static lemma NewHandle(s: State, size: nat, ptr: nat)
      requires Inv(s) && size <= MAX_REQUEST && IsLive(s.blocks, ptr) && Alloc(s, size).1 != 0
      ensures Alloc(s, size).1 != ptr
    {
      hide Inv, Alloc;
      AllocFresh(s, size);
      assert s.blocks[LiveIndex(s.blocks, ptr, 0)] in Live(s.blocks);
    }
  }

  /** The stacks of two tasks never overlap. */
  lemma StacksApart(t: TaskTable, i: nat, j: nat)
    requires t.TableOk() && t.heap.Valid() && t.StacksOk() && i < t.taskCount && j < t.taskCount && i != j
    ensures var a, b := t.tasks[i], t.tasks[j];
            a.stack + a.stackSize <= b.stack || b.stack + b.stackSize <= a.stack
  {
    hide Heap.Heap.Valid, Inv, Tiled;
    t.heap.ShapeNow();
    var bs := t.heap.blocks;
    var b, c := bs[LiveIndex(bs, t.tasks[i].stack, 0)], bs[LiveIndex(bs, t.tasks[j].stack, 0)];
    assert t.tasks[i].stack != t.tasks[j].stack;
    Apart(bs, b, c);
  }
}
