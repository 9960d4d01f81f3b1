/** The tick of the round-robin scheduler as a state machine, and what whole runs of ticks do. */
module Scheduling {

  /** Saved stack pointers and activity of the tasks, and the registers of the scheduler. */
  datatype Sched = Sched(esps: seq<nat>, active: seq<bool>, current: nat, started: bool, pending: bool)

  ghost predicate WellFormed(s: Sched) {
    |s.active| == |s.esps| && (s.esps != [] ==> s.current < |s.esps|)
  }

  /** The next active task behind `from` in cyclic order, or the number of tasks when `left` tries fail. */
  function Search(active: seq<bool>, from: nat, left: nat): (next: nat)
    requires active != [] && from < |active|
    ensures next <= |active|
    ensures next < |active| ==> active[next]
    decreases left
  {
    if left == 0 then |active|
    else
      var candidate := (from + 1) % |active|;
      if active[candidate] then candidate else Search(active, candidate, left - 1)
  }

  /** `tasking_start` */
  function Start(s: Sched): Sched {
    if s.esps == [] then s else s.(started := true, current := 0, pending := true)
  }

  /** `tasking_schedule`: the new state and the stack pointer to switch to. */
  function Tick(s: Sched, esp: nat): (Sched, nat)
    requires WellFormed(s)
  {
    if !s.started || s.esps == [] then (s, esp)
    else if s.pending then (s.(pending := false), s.esps[s.current])
    else
      var saved := s.(esps := s.esps[s.current := esp]);
      var next := Search(s.active, s.current, |s.esps|);
      if next < |s.esps| then (saved.(current := next), saved.esps[next]) else (saved, esp)
  }

  /** The task `d` places behind `from`. */
  function Ahead(from: nat, d: nat, n: nat): (i: nat)
    requires n > 0
    ensures i < n
  {
    (from + d) % n
  }

  /** The first `d` places behind `from` hold no active task. */
  ghost predicate IdleFor(active: seq<bool>, from: nat, d: nat)
    requires active != []
  {
    forall e :: 0 < e <= d ==> !active[Ahead(from, e, |active|)]
  }

  /** The search finds the first active task behind `from`; it tries every task, `from` itself last. */
  lemma {:induction false} SearchIsCyclic(active: seq<bool>, from: nat, left: nat)
    requires active != [] && from < |active|
    ensures var next := Search(active, from, left);
            if next == |active| then IdleFor(active, from, left)
            else exists d :: 0 < d <= left && next == Ahead(from, d, |active|) && IdleFor(active, from, d - 1)
    decreases left
  {
    if left > 0 {
      var n := |active|;
      var candidate := Ahead(from, 1, n);
      if active[candidate] {
        assert IdleFor(active, from, 1 - 1);
      } else {
        SearchIsCyclic(active, candidate, left - 1);
        var next := Search(active, candidate, left - 1);
        hide Ahead, IdleFor;
        if next == n {
          IdleLonger(active, from, left - 1);
        } else {
          var d :| 0 < d <= left - 1 && next == Ahead(candidate, d, n) && IdleFor(active, candidate, d - 1);
          AheadTwice(from, d, n);
          IdleLonger(active, from, d - 1);
          assert 0 < d + 1 <= left && next == Ahead(from, d + 1, n) && IdleFor(active, from, d + 1 - 1);
        }
      }
    }
  }

  lemma AheadTwice(from: nat, d: nat, n: nat)
    requires n > 0
    ensures Ahead(Ahead(from, 1, n), d, n) == Ahead(from, d + 1, n)
  {
    ModStep(from + 1, d, n);
  }

  lemma IdleLonger(active: seq<bool>, from: nat, d: nat)
    requires active != [] && !active[Ahead(from, 1, |active|)] && IdleFor(active, Ahead(from, 1, |active|), d)
    ensures IdleFor(active, from, d + 1)
  {
    var n := |active|;
    forall e | 0 < e <= d + 1 ensures !active[Ahead(from, e, n)] {
      if e > 1 {
        AheadTwice(from, e - 1, n);
        assert !active[Ahead(Ahead(from, 1, n), e - 1, n)];
      }
    }
  }

  // ----- whole runs -----

  /** The state after the first `k` ticks. */
  function AfterTicks(s: Sched, es: seq<nat>, k: nat): (t: Sched)
    requires WellFormed(s) && k <= |es|
    ensures WellFormed(t) && |t.esps| == |s.esps| && t.active == s.active
  {
    if k == 0 then s else Tick(AfterTicks(s, es, k - 1), es[k - 1]).0
  }

  /** What tick `k` switches to. */
  function Resumed(s: Sched, es: seq<nat>, k: nat): nat
    requires WellFormed(s) && k < |es|
  {
    Tick(AfterTicks(s, es, k), es[k]).1
  }

  /** The task that runs after tick `k`. */
  function RunningAt(s: Sched, es: seq<nat>, k: nat): nat
    requires WellFormed(s) && k < |es|
  {
    AfterTicks(s, es, k + 1).current
  }

  lemma TickOfRun(s: Sched, es: seq<nat>, k: nat)
    requires WellFormed(s) && k < |es|
    ensures var t := AfterTicks(s, es, k);
            Tick(t, es[k]) == (AfterTicks(s, es, k + 1), Resumed(s, es, k))
    ensures RunningAt(s, es, k) == AfterTicks(s, es, k + 1).current
  {}

  /** Before `tasking_start`, or without a task, every tick goes back to where it came from. */
  lemma {:induction false} TicksBeforeStart(s: Sched, es: seq<nat>, k: nat)
    requires WellFormed(s) && (!s.started || s.esps == []) && k < |es|
    ensures AfterTicks(s, es, k) == s && AfterTicks(s, es, k + 1) == s && Resumed(s, es, k) == es[k]
  {
    if k > 0 { TicksBeforeStart(s, es, k - 1); }
  }

  // ----- any tasks, active or not -----

  /** The scheduler is past its bootstrap tick. */
  predicate Rotating(s: Sched) { s.esps != [] && s.started && !s.pending }

  /** One tick of a rotating scheduler writes the slot of the task it interrupts, and no other. */
  lemma RotatingTick(s: Sched, es: seq<nat>, k: nat)
    requires WellFormed(s) && k < |es| && Rotating(AfterTicks(s, es, k))
    ensures var t, u := AfterTicks(s, es, k), AfterTicks(s, es, k + 1);
            && Rotating(u) && u.esps == t.esps[t.current := es[k]]
            && Resumed(s, es, k) == u.esps[u.current]
  {}

  /** The next task is the nearest active one in cyclic order; if none is active, the interrupted one goes on. */
  lemma NextTurn(s: Sched, es: seq<nat>, k: nat)
    requires WellFormed(s) && k < |es| && Rotating(AfterTicks(s, es, k))
    ensures var from, next := AfterTicks(s, es, k).current, AfterTicks(s, es, k + 1).current;
            if forall i :: 0 <= i < |s.active| ==> !s.active[i] then next == from && Resumed(s, es, k) == es[k]
            else
              && s.active[next]
              && exists d :: 0 < d <= |s.active| && next == Ahead(from, d, |s.active|) && IdleFor(s.active, from, d - 1)
  {
    hide Ahead, IdleFor;
    var t := AfterTicks(s, es, k);
    var n := |s.active|;
    SearchIsCyclic(s.active, t.current, n);
    if Search(s.active, t.current, n) == n { IdleAround(s.active, t.current); }
  }

  /** When a whole round is idle, no task is active. */
  lemma IdleAround(active: seq<bool>, from: nat)
    requires active != [] && from < |active| && IdleFor(active, from, |active|)
    ensures forall i :: 0 <= i < |active| ==> !active[i]
  {
    var n := |active|;
    forall i | 0 <= i < n ensures !active[i] {
      var k := Turn(from + 1, n, i);
      TurnIsIn(from + 1, n, i);
      assert Ahead(from, k - from, n) == i;
    }
  }

  /** A task's slot is not written while others run. */
  lemma {:induction false} SlotStays(s: Sched, es: seq<nat>, j: nat, k: nat, task: nat)
    requires WellFormed(s) && j <= k <= |es| && Rotating(AfterTicks(s, es, j)) && task < |s.esps|
    requires forall m :: j <= m < k ==> AfterTicks(s, es, m).current != task
    ensures Rotating(AfterTicks(s, es, k))
    ensures AfterTicks(s, es, k).esps[task] == AfterTicks(s, es, j).esps[task]
    decreases k
  {
    hide AfterTicks, Resumed;
    if j < k {
      SlotStays(s, es, j, k - 1, task);
      RotatingTick(s, es, k - 1);
    }
  }

  /**
   Whatever tasks are active: a task that was interrupted by tick `j`, and whose next
   turn begins with tick `k`, is resumed exactly where tick `j` interrupted it.
   */
  lemma ResumedWhereInterrupted(s: Sched, es: seq<nat>, j: nat, k: nat)
    requires WellFormed(s) && j <= k < |es| && Rotating(AfterTicks(s, es, j))
    requires AfterTicks(s, es, k + 1).current == AfterTicks(s, es, j).current
    requires forall m :: j < m <= k ==> AfterTicks(s, es, m).current != AfterTicks(s, es, j).current
    ensures Resumed(s, es, k) == es[j]
  {
    hide AfterTicks, Resumed;
    var task := AfterTicks(s, es, j).current;
    RotatingTick(s, es, j);
    if j < k {
      SlotStays(s, es, j + 1, k, task);
      RotatingTick(s, es, k);
    }
  }

  /** A task that has not run yet starts with the stack pointer it was created with. */
  lemma StartedWhereCreated(s: Sched, es: seq<nat>, k: nat)
    requires WellFormed(s) && k < |es| && Rotating(s)
    requires forall m :: 0 <= m <= k ==> AfterTicks(s, es, m).current != AfterTicks(s, es, k + 1).current
    ensures Resumed(s, es, k) == s.esps[AfterTicks(s, es, k + 1).current]
  {
    var task := AfterTicks(s, es, k + 1).current;
    assert AfterTicks(s, es, 0) == s;
    hide AfterTicks, Resumed;
    SlotStays(s, es, 0, k, task);
    RotatingTick(s, es, k);
  }

  // ----- all tasks active: the closed form -----

  /** Just started, with all tasks active. */
  ghost predicate JustStarted(s: Sched) {
    && WellFormed(s) && s.esps != [] && s.started && s.pending && s.current == 0
    && forall i :: 0 <= i < |s.active| ==> s.active[i]
  }

  /** The closed form: the initial stack pointers in order, then always the one given up `n - 1` ticks ago. */
  function Expected(s: Sched, es: seq<nat>, k: nat): nat
    requires k < |s.esps| || k - |s.esps| + 1 < |es|
  {
    if k < |s.esps| then s.esps[k] else es[k - |s.esps| + 1]
  }

  lemma FirstRound(s: Sched, es: seq<nat>, k: nat)
    requires k < |s.esps|
    ensures Expected(s, es, k) == s.esps[k]
  {}

  /** After tick `k` task `k mod n` runs, and each other task holds what its next turn will resume. */
  ghost predicate Rotated(s: Sched, es: seq<nat>, k: nat)
    requires WellFormed(s) && s.esps != [] && k < |es|
  {
    var t := AfterTicks(s, es, k + 1);
    var n := |s.esps|;
    && t.started && !t.pending
    && t.current == k % n
    && forall m :: k < m < k + n ==> t.esps[m % n] == Expected(s, es, m)
  }

  lemma RotatedStep(s: Sched, es: seq<nat>, k: nat)
    requires JustStarted(s) && k + 1 < |es| && Rotated(s, es, k)
    ensures Rotated(s, es, k + 1) && Resumed(s, es, k + 1) == Expected(s, es, k + 1)
    ensures RunningAt(s, es, k + 1) == (k + 1) % |s.esps|
  {
    var n := |s.esps|;
    var t := AfterTicks(s, es, k + 1);
    var u := AfterTicks(s, es, k + 2);
    ModStep(k, 1, n);
    var next := (k + 1) % n;
    assert Search(t.active, t.current, n) == next;
    var saved := t.esps[k % n := es[k + 1]];
    assert u.esps == saved && u.current == next;
    ModOnce(k, n);
    forall m | k < m <= k + n ensures saved[m % n] == Expected(s, es, m) {
      if m < k + n { ModDistinct(k, m, n); }
    }
  }

  /** The bootstrap tick starts task 0 and saves nothing. */
  lemma FirstTick(s: Sched, es: seq<nat>)
    requires JustStarted(s) && es != []
    ensures Rotated(s, es, 0) && RunningAt(s, es, 0) == 0 % |s.esps| && Resumed(s, es, 0) == Expected(s, es, 0)
  {
    var n := |s.esps|;
    assert AfterTicks(s, es, 0) == s;
    assert AfterTicks(s, es, 1) == Tick(s, es[0]).0;
    forall m | 0 <= m < n ensures m % n == m { ModUnique(m, n, 0, m); }
  }

  /** Tick `k` runs task `k mod n`, which resumes with exactly the stack pointer it gave up last. */
  lemma {:induction false} RoundRobin(s: Sched, es: seq<nat>, k: nat)
    requires JustStarted(s) && k < |es|
    ensures Rotated(s, es, k)
    ensures RunningAt(s, es, k) == k % |s.esps|
    ensures Resumed(s, es, k) == Expected(s, es, k)
  {
    hide Rotated, Resumed, RunningAt, Expected;
    if k == 0 {
      FirstTick(s, es);
    } else {
      RoundRobin(s, es, k - 1);
      RotatedStep(s, es, k - 1);
    }
  }

  /** The number in a stretch of `n` with a given remainder. */
  function Turn(from: nat, n: nat, task: nat): nat
    requires task < n
  {
    if from % n <= task then from + (task - from % n) else from + (task + n - from % n)
  }

  lemma TurnIsIn(from: nat, n: nat, task: nat)
    requires task < n
    ensures from <= Turn(from, n, task) < from + n && Turn(from, n, task) % n == task
  {
    var k := Turn(from, n, task);
    ModStep(from, k - from, n);
    if from % n <= task { ModUnique(task, n, 0, task); } else { ModUnique(task + n, n, 1, task); }
  }

  /** Among any `n` consecutive ticks, every task runs exactly once. */
  lemma EveryTaskOnce(s: Sched, es: seq<nat>, from: nat, task: nat)
    requires JustStarted(s) && from + |s.esps| <= |es| && task < |s.esps|
    ensures exists k :: from <= k < from + |s.esps| && RunningAt(s, es, k) == task
    ensures forall k, l :: from <= k < l < from + |s.esps| ==> RunningAt(s, es, k) != RunningAt(s, es, l)
  {
    hide RunningAt, Rotated, Resumed, Expected, Turn, AfterTicks;
    var n := |s.esps|;
    TurnIsIn(from, n, task);
    RoundRobin(s, es, Turn(from, n, task));
    forall k, l | from <= k < l < from + n ensures RunningAt(s, es, k) != RunningAt(s, es, l) {
      RoundRobin(s, es, k);
      RoundRobin(s, es, l);
      ModDistinct(k, l, n);
    }
  }

  // ----- remainders -----

  lemma ModStep(a: nat, d: nat, n: nat)
    requires n > 0
    ensures (a % n + d) % n == (a + d) % n
  {
    ModAdd(a % n + d, a / n, n);
    assert a % n + d + n * (a / n) == a + d;
  }

  lemma {:induction false} ModAdd(a: nat, k: nat, n: nat)
    requires n > 0
    ensures (a + n * k) % n == a % n
    decreases k
  {
    if k > 0 {
      ModAdd(a + n, k - 1, n);
      assert a + n + n * (k - 1) == a + n * k;
      ModOnce(a, n);
    }
  }

  lemma ModOnce(a: nat, n: nat)
    requires n > 0
    ensures (a + n) % n == a % n
  {
    var q, r := a / n, a % n;
    assert a + n == n * (q + 1) + r;
    ModUnique(a + n, n, q + 1, r);
  }

  lemma ModUnique(a: nat, n: nat, q: nat, r: nat)
    requires n > 0 && a == n * q + r && r < n
    ensures a % n == r && a / n == q
  {
    var q', r' := a / n, a % n;
    assert n * q' + r' == n * q + r;
    if q' < q { MulMonotone(n, q' + 1, q); } else if q < q' { MulMonotone(n, q + 1, q'); }
  }

  lemma MulMonotone(n: nat, a: nat, b: nat)
    requires a <= b
    ensures n * a <= n * b
  {}

  /** Numbers less than `n` apart leave different remainders. */
  lemma ModDistinct(a: nat, b: nat, n: nat)
    requires a < b < a + n
    ensures a % n != b % n
  {
    if a % n == b % n {
      var r := a % n;
      assert b - a == n * (b / n) - n * (a / n);
      if b / n > a / n { MulMonotone(n, a / n + 1, b / n); } else { MulMonotone(n, b / n, a / n); }
    }
  }
}
