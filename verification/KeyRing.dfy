/**
 The keyboard ring as interleaved steps: the interrupt handler pushes whole
 characters; the consumer checks, reads a slot and advances in separate steps,
 and interrupts may fall between any two of them.
 */
module KeyRing {
  import opened Word32

  const SIZE: nat := 256

  /** Where the consumer stands: waiting, past the check, or with the slot read but not yet given up. */
  datatype Phase = Waiting | Checked | Loaded(c: byte)

  datatype Ring = Ring(slots: seq<byte>, head: nat, tail: nat, phase: Phase)

  function Count(r: Ring): nat
    requires r.head < SIZE && r.tail < SIZE
  {
    if r.head <= r.tail then r.tail - r.head else r.tail + SIZE - r.head
  }

  function Next(i: nat): nat { (i + 1) % SIZE }

  /** The slot of the `i`-th character in the queue. */
  function Slot(r: Ring, i: nat): (k: nat)
    ensures k < SIZE
  {
    (r.head + i) % SIZE
  }

  ghost predicate Valid(r: Ring) {
    && |r.slots| == SIZE && r.head < SIZE && r.tail < SIZE
    && (!r.phase.Waiting? ==> r.head != r.tail)
    && (r.phase.Loaded? ==> r.phase.c == r.slots[r.head])
  }

  /** The characters that wait, oldest first. */
  function Queue(r: Ring): (q: seq<byte>)
    requires |r.slots| == SIZE && r.head < SIZE && r.tail < SIZE
    ensures |q| == Count(r)
  {
    seq(Count(r), i requires 0 <= i < Count(r) => r.slots[Slot(r, i)])
  }

  predicate Full(r: Ring) { Next(r.tail) == r.head }

  /** `push_char`, run as a whole by the interrupt handler. */
  function Push(r: Ring, c: byte): Ring
    requires |r.slots| == SIZE && r.tail < SIZE
  {
    if Full(r) then r else r.(slots := r.slots[r.tail := c], tail := Next(r.tail))
  }

  /** One step of the consumer; the last one hands the character out. */
  function Consume(r: Ring): (Ring, seq<byte>)
    requires |r.slots| == SIZE && r.head < SIZE
  {
    match r.phase
    case Waiting => (if r.head != r.tail then r.(phase := Checked) else r, [])
    case Checked => (r.(phase := Loaded(r.slots[r.head])), [])
    case Loaded(c) => (r.(head := Next(r.head), phase := Waiting), [c])
  }

  // ----- one step -----

  /** The ring is full exactly with 255 characters. */
  lemma FullAt255(r: Ring)
    requires r.head < SIZE && r.tail < SIZE
    ensures Full(r) <==> Count(r) == SIZE - 1
    ensures Count(r) <= SIZE - 1
  {}

  /**
   A push appends at the end of the queue or, with 255 characters waiting, drops the
   character; no unread slot is overwritten.
   */
  lemma PushAppends(r: Ring, c: byte)
    requires Valid(r)
    ensures Valid(Push(r, c)) && Push(r, c).phase == r.phase
    ensures Queue(Push(r, c)) == if |Queue(r)| < SIZE - 1 then Queue(r) + [c] else Queue(r)
    ensures forall i :: 0 <= i < Count(r) ==> Push(r, c).slots[Slot(r, i)] == r.slots[Slot(r, i)]
  {
    hide Slot, Count;
    FullAt255(r);
    if !Full(r) {
      PushCounts(r, c);
      forall i | 0 <= i <= Count(r) ensures Slot(r, i) == r.tail <==> i == Count(r) { SlotOf(r, i); }
      forall i | 0 <= i < Count(r) ensures Queue(Push(r, c))[i] == Queue(r)[i] { SameSlot(r, c, i); }
      SameSlot(r, c, Count(r));
      assert Queue(Push(r, c)) == Queue(r) + [c];
    }
  }

  /** The slot behind the queue is the tail, and only that. */
  lemma SlotOf(r: Ring, i: nat)
    requires r.head < SIZE && r.tail < SIZE && i <= Count(r)
    ensures Slot(r, i) == r.tail <==> i == Count(r)
  {}

  lemma SameSlot(r: Ring, c: byte, i: nat)
    requires |r.slots| == SIZE && r.tail < SIZE
    ensures Slot(Push(r, c), i) == Slot(r, i)
  {}

  lemma PushCounts(r: Ring, c: byte)
    requires Valid(r) && !Full(r)
    ensures Valid(Push(r, c)) && Count(Push(r, c)) == Count(r) + 1
  {}

  /** A consumer step hands out the oldest character or nothing. */
  lemma ConsumeTakes(r: Ring)
    requires Valid(r)
    ensures var (t, out) := Consume(r); Valid(t) && out + Queue(t) == Queue(r)
  {
    var (t, out) := Consume(r);
    if r.phase.Loaded? {
      AdvanceDrops(r);
    } else {
      assert Queue(t) == Queue(r);
    }
  }

  /** Giving up the slot at the head drops the oldest character. */
  lemma AdvanceDrops(r: Ring)
    requires |r.slots| == SIZE && r.head < SIZE && r.tail < SIZE && r.head != r.tail
    ensures var t := Ring(r.slots, Next(r.head), r.tail, Waiting);
            [r.slots[r.head]] + Queue(t) == Queue(r)
  {
    var t := Ring(r.slots, Next(r.head), r.tail, Waiting);
    hide Slot, Count;
    NextCounts(r);
    forall i | 0 <= i < Count(t) ensures Slot(t, i) == Slot(r, i + 1) { NextSlot(r, i); }
  }

  lemma NextCounts(r: Ring)
    requires r.head < SIZE && r.tail < SIZE && r.head != r.tail
    ensures Count(Ring(r.slots, Next(r.head), r.tail, Waiting)) == Count(r) - 1
    ensures Slot(r, 0) == r.head
  {}

  lemma NextSlot(r: Ring, i: nat)
    requires r.head < SIZE
    ensures Slot(Ring(r.slots, Next(r.head), r.tail, Waiting), i) == Slot(r, i + 1)
  {}

  // ----- every interleaving -----

  datatype Event = Key(c: byte) | ConsumerStep

  /** The ring with the history of the run: what was accepted and what was handed out. */
  datatype History = History(ring: Ring, accepted: seq<byte>, popped: seq<byte>)

  function Happen(h: History, e: Event): History
    requires |h.ring.slots| == SIZE && h.ring.head < SIZE && h.ring.tail < SIZE
  {
    match e
    case Key(c) => History(Push(h.ring, c), if Full(h.ring) then h.accepted else h.accepted + [c], h.popped)
    case ConsumerStep =>
      var (t, out) := Consume(h.ring);
      History(t, h.accepted, h.popped + out)
  }

  ghost predicate Consistent(h: History) {
    Valid(h.ring) && h.popped + Queue(h.ring) == h.accepted
  }

  lemma EventKeepsConsistent(h: History, e: Event)
    requires Consistent(h)
    ensures Consistent(Happen(h, e))
  {
    hide Push, Consume, Queue;
    match e
    case Key(c) =>
      PushAppends(h.ring, c);
      FullAt255(h.ring);
      QueueLength(h.ring);
      assert h.popped + (Queue(h.ring) + [c]) == (h.popped + Queue(h.ring)) + [c];
    case ConsumerStep =>
      ConsumeTakes(h.ring);
      var (t, out) := Consume(h.ring);
      assert (h.popped + out) + Queue(t) == h.popped + (out + Queue(t));
  }

  lemma QueueLength(r: Ring)
    requires Valid(r)
    ensures |Queue(r)| == Count(r)
  {}

  function HappenAll(h: History, es: seq<Event>): (t: History)
    requires Consistent(h)
    ensures Consistent(t)
    decreases |es|
  {
    if es == [] then h
    else
      EventKeepsConsistent(h, es[0]);
      HappenAll(Happen(h, es[0]), es[1..])
  }

  /**
   Whatever the interleaving: characters handed out, then those that wait, are those
   accepted, in order; at most 255 wait.
   */
  lemma {:induction false} NothingLostOrReordered(h: History, es: seq<Event>)
    requires Consistent(h)
    ensures var t := HappenAll(h, es);
            && t.popped + Queue(t.ring) == t.accepted
            && |Queue(t.ring)| <= SIZE - 1
            && h.accepted <= t.accepted && h.popped <= t.popped <= t.accepted
    decreases |es|
  {
    hide Happen, Queue;
    if es == [] {
      FullAt255(h.ring);
      QueueLength(h.ring);
      assert h.popped <= h.popped + Queue(h.ring);
    } else {
      EventKeepsConsistent(h, es[0]);
      HistoryGrows(h, es[0]);
      NothingLostOrReordered(Happen(h, es[0]), es[1..]);
    }
  }

  lemma HistoryGrows(h: History, e: Event)
    requires Consistent(h)
    ensures h.accepted <= Happen(h, e).accepted && h.popped <= Happen(h, e).popped
  {}

  /** A consumer that is let run without interrupts takes the oldest character in three steps. */
  lemma ThreeStepsPop(r: Ring)
    requires Valid(r) && r.phase.Waiting? && r.head != r.tail
    ensures var r1 := Consume(r).0;
            var r2 := Consume(r1).0;
            var (r3, out) := Consume(r2);
            Valid(r3) && r3.phase.Waiting? && out == [Queue(r)[0]] && Queue(r3) == Queue(r)[1..]
  {
    var r1 := Consume(r).0;
    var r2 := Consume(r1).0;
    ConsumeTakes(r);
    ConsumeTakes(r1);
    ConsumeTakes(r2);
  }

  /** The ring after `keyboard_init`, whatever its slots hold. */
  function Empty(slots: seq<byte>): (h: History)
    requires |slots| == SIZE
    ensures Consistent(h) && Queue(h.ring) == []
  {
    History(Ring(slots, 0, 0, Waiting), [], [])
  }

  /** From `keyboard_init` on: nothing is handed out that was not typed, and everything accepted comes out in order. */
  lemma NothingLostFromInit(slots: seq<byte>, es: seq<Event>)
    requires |slots| == SIZE
    ensures var t := HappenAll(Empty(slots), es);
            && t.popped + Queue(t.ring) == t.accepted && |Queue(t.ring)| <= SIZE - 1
            && |t.accepted| <= |Pressed(es)| && (|Pressed(es)| < SIZE ==> t.accepted == Pressed(es))
  {
    NothingLostOrReordered(Empty(slots), es);
    AcceptedFits(Empty(slots), es);
  }

  /** The characters of the push events of a run. */
  function Pressed(es: seq<Event>): seq<byte>
    decreases |es|
  {
    if es == [] then [] else (if es[0].Key? then [es[0].c] else []) + Pressed(es[1..])
  }

  /** A character is dropped only when 255 wait, so a run of fewer than 256 drops none. */
  lemma {:induction false} AcceptedFits(h: History, es: seq<Event>)
    requires Consistent(h)
    ensures var t := HappenAll(h, es);
            && |t.accepted| <= |h.accepted| + |Pressed(es)|
            && (|h.accepted| + |Pressed(es)| < SIZE ==> t.accepted == h.accepted + Pressed(es))
    decreases |es|
  {
    hide Queue, Happen;
    if es != [] {
      EventKeepsConsistent(h, es[0]);
      EventAccepts(h, es[0]);
      AcceptedFits(Happen(h, es[0]), es[1..]);
      PressedFirst(es);
    }
  }

  lemma PressedFirst(es: seq<Event>)
    requires es != []
    ensures Pressed(es) == Pressed([es[0]]) + Pressed(es[1..])
  {
    assert [es[0]][1..] == [];
  }

  lemma EventAccepts(h: History, e: Event)
    requires Consistent(h)
    ensures var t := Happen(h, e);
            && |t.accepted| <= |h.accepted| + |Pressed([e])|
            && (|h.accepted| + |Pressed([e])| < SIZE ==> t.accepted == h.accepted + Pressed([e]))
  {
    hide Queue, Consume, Push;
    FullAt255(h.ring);
    QueueLength(h.ring);
    assert [e][1..] == [];
  }
}
