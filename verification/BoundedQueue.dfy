/**
 The blocking queue of 03_threads/producer_consumer/queue.c with any number of producer and
 consumer threads. One step is one stay in the critical section, from acquiring the mutex to
 releasing it by return or by pthread_cond_wait; woken threads compete with newcomers.
 */
module BoundedQueue {
  import opened CircularBuffer
  import opened CondVar

  /** A non-NULL item pointer, tagged with the thread that enqueues it. */
  datatype Item = Item(producer: nat, value: int)

  datatype Queue = Queue(
    ring: Ring<Item>,
    condFull: Cond<nat>,       // producers wait here
    condEmpty: Cond<nat>,      // consumers wait here
    pending: map<nat, Item>,   // argument of each blocked queue_enqueue
    enqueued: seq<Item>,       // history: items in the order they entered
    dequeued: seq<Item>)       // history: items in the order they left

  /** `woken` is what the signal sent at the end of the critical section wakes. */
  datatype Step =
    | Enqueue(p: nat, item: Item, woken: set<nat>)
    | Dequeue(c: nat, woken: set<nat>)
    | TryDequeue(busy: bool, woken: set<nat>)
    | SpuriousProducer(p: nat)
    | SpuriousConsumer(c: nat)

  predicate Enabled(q: Queue, step: Step) {
    match step
    case Enqueue(p, item, woken) =>
      && p !in q.condFull.asleep && item.producer == p
      && (p in q.condFull.awake ==> p in q.pending && q.pending[p] == item)
      && (q.ring.size < q.ring.Capacity() ==> MaySignal(q.condEmpty, woken))
    case Dequeue(c, woken) =>
      c !in q.condEmpty.asleep && (q.ring.size > 0 ==> MaySignal(q.condFull, woken))
    case TryDequeue(busy, woken) =>
      !busy && q.ring.size > 0 ==> MaySignal(q.condFull, woken)
    case SpuriousProducer(p) => p in q.condFull.asleep
    case SpuriousConsumer(c) => c in q.condEmpty.asleep
  }

  /** Remove the front item and signal cond_full. */
  function Remove(q: Queue, woken: set<nat>): Queue
    requires q.ring.Valid() && q.ring.size > 0
  {
    q.(ring := q.ring.Pop(), condFull := Wake(q.condFull, woken), dequeued := q.dequeued + [q.ring.At(0)])
  }

  function Next(q: Queue, step: Step): Queue
    requires q.ring.Valid() && Enabled(q, step)
  {
    match step
    case Enqueue(p, item, woken) =>
      if q.ring.size >= q.ring.Capacity() then
        q.(condFull := Sleep(q.condFull, p), pending := q.pending[p := item])
      else
        q.(ring := q.ring.Push(item), condFull := Leave(q.condFull, p), pending := q.pending - {p},
           condEmpty := Wake(q.condEmpty, woken), enqueued := q.enqueued + [item])
    case Dequeue(c, woken) =>
      if q.ring.size == 0 then q.(condEmpty := Sleep(q.condEmpty, c))
      else Remove(q.(condEmpty := Leave(q.condEmpty, c)), woken)
    case TryDequeue(busy, woken) =>
      if busy || q.ring.size == 0 then q else Remove(q, woken)
    case SpuriousProducer(p) => q.(condFull := Wake(q.condFull, {p}))
    case SpuriousConsumer(c) => q.(condEmpty := Wake(q.condEmpty, {c}))
  }

  ghost predicate Initial(q: Queue, capacity: nat) {
    && q.ring.Capacity() == capacity && q.ring.front == 0 && q.ring.size == 0
    && q.condFull == Cond({}, {}) && q.condEmpty == Cond({}, {}) && q.pending == map[]
    && q.enqueued == [] && q.dequeued == []
  }

  /** As many woken threads as there are items, or slots, for those still asleep. */
  ghost predicate Covered(c: Cond<nat>, available: int) {
    c.asleep != {} ==> available <= |c.awake|
  }

  ghost predicate Inv(q: Queue) {
    && q.ring.Valid()
    && Consistent(q.condFull) && Consistent(q.condEmpty)
    && Covered(q.condEmpty, q.ring.size)
    && Covered(q.condFull, q.ring.Capacity() - q.ring.size)
    && q.pending.Keys == q.condFull.asleep + q.condFull.awake
    && q.enqueued == q.dequeued + Contents(q.ring)
  }

  lemma SignalCovers(c: Cond<nat>, available: int, woken: set<nat>)
    requires Consistent(c) && Covered(c, available) && MaySignal(c, woken)
    ensures Consistent(Wake(c, woken)) && Covered(Wake(c, woken), available + 1)
  {
  }

  lemma LeaveCovers(c: Cond<nat>, available: int, t: nat)
    requires Consistent(c) && Covered(c, available)
    ensures Consistent(Leave(c, t)) && Covered(Leave(c, t), available - 1)
  {
  }

  lemma RemoveKeeps(q: Queue, woken: set<nat>)
    requires q.ring.Valid() && q.ring.size > 0 && MaySignal(q.condFull, woken)
    requires Consistent(q.condFull) && Consistent(q.condEmpty)
    requires Covered(q.condEmpty, q.ring.size - 1)
    requires Covered(q.condFull, q.ring.Capacity() - q.ring.size)
    requires q.pending.Keys == q.condFull.asleep + q.condFull.awake
    requires q.enqueued == q.dequeued + Contents(q.ring)
    ensures Inv(Remove(q, woken))
  {
    RemoveLedger(q, woken);
    SignalCovers(q.condFull, q.ring.Capacity() - q.ring.size, woken);
    WakeWaiters(q.condFull, woken);
  }

  lemma RemoveLedger(q: Queue, woken: set<nat>)
    requires q.ring.Valid() && q.ring.size > 0 && q.enqueued == q.dequeued + Contents(q.ring)
    ensures var q' := Remove(q, woken);
            q'.ring.Valid() && q'.enqueued == q'.dequeued + Contents(q'.ring)
  {
    PopRemovesFirst(q.ring);
    var x, rest := q.ring.At(0), Contents(q.ring.Pop());
    assert q.dequeued + ([x] + rest) == (q.dequeued + [x]) + rest;
  }

  lemma WakeWaiters(c: Cond<nat>, woken: set<nat>)
    requires woken <= c.asleep
    ensures Wake(c, woken).asleep + Wake(c, woken).awake == c.asleep + c.awake
  {
  }

  lemma LeavePending(q: Queue, p: nat)
    requires p !in q.condFull.asleep && q.pending.Keys == q.condFull.asleep + q.condFull.awake
    ensures (q.pending - {p}).Keys == Leave(q.condFull, p).asleep + Leave(q.condFull, p).awake
  {
  }

  lemma EnterKeeps(q: Queue, step: Step)
    requires Inv(q) && Enabled(q, step) && step.Enqueue? && q.ring.size < q.ring.Capacity()
    ensures Inv(Next(q, step)) && Next(q, step).ring.Capacity() == q.ring.Capacity()
  {
    PushAppends(q.ring, step.item);
    SignalCovers(q.condEmpty, q.ring.size, step.woken);
    LeaveCovers(q.condFull, q.ring.Capacity() - q.ring.size, step.p);
    LeavePending(q, step.p);
    assert q.enqueued + [step.item] == q.dequeued + (Contents(q.ring) + [step.item]);
  }

  lemma BlockKeeps(q: Queue, step: Step)
    requires Inv(q) && Enabled(q, step) && step.Enqueue? && q.ring.size >= q.ring.Capacity()
    ensures Inv(Next(q, step)) && Next(q, step).ring.Capacity() == q.ring.Capacity()
  {
  }

  lemma DequeueKeeps(q: Queue, step: Step)
    requires Inv(q) && Enabled(q, step) && (step.Dequeue? || step.TryDequeue?)
    ensures Inv(Next(q, step)) && Next(q, step).ring.Capacity() == q.ring.Capacity()
  {
    if q.ring.size > 0 {
      match step
      case Dequeue(c, woken) =>
        LeaveCovers(q.condEmpty, q.ring.size, c);
        RemoveKeeps(q.(condEmpty := Leave(q.condEmpty, c)), woken);
      case TryDequeue(busy, woken) =>
        if !busy {
          RemoveKeeps(q, woken);
        }
    }
  }

  lemma SpuriousKeeps(q: Queue, step: Step)
    requires Inv(q) && Enabled(q, step) && (step.SpuriousProducer? || step.SpuriousConsumer?)
    ensures Inv(Next(q, step)) && Next(q, step).ring.Capacity() == q.ring.Capacity()
  {
  }

  lemma StepKeeps(q: Queue, step: Step)
    requires Inv(q) && Enabled(q, step)
    ensures Inv(Next(q, step)) && Next(q, step).ring.Capacity() == q.ring.Capacity()
  {
    match step
    case Enqueue(_, _, _) =>
      if q.ring.size < q.ring.Capacity() {
        EnterKeeps(q, step);
      } else {
        BlockKeeps(q, step);
      }
    case Dequeue(_, _) => DequeueKeeps(q, step);
    case TryDequeue(_, _) => DequeueKeeps(q, step);
    case SpuriousProducer(_) => SpuriousKeeps(q, step);
    case SpuriousConsumer(_) => SpuriousKeeps(q, step);
  }

  // ---------------------------------------------------------------- whole runs

  ghost predicate Feasible(q: Queue, steps: seq<Step>)
    decreases |steps|
  {
    || steps == []
    || (q.ring.Valid() && Enabled(q, steps[0]) && Feasible(Next(q, steps[0]), steps[1..]))
  }

  ghost function Run(q: Queue, steps: seq<Step>): Queue
    requires Feasible(q, steps)
    decreases |steps|
  {
    if steps == [] then q else Run(Next(q, steps[0]), steps[1..])
  }

  lemma {:induction false} RunKeeps(q: Queue, steps: seq<Step>)
    requires Inv(q) && Feasible(q, steps)
    ensures Inv(Run(q, steps)) && Run(q, steps).ring.Capacity() == q.ring.Capacity()
    decreases |steps|
  {
    if steps != [] {
      StepKeeps(q, steps[0]);
      RunKeeps(Next(q, steps[0]), steps[1..]);
    }
  }

  /**
   No schedule deadlocks: a sleeping consumer means every queued item has a woken consumer on its
   way, a sleeping producer that every free slot has a woken producer, so producers and consumers
   are never all asleep together.
   */
  lemma NeverDeadlocks(init: Queue, capacity: nat, steps: seq<Step>)
    requires capacity >= 1 && Initial(init, capacity) && Feasible(init, steps)
    ensures var q := Run(init, steps);
            && (q.condEmpty.asleep != {} ==> q.ring.size <= |q.condEmpty.awake|)
            && (q.condFull.asleep != {} ==> capacity - q.ring.size <= |q.condFull.awake|)
            && (q.condEmpty.asleep != {} && q.condFull.asleep != {} ==>
                  |q.condEmpty.awake| + |q.condFull.awake| >= capacity)
            && !(q.condEmpty.asleep != {} && q.condFull.asleep != {}
                 && q.condEmpty.awake == {} && q.condFull.awake == {})
  {
    RunKeeps(init, steps);
  }

  // ---------------------------------------------------------------- first in, first out

  /** The items of producer `p`, in order. */
  ghost function By(items: seq<Item>, p: nat): seq<Item> {
    if items == [] then []
    else (if items[0].producer == p then [items[0]] else []) + By(items[1..], p)
  }

  lemma {:induction false} ByConcat(s: seq<Item>, t: seq<Item>, p: nat)
    ensures By(s + t, p) == By(s, p) + By(t, p)
  {
    if s == [] {
      assert s + t == t;
    } else {
      ByConcat(s[1..], t, p);
      assert (s + t)[1..] == s[1..] + t;
      var first := if s[0].producer == p then [s[0]] else [];
      assert first + (By(s[1..], p) + By(t, p)) == (first + By(s[1..], p)) + By(t, p);
    }
  }

  /**
   After every run the items that left, followed by the buffer read from the front, are the items
   that entered, in order; so nothing is lost or duplicated, and each producer's items leave in
   the order in which it enqueued them.
   */
  lemma FirstInFirstOut(init: Queue, capacity: nat, steps: seq<Step>, p: nat)
    requires capacity >= 1 && Initial(init, capacity) && Feasible(init, steps)
    ensures var q := Run(init, steps);
            && q.ring.Valid()
            && q.dequeued + Contents(q.ring) == q.enqueued
            && By(q.dequeued, p) <= By(q.enqueued, p)
  {
    RunKeeps(init, steps);
    var q := Run(init, steps);
    ByConcat(q.dequeued, Contents(q.ring), p);
  }

  // ---------------------------------------------------------------- every call is accounted for

  /** A call waits exactly when the queue is full, or empty; queue_try_dequeue never does. */
  lemma WaitsIff(q: Queue, step: Step)
    requires Inv(q) && Enabled(q, step)
    ensures var q' := Next(q, step);
            match step
            case Enqueue(p, item, _) =>
              && (p in q'.condFull.asleep <==> |Contents(q.ring)| == q.ring.Capacity())
              && q'.enqueued == q.enqueued + (if p in q'.condFull.asleep then [] else [item])
              && q'.dequeued == q.dequeued
            case Dequeue(c, _) =>
              && (c in q'.condEmpty.asleep <==> Contents(q.ring) == [])
              && |q'.dequeued| == |q.dequeued| + (if c in q'.condEmpty.asleep then 0 else 1)
              && q'.enqueued == q.enqueued
            case TryDequeue(busy, _) =>
              && q'.condEmpty == q.condEmpty && q'.enqueued == q.enqueued
              && |q'.dequeued| == |q.dequeued| + (if busy || Contents(q.ring) == [] then 0 else 1)
            case _ => q'.enqueued == q.enqueued && q'.dequeued == q.dequeued
  {
    assert |Contents(q.ring)| == q.ring.size;
  }

  /** The item of a queue_enqueue call that producer `p` begins with the step; a retry begins none. */
  ghost function Begins(q: Queue, step: Step, p: nat): seq<Item> {
    if step.Enqueue? && step.p == p && p !in q.condFull.asleep + q.condFull.awake then [step.item] else []
  }

  /** The items of all queue_enqueue calls that producer `p` begins in the run, in order. */
  ghost function Offered(q: Queue, steps: seq<Step>, p: nat): seq<Item>
    requires Feasible(q, steps)
    decreases |steps|
  {
    if steps == [] then [] else Begins(q, steps[0], p) + Offered(Next(q, steps[0]), steps[1..], p)
  }

  /** The item of the call in which producer `p` waits for room. */
  ghost function Waiting(q: Queue, p: nat): seq<Item> {
    if p in q.pending then [q.pending[p]] else []
  }

  /** What has become of the items producer `p` offered. */
  ghost function Account(q: Queue, p: nat): seq<Item> { By(q.enqueued, p) + Waiting(q, p) }

  lemma OfferStep(q: Queue, step: Step, p: nat)
    requires Inv(q) && Enabled(q, step)
    ensures Account(Next(q, step), p) == Account(q, p) + Begins(q, step, p)
  {
    if step.Enqueue? {
      ByConcat(q.enqueued, [step.item], p);
      ByOne(step.item, p);
      assert By(q.enqueued, p) + [] == By(q.enqueued, p);
    } else {
      WaitsIff(q, step);
      assert Waiting(Next(q, step), p) == Waiting(q, p);
    }
  }

  lemma ByOne(item: Item, p: nat)
    ensures By([item], p) == if item.producer == p then [item] else []
  {
    assert [item][1..] == [];
  }

  lemma Regroup<T>(a: seq<T>, b: seq<T>, c: seq<T>)
    ensures (a + b) + c == a + (b + c)
  {
  }

  lemma {:induction false} OfferRun(q: Queue, steps: seq<Step>, p: nat)
    requires Inv(q) && Feasible(q, steps)
    ensures Account(Run(q, steps), p) == Account(q, p) + Offered(q, steps, p)
    decreases |steps|
  {
    if steps != [] {
      StepKeeps(q, steps[0]);
      OfferStep(q, steps[0], p);
      OfferRun(Next(q, steps[0]), steps[1..], p);
      Regroup(Account(q, p), Begins(q, steps[0], p), Offered(Next(q, steps[0]), steps[1..], p));
    }
  }

  ghost function Takers(q: Queue): set<nat> { q.condEmpty.asleep + q.condEmpty.awake }

  /** A queue_dequeue call that begins, or a queue_try_dequeue that finds the mutex free and an item. */
  ghost function Takes(q: Queue, step: Step): nat
    requires q.ring.Valid()
  {
    match step
    case Dequeue(c, _) => if c in Takers(q) then 0 else 1
    case TryDequeue(busy, _) => if busy || Contents(q.ring) == [] then 0 else 1
    case _ => 0
  }

  ghost function Taken(q: Queue, steps: seq<Step>): nat
    requires Feasible(q, steps)
    decreases |steps|
  {
    if steps == [] then 0 else Takes(q, steps[0]) + Taken(Next(q, steps[0]), steps[1..])
  }

  lemma SleepSize(c: Cond<nat>, t: nat)
    ensures var c' := Sleep(c, t);
            |c'.asleep + c'.awake| == |c.asleep + c.awake| + (if t in c.asleep + c.awake then 0 else 1)
  {
    var all := c.asleep + c.awake;
    assert Sleep(c, t).asleep + Sleep(c, t).awake == all + {t};
    if t in all {
      assert all + {t} == all;
    }
  }

  lemma LeaveSize(c: Cond<nat>, t: nat)
    requires t !in c.asleep
    ensures var c' := Leave(c, t);
            |c'.asleep + c'.awake| == |c.asleep + c.awake| - (if t in c.asleep + c.awake then 1 else 0)
  {
    assert Leave(c, t).asleep + Leave(c, t).awake == c.asleep + c.awake - {t};
  }

  lemma TakeStep(q: Queue, step: Step)
    requires Inv(q) && Enabled(q, step)
    ensures var q' := Next(q, step);
            |q'.dequeued| + |Takers(q')| == |q.dequeued| + |Takers(q)| + Takes(q, step)
  {
    WaitsIff(q, step);
    match step
    case Dequeue(c, _) =>
      if q.ring.size == 0 {
        SleepSize(q.condEmpty, c);
      } else {
        LeaveSize(q.condEmpty, c);
      }
    case SpuriousConsumer(c) => WakeWaiters(q.condEmpty, {c});
    case Enqueue(_, _, woken) =>
      if q.ring.size < q.ring.Capacity() {
        WakeWaiters(q.condEmpty, woken);
      }
    case TryDequeue(_, _) =>
    case SpuriousProducer(_) =>
  }

  lemma {:induction false} TakeRun(q: Queue, steps: seq<Step>)
    requires Inv(q) && Feasible(q, steps)
    ensures var q' := Run(q, steps);
            |q'.dequeued| + |Takers(q')| == |q.dequeued| + |Takers(q)| + Taken(q, steps)
    decreases |steps|
  {
    if steps != [] {
      StepKeeps(q, steps[0]);
      TakeStep(q, steps[0]);
      TakeRun(Next(q, steps[0]), steps[1..]);
    }
  }

  /**
   Over whole runs, read from the calls made: the items a producer has offered are those of its
   that entered, in order, and the one with which it waits; every queue_dequeue that does not wait
   and every queue_try_dequeue that finds an item has taken one.
   */
  lemma CallsAccounted(init: Queue, capacity: nat, steps: seq<Step>, p: nat)
    requires capacity >= 1 && Initial(init, capacity) && Feasible(init, steps)
    ensures var q := Run(init, steps);
            && By(q.enqueued, p) + Waiting(q, p) == Offered(init, steps, p)
            && Taken(init, steps) == |q.dequeued| + |q.condEmpty.asleep + q.condEmpty.awake|
            && (p in q.condFull.asleep + q.condFull.awake <==> Waiting(q, p) != [])
  {
    RunKeeps(init, steps);
    OfferRun(init, steps, p);
    TakeRun(init, steps);
    assert Account(init, p) == [];
  }
}
