/**
 * The demo's ring queue with one producer and one consumer: `push` and `pop` split into their check,
 * their access to the slot and the advance of their index, interleaved in any way.
 */
module RingQueue {
  datatype Producer<T> = PushIdle | PushChecking(x: T) | PushWriting(x: T) | PushWritten(x: T)

  datatype Consumer<T> = PopIdle | PopChecking | PopReading | PopRead(x: T)

  /** The fields of the queue, where the two threads stand, and what they have completed. */
  datatype Ring<T> = Ring(slots: seq<T>, head: nat, tail: nat, producer: Producer<T>, consumer: Consumer<T>,
                          pushed: seq<T>, popped: seq<T>)

  datatype Step<T> = CallPush(x: T) | PushStep | CallPop | PopStep

  function Empty<T>(slots: seq<T>): Ring<T> { Ring(slots, 0, 0, PushIdle, PopIdle, [], []) }

  /** The next atomic action of one thread; a call that cannot be made changes nothing. */
  function Next<T>(q: Ring<T>, step: Step<T>): Ring<T>
    requires |q.slots| > 0
  {
    var cap := |q.slots|;
    match step
    case CallPush(x) => if q.producer.PushIdle? then q.(producer := PushChecking(x)) else q
    case PushStep =>
      (match q.producer
       case PushIdle => q
       case PushChecking(x) => if (q.tail + 1) % cap == q.head then q else q.(producer := PushWriting(x))
       case PushWriting(x) => if q.tail < cap then q.(slots := q.slots[q.tail := x], producer := PushWritten(x)) else q
       case PushWritten(x) => q.(tail := (q.tail + 1) % cap, producer := PushIdle, pushed := q.pushed + [x]))
    case CallPop => if q.consumer.PopIdle? then q.(consumer := PopChecking) else q
    case PopStep =>
      (match q.consumer
       case PopIdle => q
       case PopChecking => if q.head == q.tail then q.(consumer := PopIdle) else q.(consumer := PopReading)
       case PopReading => if q.head < cap then q.(consumer := PopRead(q.slots[q.head])) else q
       case PopRead(x) => q.(head := (q.head + 1) % cap, consumer := PopIdle, popped := q.popped + [x]))
  }

  function Run<T>(slots: seq<T>, steps: seq<Step<T>>): (q: Ring<T>)
    requires |slots| > 0
    ensures |q.slots| == |slots|
  {
    if steps == [] then Empty(slots) else Next(Run(slots, steps[..|steps| - 1]), steps[|steps| - 1])
  }

  /** The place of the k-th stored item. */
  function Place(head: nat, k: nat, cap: nat): nat
    requires cap > 0
  {
    (head + k) % cap
  }

  lemma PlaceOf(head: nat, k: nat, cap: nat)
    requires head < cap && k <= cap
    ensures Place(head, k, cap) == (head + k) % cap == if head + k < cap then head + k else head + k - cap
  {
  }

  /** The n items from the head on. */
  function Stored<T>(slots: seq<T>, head: nat, n: nat): (s: seq<T>)
    requires |slots| > 0
    ensures |s| == n
  {
    seq(n, k requires 0 <= k < n => slots[Place(head, k, |slots|)])
  }

  /** Writing the first free slot leaves the stored items alone, and is where the next item belongs. */
  lemma StoredWrite<T>(slots: seq<T>, head: nat, n: nat, x: T)
    requires head < |slots| && n < |slots|
    ensures var written := slots[Place(head, n, |slots|) := x];
            Stored(written, head, n) == Stored(slots, head, n)
  {
    var cap := |slots|;
    PlaceOf(head, n, cap);
    forall k | 0 <= k < n ensures Place(head, k, cap) != Place(head, n, cap) { PlaceOf(head, k, cap); }
  }

  lemma StoredAppend<T>(slots: seq<T>, head: nat, n: nat)
    requires |slots| > 0
    ensures Stored(slots, head, n + 1) == Stored(slots, head, n) + [slots[Place(head, n, |slots|)]]
  {
  }

  /** Advancing the head drops the oldest item. */
  lemma StoredDrop<T>(slots: seq<T>, head: nat, n: nat)
    requires head < |slots| && 0 < n < |slots|
    ensures Stored(slots, head, n)[0] == slots[head]
    ensures Stored(slots, Place(head, 1, |slots|), n - 1) == Stored(slots, head, n)[1..]
  {
    var cap := |slots|;
    PlaceOf(head, 0, cap);
    forall k | 0 <= k < n - 1 ensures Place(Place(head, 1, cap), k, cap) == Place(head, k + 1, cap) {
      Advance(head, k, cap);
    }
  }

  lemma Advance(head: nat, k: nat, cap: nat)
    requires head < cap && k < cap
    ensures Place(Place(head, 1, cap), k, cap) == Place(head, k + 1, cap)
    ensures Place(Place(head, k, cap), 1, cap) == Place(head, k + 1, cap)
  {
    PlaceOf(head, 1, cap);
    PlaceOf(head, k, cap);
    PlaceOf(head, k + 1, cap);
    PlaceOf(Place(head, 1, cap), k, cap);
    PlaceOf(Place(head, k, cap), 1, cap);
  }

  ghost predicate Inv<T>(q: Ring<T>) {
    var cap, stored := |q.slots|, |q.pushed| - |q.popped|;
    && 0 <= stored < cap && q.head < cap && q.tail < cap && q.tail == Place(q.head, stored, cap)
    && q.pushed == q.popped + Stored(q.slots, q.head, stored)
    && (q.producer.PushWriting? || q.producer.PushWritten? ==> stored < cap - 1)
    && (q.producer.PushWritten? ==> q.slots[q.tail] == q.producer.x)
    && (q.consumer.PopReading? || q.consumer.PopRead? ==> stored > 0)
    && (q.consumer.PopRead? ==> q.consumer.x == q.slots[q.head])
  }

  /** The producer's test sees a full ring exactly when one slot is left. */
  lemma FullTest(head: nat, stored: nat, cap: nat)
    requires head < cap && stored < cap
    ensures (Place(head, stored, cap) + 1) % cap == Place(head, stored + 1, cap)
    ensures Place(head, stored + 1, cap) == head <==> stored == cap - 1
    ensures Place(head, stored, cap) == head <==> stored == 0
  {
    Advance(head, stored, cap);
    PlaceOf(head, stored, cap);
    PlaceOf(head, stored + 1, cap);
    PlaceOf(Place(head, stored, cap), 1, cap);
  }

  lemma PushKeeps<T>(q: Ring<T>)
    requires Inv(q) && |q.slots| > 0
    ensures Inv(Next(q, PushStep))
  {
    hide Place, Stored;
    var cap, stored := |q.slots|, |q.pushed| - |q.popped|;
    FullTest(q.head, stored, cap);
    match q.producer
    case PushWriting(x) => StoredWrite(q.slots, q.head, stored, x);
    case PushWritten(x) =>
      StoredAppend(q.slots, q.head, stored);
      assert (q.popped + Stored(q.slots, q.head, stored)) + [x] == q.popped + (Stored(q.slots, q.head, stored) + [x]);
    case _ =>
  }

  lemma PopKeeps<T>(q: Ring<T>)
    requires Inv(q) && |q.slots| > 0
    ensures Inv(Next(q, PopStep))
  {
    hide Place, Stored;
    var cap, stored := |q.slots|, |q.pushed| - |q.popped|;
    FullTest(q.head, stored, cap);
    if q.consumer.PopRead? {
      PlaceOf(q.head, 1, cap);
      Advance(q.head, stored - 1, cap);
      StoredDrop(q.slots, q.head, stored);
      var s := Stored(q.slots, q.head, stored);
      assert s == [s[0]] + s[1..];
      assert q.popped + s == (q.popped + [s[0]]) + s[1..];
    }
  }

  lemma {:induction false} RunKeeps<T>(slots: seq<T>, steps: seq<Step<T>>)
    requires |slots| > 0
    ensures Inv(Run(slots, steps))
  {
    hide Inv;
    if steps == [] {
      EmptyOk(slots);
    } else {
      var q, last := Run(slots, steps[..|steps| - 1]), steps[|steps| - 1];
      RunKeeps(slots, steps[..|steps| - 1]);
      match last
      case PushStep => PushKeeps(q);
      case PopStep => PopKeeps(q);
      case _ => CallKeeps(q, last);
    }
  }

  lemma EmptyOk<T>(slots: seq<T>)
    requires |slots| > 0
    ensures Inv(Empty(slots))
  {
  }

  lemma CallKeeps<T>(q: Ring<T>, step: Step<T>)
    requires Inv(q) && |q.slots| > 0 && (step.CallPush? || step.CallPop?)
    ensures Inv(Next(q, step))
  {
  }

  /**
   * In every interleaving: what was popped is a prefix of what was pushed, at most capacity - 1 items are
   * stored, the consumer never reads the slot the producer is writing, and what it is about to hand out is
   * the oldest item.
   */
  lemma SafeInterleaving<T>(slots: seq<T>, steps: seq<Step<T>>)
    requires |slots| > 0
    ensures var q := Run(slots, steps);
            && q.popped <= q.pushed && |q.pushed| - |q.popped| <= |slots| - 1
            && (q.consumer.PopReading? && q.producer.PushWriting? ==> q.head != q.tail)
            && (q.consumer.PopRead? ==> q.popped + [q.consumer.x] <= q.pushed)
  {
    hide Run, Stored;
    RunKeeps(slots, steps);
    var q := Run(slots, steps);
    var stored := |q.pushed| - |q.popped|;
    FullTest(q.head, stored, |slots|);
    if q.consumer.PopRead? {
      StoredDrop(q.slots, q.head, stored);
    }
  }

  /** An undisturbed push stores its item, or waits at its check while the ring is full. */
  lemma PushCompletes<T>(q: Ring<T>, x: T)
    requires Inv(q) && |q.slots| > 0 && q.producer.PushIdle?
    ensures var checked := Next(Next(q, CallPush(x)), PushStep);
            if |q.pushed| - |q.popped| == |q.slots| - 1 then checked == q.(producer := PushChecking(x))
            else var r := Next(Next(checked, PushStep), PushStep);
                 r.producer.PushIdle? && r.pushed == q.pushed + [x] && r.popped == q.popped && r.consumer == q.consumer
  {
    hide Place, Stored;
    FullTest(q.head, |q.pushed| - |q.popped|, |q.slots|);
  }

  /** An undisturbed pop hands out the oldest item, or finds the ring empty and changes nothing. */
  lemma PopCompletes<T>(q: Ring<T>)
    requires Inv(q) && |q.slots| > 0 && q.consumer.PopIdle?
    ensures var checked := Next(Next(q, CallPop), PopStep);
            if q.pushed == q.popped then checked == q
            else var r := Next(Next(checked, PopStep), PopStep);
                 r.consumer.PopIdle? && r.popped == q.popped + [q.pushed[|q.popped|]] && r.pushed == q.pushed
                 && r.producer == q.producer
  {
    var stored := |q.pushed| - |q.popped|;
    FullTest(q.head, stored, |q.slots|);
    if stored > 0 {
      PlaceOf(q.head, 0, |q.slots|);
      assert q.pushed[|q.popped|] == Stored(q.slots, q.head, stored)[0] == q.slots[q.head];
    }
    hide Place, Stored;
  }

  // ---------------------------------------------------------------- the class, one call at a time

  class ThreadSafeQueue<T(0)> {
    const queue: array<T>
    const capacity: nat
    var head: nat
    var tail: nat

    constructor (capacity: nat)
      requires capacity > 0
      ensures Valid() && fresh(queue) && this.capacity == capacity && Contents() == []
    {
      queue := new T[capacity];
      this.capacity := capacity;
      head, tail := 0, 0;
    }

    ghost predicate Valid()
      reads this
    {
      capacity > 0 && queue.Length == capacity && head < capacity && tail < capacity
    }

    ghost function Count(): nat
      reads this
      requires Valid()
    {
      if tail >= head then tail - head else tail + capacity - head
    }

    /** The items from the head on. */
    ghost function Contents(): (s: seq<T>)
      reads this, queue
      requires Valid()
      ensures |s| == Count()
    {
      Stored(queue[..], head, Count())
    }

    /** What the indices say about places. */
    lemma TailIsPlace()
      requires Valid()
      ensures tail == Place(head, Count(), capacity) && Count() < capacity
    {
      PlaceOf(head, Count(), capacity);
    }

    /** push, once the wait for a free slot is over. */
    method Push(x: T)
      requires Valid() && Count() < capacity - 1
      modifies this`tail, queue
      ensures Valid() && Contents() == old(Contents()) + [x]
    {
      TailIsPlace();
      FullTest(head, Count(), capacity);
      StoredWrite(queue[..], head, Count(), x);
      ghost var n, slots := Count(), queue[..];
      queue[tail] := x;
      assert queue[..] == slots[Place(head, n, capacity) := x];
      StoredAppend(queue[..], head, n);
      PlaceOf(head, n + 1, capacity);
      hide Place, Stored;
      tail := (tail + 1) % capacity;
    }

    method Pop() returns (ok: bool, result: T)
      requires Valid()
      modifies this`head
      ensures Valid() && ok == (old(Contents()) != [])
      ensures Contents() == if ok then old(Contents())[1..] else old(Contents())
      ensures ok ==> result == old(Contents())[0]
    {
      result := *;
      if head == tail {
        return false, result;
      }
      TailIsPlace();
      PlaceOf(head, 1, capacity);
      StoredDrop(queue[..], head, Count());
      hide Place, Stored;
      result := queue[head];
      head := (head + 1) % capacity;
      ok := true;
    }

    /** Full exactly when one slot is left, the wait condition of push. */
    method Full() returns (full: bool)
      requires Valid()
      ensures full == (Count() == capacity - 1)
    {
      full := (tail + 1) % capacity == head;
    }

    /** size() counts the items if and only if the indices have not wrapped, or half the ring is in use. */
    method Size() returns (n: nat)
      requires Valid()
      ensures n == Count() <==> tail >= head || 2 * Count() == capacity
    {
      n := if tail >= head then tail - head else head - tail;
    }
  }
}
