/** The bounded rings of include/inv_ipc.h: a fixed array of slots with a head and a tail index. */
module Rings {

  const CAPACITY := 2048

  datatype Ring<T> = Ring(slots: seq<T>, head: nat, tail: nat)

  predicate Fits<T>(r: Ring<T>) {
    |r.slots| == CAPACITY && r.head < CAPACITY && r.tail < CAPACITY
  }

  /** The critical section of enqueue_job and enqueue_result. */
  function Put<T>(r: Ring<T>, x: T): (s: Ring<T>)
    requires Fits(r)
    ensures Fits(s)
  {
    Ring(r.slots[r.tail := x], r.head, (r.tail + 1) % CAPACITY)
  }

  /** The item the critical section of dequeue_job and dequeue_result reads ... */
  function First<T>(r: Ring<T>): T
    requires Fits(r)
  {
    r.slots[r.head]
  }

  /** ... and the ring it leaves. */
  function Drop<T>(r: Ring<T>): (s: Ring<T>)
    requires Fits(r)
    ensures Fits(s)
  {
    r.(head := (r.head + 1) % CAPACITY)
  }

  /** The slot i places after the head. */
  function Slot(head: nat, i: nat): (k: nat)
    ensures k < CAPACITY
  {
    (head + i) % CAPACITY
  }

  /** The n items from the head on. */
  function Queue<T>(r: Ring<T>, n: nat): (q: seq<T>)
    requires Fits(r)
    ensures |q| == n
    ensures forall i :: 0 <= i < n ==> q[i] == r.slots[Slot(r.head, i)]
  {
    seq(n, i requires 0 <= i < n => r.slots[Slot(r.head, i)])
  }

  /** The tail is n slots ahead of the head. */
  predicate Spans<T>(r: Ring<T>, n: int) {
    Fits(r) && 0 <= n <= CAPACITY && r.tail == Slot(r.head, n)
  }

  /** With a free slot, an item put in joins the end of the queue and overwrites nothing in it. */
  lemma PutJoins<T>(r: Ring<T>, n: nat, x: T)
    requires Spans(r, n) && n < CAPACITY
    ensures Spans(Put(r, x), n + 1) && Queue(Put(r, x), n + 1) == Queue(r, n) + [x]
  {
    var s := Put(r, x);
    forall i | 0 <= i < n ensures s.slots[Slot(s.head, i)] == r.slots[Slot(r.head, i)] {
      SlotsDiffer(r.head, i, n);
    }
    assert Queue(s, n + 1)[n] == x;
  }

  lemma SlotsDiffer(head: nat, i: nat, n: nat)
    requires head < CAPACITY && i < n < CAPACITY
    ensures Slot(head, i) != Slot(head, n)
  {}

  /** With something queued, the item read is the oldest, and the rest keep their order. */
  lemma DropLeaves<T>(r: Ring<T>, n: nat)
    requires Spans(r, n) && n > 0
    ensures First(r) == Queue(r, n)[0] && Spans(Drop(r), n - 1) && Queue(Drop(r), n - 1) == Queue(r, n)[1..]
  {
    hide Slot;
    var s := Drop(r);
    HeadSlotIs(r.head);
    SlotBeforeTail(r.head, n);
    forall i | 0 <= i < n - 1 ensures Slot(s.head, i) == Slot(r.head, i + 1) {
      NextSlot(r.head, i);
    }
  }

  lemma HeadSlotIs(head: nat)
    requires head < CAPACITY
    ensures Slot(head, 0) == head
  {}

  lemma SlotBeforeTail(head: nat, n: nat)
    requires head < CAPACITY && 0 < n <= CAPACITY
    ensures Slot((head + 1) % CAPACITY, n - 1) == Slot(head, n)
  {}

  lemma NextSlot(head: nat, i: nat)
    requires head < CAPACITY && i < CAPACITY
    ensures Slot((head + 1) % CAPACITY, i) == Slot(head, i + 1)
  {}

  /** How far the tail is ahead, as far as the two indices tell: a full ring looks empty. */
  function Distance<T>(r: Ring<T>): (n: nat)
    requires Fits(r)
    ensures n < CAPACITY
  {
    (r.tail + CAPACITY - r.head) % CAPACITY
  }

  /** What a loop that reads until the head meets the tail gets. */
  function Pending<T>(r: Ring<T>): seq<T>
    requires Fits(r)
  {
    Queue(r, Distance(r))
  }

  /** Reading until head meets tail gets everything queued, exactly unless the ring is full; then it gets nothing. */
  lemma PendingIsQueue<T>(r: Ring<T>, n: nat)
    requires Spans(r, n)
    ensures Pending(r) == (if n < CAPACITY then Queue(r, n) else [])
    ensures Pending(r) == Queue(r, n) <==> n < CAPACITY
  {}

  /** One ring in shared memory, used only inside the critical sections of its mutex; `queued` is its counter in the
      shared header. The semaphores are part of the pool. */
  class SharedRing<T(0)> {
    const slots: array<T>
    var head: nat
    var tail: nat
    var queued: int

    constructor ()
      ensures Valid() && Contents() == [] && fresh(slots)
    {
      slots := new T[CAPACITY];
      head, tail, queued := 0, 0, 0;
    }

    ghost function Value(): Ring<T>
      reads this, slots
    {
      Ring(slots[..], head, tail)
    }

    ghost predicate Valid()
      reads this, slots
    {
      slots.Length == CAPACITY && Spans(Value(), queued)
    }

    ghost function Contents(): seq<T>
      requires Valid()
      reads this, slots
    {
      Queue(Value(), queued)
    }

    /** What the mutex protects in enqueue_job and enqueue_result; a free slot is what job_empty promised. */
    method Insert(x: T)
      requires Valid() && queued < CAPACITY
      modifies this, slots
      ensures Valid() && Contents() == old(Contents()) + [x]
      ensures Value() == Put(old(Value()), x)
    {
      PutJoins(Value(), queued, x);
      slots[tail] := x;
      tail := (tail + 1) % CAPACITY;
      queued := queued + 1;
      assert slots[..] == old(slots[..])[old(tail) := x];
    }

    /** What the mutex protects in dequeue_job and dequeue_result; a queued item is what job_full promised. */
    method Remove() returns (x: T)
      requires Valid() && queued > 0
      modifies this
      ensures Valid() && old(Contents()) == [x] + Contents()
      ensures Value() == Drop(old(Value())) && x == First(old(Value()))
    {
      DropLeaves(Value(), queued);
      x := slots[head];
      head := (head + 1) % CAPACITY;
      queued := queued - 1;
    }
  }
}
