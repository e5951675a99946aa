/** The shared queue of prj2/src/queue.c.

    `Ring` is the value of the C struct (its `list` array holds `capacity` ints).
    `Push` and `Pop` are what `enqueue` and `dequeue` do inside their second
    critical section, with no check of their own: that is how the debate
    protocol uses them, one thread's check being separated from its update by
    steps of the other threads.  `Queue` is the struct itself, updated in place. */
module RingQueue {

  datatype Ring = Ring(front: int, end: int, size: int, list: seq<int>)

  /** Every index the code computes stays inside the array. */
  predicate InBounds(r: Ring) {
    && (|r.list| > 0 ==> 0 <= r.front < |r.list|)
    && -1 <= r.end
  }

  /** The state invariant: `end` trails `front` by `size - 1`, modulo the capacity. */
  predicate Consistent(r: Ring) {
    && 0 <= r.size <= |r.list|
    && (|r.list| > 0 ==> 0 <= r.front < |r.list| && r.end == (r.front + r.size - 1) % |r.list|)
    && (|r.list| == 0 ==> r.front == 0 && r.end == -1)
  }

  /** The queued values, oldest first. */
  function Contents(r: Ring): (q: seq<int>)
    requires Consistent(r)
    ensures |q| == r.size
  {
    seq(r.size, k requires 0 <= k < r.size => r.list[(r.front + k) % |r.list|])
  }

  function Create(capacity: nat): (r: Ring)
    ensures Consistent(r) && Contents(r) == [] && |r.list| == capacity
  {
    Ring(0, capacity - 1, 0, seq(capacity, _ => 0))
  }

  /** The update half of `enqueue`. */
  function Push(r: Ring, x: int): (r': Ring)
    requires InBounds(r) && |r.list| > 0
    ensures InBounds(r') && |r'.list| == |r.list|
  {
    var end := (r.end + 1) % |r.list|;
    Ring(r.front, end, r.size + 1, r.list[end := x])
  }

  /** The update half of `dequeue`. */
  function Pop(r: Ring): (p: (Ring, int))
    requires InBounds(r) && |r.list| > 0
    ensures InBounds(p.0) && |p.0.list| == |r.list|
  {
    (Ring((r.front + 1) % |r.list|, r.end, r.size - 1, r.list), r.list[r.front])
  }

  /** Within one turn of the circle, `%` is a single correction by `m`. */
  lemma WrapOnce(a: int, m: int)
    requires 0 < m && -m <= a < 2 * m
    ensures a % m == if a < 0 then a + m else if a < m then a else a - m
  {
    var q, r := a / m, a % m;
    assert a == m * q + r && 0 <= r < m;
    assert q >= 2 ==> m * (q - 2) >= 0;
    assert q <= -2 ==> m * (-2 - q) >= 0;
    assert q == -1 || q == 0 || q == 1;
  }

  /** With a free slot, `Push` appends; the slot it writes is not one in use. */
  lemma PushAppends(r: Ring, x: int)
    requires Consistent(r) && r.size < |r.list|
    ensures Consistent(Push(r, x)) && Contents(Push(r, x)) == Contents(r) + [x]
  {
    var m, r' := |r.list|, Push(r, x);
    WrapOnce(r.front + r.size - 1, m);
    WrapOnce(r.end + 1, m);
    WrapOnce(r.front + r.size, m);
    assert r'.end == (r.front + r.size) % m;
    forall k | 0 <= k < r'.size
      ensures Contents(r')[k] == (Contents(r) + [x])[k]
    {
      WrapOnce(r.front + k, m);
    }
  }

  /** On a non-empty queue `Pop` removes and returns the oldest value. */
  lemma PopRemovesHead(r: Ring)
    requires Consistent(r) && r.size > 0
    ensures Consistent(Pop(r).0)
    ensures Contents(r) == [Pop(r).1] + Contents(Pop(r).0)
  {
    var m, r' := |r.list|, Pop(r).0;
    WrapOnce(r.front + 1, m);
    WrapOnce(r.front + r.size - 1, m);
    WrapOnce(r'.front + r'.size - 1, m);
    forall k | 0 <= k < r.size
      ensures Contents(r)[k] == ([Pop(r).1] + Contents(r'))[k]
    {
      WrapOnce(r.front + k, m);
      if k > 0 {
        WrapOnce(r'.front + k - 1, m);
      }
    }
  }

  /** What a full queue does to an unchecked `Push`: the size leaves its range, so the
      bound has to come from the callers (see DebateSafety.QueueNeverOverflows). */
  lemma PushOnFullBreaksQueue(r: Ring, x: int)
    requires Consistent(r) && |r.list| > 0
    ensures Consistent(Push(r, x)) <==> r.size < |r.list|
  {
    if r.size < |r.list| {
      PushAppends(r, x);
    }
  }

  // ---- Sequential runs ------------------------------------------------------

  datatype Op = Enqueue(x: int) | Dequeue | Front | End | GetSize | IsFull | IsEmpty | Clear

  /** The loop of `clear`, with `i` rounds done. */
  function ClearFrom(r: Ring, i: nat): (r': Ring)
    requires Consistent(r)
    ensures Consistent(r') && |r'.list| == |r.list|
    decreases r.size - i
  {
    if i >= r.size then r else
      PopRemovesHead(r);
      ClearFrom(Pop(r).0, i + 1)
  }

  /** What `clear` is meant to leave is nothing.  Its loop tests `i` against the size it is
      shrinking, so it stops half way. */
  function AfterClear(q: seq<int>): seq<int> {
    q[(|q| + 1) / 2..]
  }

  lemma {:induction false} ClearFromHalves(r: Ring, i: nat)
    requires Consistent(r)
    ensures ClearFrom(r, i).size == if i >= r.size then r.size else (r.size + i) / 2
    decreases r.size - i
  {
    if i < r.size {
      PopRemovesHead(r);
      hide Contents;
      ClearFromHalves(Pop(r).0, i + 1);
    }
  }

  lemma {:induction false} ClearFromLeaves(r: Ring, i: nat)
    requires Consistent(r)
    ensures Contents(ClearFrom(r, i)) == if i >= r.size then Contents(r) else Contents(r)[(r.size - i + 1) / 2..]
    decreases r.size - i
  {
    if i < r.size {
      PopRemovesHead(r);
      var q, q' := Contents(r), Contents(Pop(r).0);
      assert ClearFrom(r, i) == ClearFrom(Pop(r).0, i + 1);
      hide Contents, ClearFrom, Consistent, Pop;
      assert q[1..] == q';
      ClearFromLeaves(Pop(r).0, i + 1);
      SkipOneMore(q, (r.size - i + 1) / 2);
    }
  }

  lemma SkipOneMore(q: seq<int>, k: nat)
    requires 0 < k <= |q|
    ensures q[1..][k - 1..] == q[k..]
  {
  }

  /** When `clear` does what its name says. */
  lemma ClearEmptiesOnlyShortQueues(q: seq<int>)
    ensures AfterClear(q) == [] <==> |q| <= 1
  {
    assert |AfterClear(q)| == |q| / 2;
  }

  lemma IndicesFit(r: Ring)
    requires Consistent(r)
    ensures InBounds(r) && (|r.list| > 0 ==> 0 <= r.end < |r.list|)
  {
    if |r.list| > 0 {
      WrapOnce(r.front + r.size - 1, |r.list|);
    }
  }

  /** The code: a whole call, check and update; 0 stands for no result. */
  function Apply(r: Ring, op: Op): (p: (Ring, int))
    requires Consistent(r)
  {
    IndicesFit(r);
    match op
    case Enqueue(x) => if r.size == |r.list| then (r, -1) else (Push(r, x), r.size)
    case Dequeue => if r.size == 0 then (r, -1) else Pop(r)
    case Front => (r, if r.size == 0 then -1 else r.list[r.front])
    case End => (r, if r.size == 0 then -1 else r.list[r.end])
    case GetSize => (r, r.size)
    case IsFull => (r, if r.size == |r.list| then 1 else 0)
    case IsEmpty => (r, if r.size == 0 then 1 else 0)
    case Clear => (ClearFrom(r, 0), 0)
  }

  /** The reference: a bounded first-in first-out sequence, with the `clear` of the code. */
  function ApplySeq(q: seq<int>, capacity: nat, op: Op): (p: (seq<int>, int)) {
    match op
    case Enqueue(x) => if |q| == capacity then (q, -1) else (q + [x], |q|)
    case Dequeue => if q == [] then (q, -1) else (q[1..], q[0])
    case Front => (q, if q == [] then -1 else q[0])
    case End => (q, if q == [] then -1 else q[|q| - 1])
    case GetSize => (q, |q|)
    case IsFull => (q, if |q| == capacity then 1 else 0)
    case IsEmpty => (q, if q == [] then 1 else 0)
    case Clear => (AfterClear(q), 0)
  }

  lemma ApplyRefines(r: Ring, op: Op)
    requires Consistent(r)
    ensures Consistent(Apply(r, op).0) && |Apply(r, op).0.list| == |r.list|
    ensures (Contents(Apply(r, op).0), Apply(r, op).1) == ApplySeq(Contents(r), |r.list|, op)
  {
    if op.Enqueue? && r.size < |r.list| {
      PushAppends(r, op.x);
    } else if op.Dequeue? && r.size > 0 {
      PopRemovesHead(r);
    } else if op.Front? && r.size > 0 {
      WrapOnce(r.front, |r.list|);
    } else if op.End? {
      IndicesFit(r);
    } else if op.Clear? {
      ClearFromLeaves(r, 0);
    }
  }

  /** Results of a whole run of calls, on the ring and on the reference. */
  function Outputs(r: Ring, ops: seq<Op>): (out: seq<int>)
    requires Consistent(r)
    decreases |ops|
  {
    if ops == [] then [] else
      ApplyRefines(r, ops[0]);
      [Apply(r, ops[0]).1] + Outputs(Apply(r, ops[0]).0, ops[1..])
  }

  function OutputsSeq(q: seq<int>, capacity: nat, ops: seq<Op>): (out: seq<int>)
    decreases |ops|
  {
    if ops == [] then [] else
      [ApplySeq(q, capacity, ops[0]).1] + OutputsSeq(ApplySeq(q, capacity, ops[0]).0, capacity, ops[1..])
  }

  /** Refinement: no sequential run can tell the circular buffer from a bounded sequence. */
  lemma {:induction false} RunRefines(r: Ring, ops: seq<Op>)
    requires Consistent(r)
    ensures Outputs(r, ops) == OutputsSeq(Contents(r), |r.list|, ops)
    decreases |ops|
  {
    if ops != [] {
      ApplyRefines(r, ops[0]);
      RunRefines(Apply(r, ops[0]).0, ops[1..]);
    }
  }

  /** What one call puts into the queue, and what it takes out. */
  function Came(r: Ring, op: Op): seq<int>
    requires Consistent(r)
  {
    if op.Enqueue? && Apply(r, op).1 != -1 then [op.x] else []
  }

  function Went(r: Ring, op: Op): seq<int>
    requires Consistent(r)
  {
    if op.Dequeue? && r.size > 0 then [Apply(r, op).1] else []
  }

  /** What a run puts in, what it takes out, and the queue that is left. */
  function Flow(r: Ring, ops: seq<Op>): (f: (seq<int>, seq<int>, Ring))
    requires Consistent(r)
    ensures Consistent(f.2)
    decreases |ops|
  {
    if ops == [] then ([], [], r) else
      ApplyRefines(r, ops[0]);
      var (came, went, last) := Flow(Apply(r, ops[0]).0, ops[1..]);
      (Came(r, ops[0]) + came, Went(r, ops[0]) + went, last)
  }

  lemma CallFlows(r: Ring, op: Op)
    requires Consistent(r) && !op.Clear?
    ensures Consistent(Apply(r, op).0)
    ensures Contents(r) + Came(r, op) == Went(r, op) + Contents(Apply(r, op).0)
  {
    ApplyRefines(r, op);
    if op.Dequeue? && r.size > 0 {
      assert Contents(r) == [Contents(r)[0]] + Contents(r)[1..];
    }
  }

  lemma Regroup(q: seq<int>, a: seq<int>, b: seq<int>, q': seq<int>, c: seq<int>, d: seq<int>, l: seq<int>)
    requires q + a == b + q' && q' + c == d + l
    ensures q + (a + c) == (b + d) + l
  {
    assert q + (a + c) == (q + a) + c == b + (q' + c) == (b + d) + l;
  }

  /** First in, first out, over every run without `clear`: what was queued at first and what was
      put in since is what was taken out and what is left, in that order. */
  lemma {:induction false} FirstInFirstOut(r: Ring, ops: seq<Op>)
    requires Consistent(r) && Clear !in ops
    ensures var (came, went, last) := Flow(r, ops);
      Contents(r) + came == went + Contents(last)
    decreases |ops|
  {
    if ops != [] {
      assert ops[0] in ops && Clear !in ops[1..];
      hide Apply, Contents, Consistent, Came, Went;
      CallFlows(r, ops[0]);
      var r' := Apply(r, ops[0]).0;
      FirstInFirstOut(r', ops[1..]);
      var (came, went, last) := Flow(r', ops[1..]);
      Regroup(Contents(r), Came(r, ops[0]), Went(r, ops[0]), Contents(r'), came, went, Contents(last));
    }
  }

  // ---- The struct, updated in place -----------------------------------------

  class Queue {
    var front: int
    var end: int
    var size: int
    const capacity: nat
    const list: array<int>

    ghost function Value(): Ring
      reads this, list
    {
      Ring(front, end, size, list[..])
    }

    ghost predicate Valid()
      reads this, list
    {
      list.Length == capacity && Consistent(Value())
    }

    constructor (capacity: nat)
      ensures Valid() && Contents(Value()) == [] && this.capacity == capacity && fresh(list)
    {
      this.capacity := capacity;
      front, end, size := 0, capacity - 1, 0;
      list := new int[capacity];
    }

    method IsFull() returns (full: bool)
      requires Valid()
      ensures full <==> |Contents(Value())| == capacity
    {
      full := size == capacity;
    }

    method IsEmpty() returns (empty: bool)
      requires Valid()
      ensures empty <==> Contents(Value()) == []
    {
      empty := size == 0;
    }

    method Enqueue(data: int) returns (answer: int)
      requires Valid()
      modifies this, list
      ensures Valid()
      ensures |old(Contents(Value()))| == capacity ==> answer == -1 && Contents(Value()) == old(Contents(Value()))
      ensures |old(Contents(Value()))| < capacity ==>
        answer == |old(Contents(Value()))| && Contents(Value()) == old(Contents(Value())) + [data]
    {
      var full := IsFull();
      if full {
        return -1;
      }
      ghost var r := Value();
      PushAppends(r, data);
      WrapOnce(end + 1, capacity);
      end := (end + 1) % capacity;
      list[end] := data;
      answer := size;
      size := size + 1;
      assert Value() == Push(r, data);
    }

    method Dequeue() returns (data: int)
      requires Valid()
      modifies this
      ensures Valid()
      ensures old(Contents(Value())) == [] ==> data == -1 && Contents(Value()) == []
      ensures old(Contents(Value())) != [] ==> old(Contents(Value())) == [data] + Contents(Value())
    {
      var empty := IsEmpty();
      if empty {
        return -1;
      }
      ghost var r := Value();
      PopRemovesHead(r);
      data := list[front];
      front := (front + 1) % capacity;
      size := size - 1;
      assert Value() == Pop(r).0;
    }

    method Front() returns (data: int)
      requires Valid()
      ensures data == if Contents(Value()) == [] then -1 else Contents(Value())[0]
    {
      var empty := IsEmpty();
      if empty {
        return -1;
      }
      WrapOnce(front, capacity);
      data := list[front];
    }

    method End() returns (data: int)
      requires Valid()
      ensures var q := Contents(Value()); data == if q == [] then -1 else q[|q| - 1]
    {
      var empty := IsEmpty();
      if empty {
        return -1;
      }
      WrapOnce(front + size - 1, capacity);
      data := list[end];
    }

    method GetSize() returns (answer: int)
      requires Valid()
      ensures answer == |Contents(Value())|
    {
      answer := size;
    }

    /** Meant to empty the queue: half of the values, rounded up, are removed. */
    method Clear()
      requires Valid()
      modifies this
      ensures Valid()
      ensures Contents(Value()) == AfterClear(old(Contents(Value())))
    {
      var i := 0;
      ghost var q := Contents(Value());
      while i < size
        invariant Valid()
        invariant 0 <= 2 * i <= |q| + 1 && Contents(Value()) == q[i..]
      {
        var _ := Dequeue();
        assert q[i..][1..] == q[i + 1..];
        i := i + 1;
      }
    }
  }
}
