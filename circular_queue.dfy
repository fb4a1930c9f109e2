/** A fixed-capacity circular queue of integers (homework/hw2).
    The queue lives in a slot array with a start pointer, an end pointer and an
    element count. Push and Pop report failure with a bool; Front and Back
    return the sentinel -1 on an empty queue. */
module CircularQueues {

  /** The step both `incEndPointer` and `incStartPointer` take: to the next
      slot, wrapping from the last slot back to slot 0. */
  function Advance(p: int, cap: int): (q: int)
    requires 0 < cap && -1 <= p < cap
    ensures 0 <= q < cap
    ensures q == p + 1 || (p == cap - 1 && q == 0)
  {
    if p == cap - 1 then 0 else p + 1
  }

  class CircularQueue {
    var values: array<int>
    var elementsInQueue: int
    var pointerStart: int
    var pointerEnd: int

    /** The slot that holds the k-th oldest element (k may be the count). */
    ghost function Slot(k: int): int
      reads this
    {
      if pointerStart + k < values.Length then pointerStart + k
      else pointerStart + k - values.Length
    }

    /** How many steps from the start pointer slot i lies. */
    ghost function Offset(i: int): int
      reads this
    {
      if i >= pointerStart then i - pointerStart else i + values.Length - pointerStart
    }

    /** The slot the next Push writes to. */
    ghost function NextEnd(): int
      reads this
    {
      if pointerEnd == values.Length - 1 then 0 else pointerEnd + 1
    }

    /** The object invariant: counts and pointers in range, the end pointer one
        slot behind the first free slot, and every free slot zero. */
    ghost predicate Valid()
      reads this, values
    {
      var cap := values.Length;
      0 <= elementsInQueue <= cap &&
      (cap == 0 ==> pointerStart == 0 && pointerEnd == -1) &&
      (cap > 0 ==> 0 <= pointerStart < cap) &&
      -1 <= pointerEnd < cap &&
      (pointerEnd == -1 ==> pointerStart == 0 && elementsInQueue == 0) &&
      NextEnd() == Slot(elementsInQueue) &&
      (forall i :: 0 <= i < cap && Offset(i) >= elementsInQueue ==> values[i] == 0)
    }

    /** The queue's contents, oldest first. */
    ghost function Contents(): seq<int>
      reads this, values
      requires Valid()
    {
      seq(elementsInQueue, k requires 0 <= k < elementsInQueue && Valid() reads this, values => values[Slot(k)])
    }

    /** NewCircularQueue: `size` zeroed slots, no element, start 0, end -1. */
    constructor (size: nat)
      ensures Valid() && fresh(values)
      ensures Contents() == []
      ensures values.Length == size && values[..] == seq(size, _ => 0)
      ensures elementsInQueue == 0 && pointerStart == 0 && pointerEnd == -1
    {
      values := new int[size](_ => 0);
      elementsInQueue := 0;
      pointerStart := 0;
      pointerEnd := -1;
    }

    function Empty(): (b: bool)
      reads this, values
      requires Valid()
      ensures b <==> Contents() == []
    {
      elementsInQueue == 0
    }

    function Full(): (b: bool)
      reads this, values
      requires Valid()
      ensures b <==> |Contents()| == values.Length
    {
      elementsInQueue == values.Length
    }

    /** The oldest element, or -1 when the queue is empty. */
    function Front(): (v: int)
      reads this, values
      requires Valid()
      ensures v == if Contents() == [] then -1 else Contents()[0]
    {
      if Empty() then -1 else values[pointerStart]
    }

    /** The newest element, or -1 when the queue is empty. */
    function Back(): (v: int)
      reads this, values
      requires Valid()
      ensures v == if Contents() == [] then -1 else Contents()[|Contents()| - 1]
    {
      if Empty() then -1 else values[pointerEnd]
    }

    method IncEndPointer()
      requires 0 < values.Length && -1 <= pointerEnd < values.Length
      modifies this`pointerEnd
      ensures pointerEnd == Advance(old(pointerEnd), values.Length)
    {
      if pointerEnd == values.Length - 1 {
        pointerEnd := 0;
        return;
      }
      pointerEnd := pointerEnd + 1;
    }

    method IncStartPointer()
      requires 0 <= pointerStart < values.Length
      modifies this`pointerStart
      ensures pointerStart == Advance(old(pointerStart), values.Length)
    {
      if pointerStart == values.Length - 1 {
        pointerStart := 0;
        return;
      }
      pointerStart := pointerStart + 1;
    }

    /** Appends `value` unless the queue is full. */
    method Push(value: int) returns (ok: bool)
      requires Valid()
      modifies this, values
      ensures Valid() && values == old(values)
      ensures ok == !old(Full())
      ensures ok ==> Contents() == old(Contents()) + [value]
      ensures ok ==> pointerEnd == Advance(old(pointerEnd), values.Length)
                     && values[..] == old(values[..])[pointerEnd := value]
                     && elementsInQueue == old(elementsInQueue) + 1
                     && pointerStart == old(pointerStart)
      ensures !ok ==> unchanged(this, values)
    {
      if Full() {
        return false;
      }
      ghost var before := Contents();
      IncEndPointer();
      values[pointerEnd] := value;
      elementsInQueue := elementsInQueue + 1;
      assert forall k :: 0 <= k < elementsInQueue - 1 ==> Slot(k) != pointerEnd;
      assert Contents() == before + [value];
      return true;
    }

    /** Removes the oldest element unless the queue is empty; its slot is zeroed. */
    method Pop() returns (ok: bool)
      requires Valid()
      modifies this, values
      ensures Valid() && values == old(values)
      ensures ok == !old(Empty())
      ensures ok ==> Contents() == old(Contents())[1..]
      ensures ok ==> values[..] == old(values[..])[old(pointerStart) := 0]
                     && elementsInQueue == old(elementsInQueue) - 1
                     && pointerStart == Advance(old(pointerStart), values.Length)
                     && pointerEnd == old(pointerEnd)
      ensures !ok ==> unchanged(this, values)
    {
      if Empty() {
        return false;
      }
      ghost var before := Contents();
      ghost var oldStart := pointerStart;
      values[pointerStart] := 0;
      elementsInQueue := elementsInQueue - 1;
      IncStartPointer();
      assert forall k :: 0 <= k < elementsInQueue ==> Slot(k) != oldStart;
      assert Contents() == before[1..];
      return true;
    }
  }

  /** The first half of TestCircularQueue at capacity 3: the probes of the
      empty queue, a Pop that fails, three Pushes that fill it and a fourth that
      fails. */
  method FillSample()
    returns (q: CircularQueue, emptyAtStart: bool, fullAtStart: bool, frontEmpty: int,
             backEmpty: int, pushes: seq<bool>, popped: bool)
    ensures fresh(q) && fresh(q.values) && q.Valid() && q.values.Length == 3
    ensures emptyAtStart && !fullAtStart && frontEmpty == -1 && backEmpty == -1
    ensures pushes == [true, true, true, false] && !popped
    ensures q.Contents() == [1, 2, 3] && q.values[..] == [1, 2, 3]
    ensures q.pointerStart == 0 && q.pointerEnd == 2 && q.elementsInQueue == 3
  {
    q := new CircularQueue(3);
    emptyAtStart, fullAtStart := q.Empty(), q.Full();
    frontEmpty, backEmpty := q.Front(), q.Back();
    popped := q.Pop();
    var a := q.Push(1);
    assert q.Contents() == [1] && q.pointerEnd == 0;
    var b := q.Push(2);
    assert q.Contents() == [1, 2] && q.pointerEnd == 1;
    var c := q.Push(3);
    assert q.Contents() == [1, 2, 3] && q.pointerEnd == 2;
    var d := q.Push(4);
    pushes := [a, b, c, d];
  }

  /** The middle of TestCircularQueue: on the full queue [1, 2, 3], a Pop frees
      slot 0, leaving the queue neither empty nor full, and a Push of 4 wraps
      the end pointer around into it. */
  method WrapSample(q: CircularQueue)
    returns (popped: bool, emptyAfterPop: bool, fullAfterPop: bool, pushed: bool,
             wrapped: seq<int>, front: int, back: int)
    requires q.Valid() && q.values.Length == 3 && q.values[..] == [1, 2, 3]
    requires q.pointerStart == 0 && q.pointerEnd == 2 && q.elementsInQueue == 3
    modifies q, q.values
    ensures q.Valid() && q.values == old(q.values) && q.Contents() == [2, 3, 4]
    ensures popped && !emptyAfterPop && !fullAfterPop
    ensures pushed && wrapped == [4, 2, 3] && front == 2 && back == 4
  {
    popped := q.Pop();
    assert q.values[..] == [0, 2, 3] && q.pointerStart == 1 && q.pointerEnd == 2;
    emptyAfterPop, fullAfterPop := q.Empty(), q.Full();
    pushed := q.Push(4);
    assert q.values[..] == [4, 2, 3] && q.pointerEnd == 0 && q.elementsInQueue == 3;
    wrapped := q.values[..];
    front, back := q.Front(), q.Back();
  }

  /** The calls of TestCircularQueue at capacity 3 and the results its
      assertions expect: what each call reports, and the slot layout after
      filling the queue and after wrapping around once. */
  method TestCircularQueue()
    returns (emptyAtStart: bool, fullAtStart: bool, frontEmpty: int, backEmpty: int,
             pushes: seq<bool>, pops: seq<bool>, filled: seq<int>,
             emptyWhenFilled: bool, fullWhenFilled: bool, frontWhenFilled: int, backWhenFilled: int,
             emptyAfterPop: bool, fullAfterPop: bool, wrapped: seq<int>,
             front: int, back: int, emptyAtEnd: bool, fullAtEnd: bool)
    ensures emptyAtStart && !fullAtStart && frontEmpty == -1 && backEmpty == -1
    ensures !emptyWhenFilled && fullWhenFilled && frontWhenFilled == 1 && backWhenFilled == 3
    ensures !emptyAfterPop && !fullAfterPop
    ensures pushes == [true, true, true, false, true]
    ensures pops == [false, true, true, true, true, false]
    ensures filled == [1, 2, 3] && wrapped == [4, 2, 3]
    ensures front == 2 && back == 4
    ensures emptyAtEnd && !fullAtEnd
  {
    var q, firstPushes, p0;
    q, emptyAtStart, fullAtStart, frontEmpty, backEmpty, firstPushes, p0 := FillSample();
    filled := q.values[..];
    emptyWhenFilled, fullWhenFilled := q.Empty(), q.Full();
    frontWhenFilled, backWhenFilled := q.Front(), q.Back();
    var p1, e;
    p1, emptyAfterPop, fullAfterPop, e, wrapped, front, back := WrapSample(q);
    var p2 := q.Pop();
    assert q.Contents() == [3, 4];
    var p3 := q.Pop();
    assert q.Contents() == [4];
    var p4 := q.Pop();
    assert q.Contents() == [];
    var p5 := q.Pop();
    emptyAtEnd, fullAtEnd := q.Empty(), q.Full();
    pushes := firstPushes + [e];
    pops := [p0, p1, p2, p3, p4, p5];
  }
}
