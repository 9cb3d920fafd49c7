/** The circular queue of a2/starter/fifo.c. */
module Queues {
  import opened Turns

  const EMPTY_QUEUE_SLOT := -1

  /** A queue of non-negative integers in a ring of size slots; items are its elements, front first. */
  class Queue {
    const size: nat
    var front: nat
    var back: nat
    const contents: array<int>
    ghost var items: seq<nat>

    ghost predicate Valid()
      reads this, contents
    {
      && 0 < size == contents.Length && front < size && |items| <= size
      && back == Turn(front + |items|, size)
      && forall j {:trigger SlotOk(j)} :: 0 <= j < size ==> SlotOk(j)
    }

    /** The slot j places behind the front holds item j, or is empty. */
    ghost predicate SlotOk(j: nat)
      requires 0 < size == contents.Length
      reads this, contents
    {
      contents[Turn(front + j, size)] == if j < |items| then items[j] else EMPTY_QUEUE_SLOT
    }

    constructor (size: nat)
      requires 0 < size
      ensures Valid() && fresh(contents) && this.size == size
      ensures items == []
    {
      this.size := size;
      front, back := 0, 0;
      contents := new int[size](_ => EMPTY_QUEUE_SLOT);
      items := [];
      new;
    }

    /** Puts a value at the back.  The slot written to is empty: no element is overwritten. */
    method Enqueue(value: nat)
      requires Valid() && |items| < size
      modifies this, contents
      ensures Valid() && items == old(items) + [value]
    {
      assert SlotOk(|items|);
      assert contents[back] == EMPTY_QUEUE_SLOT;
      contents[back] := value;
      back := (back + 1) % size;
      items := items + [value];
      TurnIsMod(old(back) + 1, size);
      TurnOn(front + |old(items)|, 1, size);
      assert front + |old(items)| + 1 == front + |items|;
      forall j | 0 <= j < size ensures SlotOk(j) {
        assert old(SlotOk(j));
        TurnsDiffer(front, |old(items)|, j, size);
      }
    }

    /** Takes the value at the front, or EMPTY_QUEUE_SLOT when the queue is empty. */
    method Dequeue() returns (ret: int)
      requires Valid()
      modifies this, contents
      ensures Valid()
      ensures if old(items) == [] then ret == EMPTY_QUEUE_SLOT && items == []
              else ret == old(items)[0] && items == old(items)[1..]
    {
      assert SlotOk(0);
      ret := contents[front];
      if ret != EMPTY_QUEUE_SLOT {
        contents[front] := EMPTY_QUEUE_SLOT;
        front := (front + 1) % size;
        items := items[1..];
        TurnIsMod(old(front) + 1, size);
        TurnOn(old(front) + 1, |items|, size);
        assert old(front) + 1 + |items| == old(front) + |old(items)|;
        forall j | 0 <= j < size ensures SlotOk(j) {
          TurnNext(old(front), j, size);
          assert j + 1 < size ==> old(SlotOk(j + 1));
        }
      }
    }

    /** Whether the value is in the queue; all slots are looked at. */
    method Contains(value: nat) returns (b: bool)
      requires Valid()
      ensures b == (value in items)
    {
      for i := 0 to size
        invariant forall j :: 0 <= j < i ==> contents[j] != value
      {
        if contents[i] == value {
          var j := if front <= i then i - front else i + size - front;
          assert SlotOk(j) && Turn(front + j, size) == i;
          return true;
        }
      }
      forall j | 0 <= j < |items| ensures items[j] != value {
        assert SlotOk(j);
      }
      return false;
    }
  }

  /** Different distances below k lead to different places. */
  lemma TurnsDiffer(f: nat, a: nat, b: nat, k: nat)
    requires f < k && a < k && b < k
    ensures Turn(f + a, k) == Turn(f + b, k) <==> a == b
  {
    assert f + a < k || (f + a) - k < k;
    assert f + b < k || (f + b) - k < k;
  }
}
