/** The fixed-capacity ring buffer of CircularQueueDemo.java: an `int` array of
    length `size` with a `front` and a `rear` index, both -1 while the queue is empty. */
module CircularQueueDemo {

  class CircularQueue {
    var front: int
    var rear: int
    const queue: array<int>
    const size: int

    /** The object invariant: `front` and `rear` are -1 together, and otherwise
        both are valid indices of the buffer. */
    ghost predicate Valid()
      reads this
    {
      && size > 0
      && queue.Length == size
      && (front == -1 <==> rear == -1)
      && (front != -1 ==> 0 <= front < size && 0 <= rear < size)
    }

    /** The queued elements, oldest first: the slots from `front` to `rear`,
        wrapping past the end of the buffer when `rear < front`. */
    ghost function Contents(): (s: seq<int>)
      reads this, queue
      requires Valid()
      ensures |s| <= size
    {
      if front == -1 then []
      else if front <= rear then queue[front..rear + 1]
      else queue[front..] + queue[..rear + 1]
    }

    /** A new queue is empty and has both indices at -1. Java's `new int[size]`
        and the later `% size` need a positive size. */
    constructor (size: int)
      requires size > 0
      ensures Valid() && fresh(queue)
      ensures this.size == size && front == -1 && rear == -1
      ensures Contents() == []
    {
      this.size := size;
      queue := new int[size];
      front, rear := -1, -1;
    }

    predicate IsFull()
      reads this
      requires Valid()
      ensures IsFull() <==> |Contents()| == size
    {
      (front == 0 && rear == size - 1) || (rear + 1 == front)
    }

    predicate IsEmpty()
      reads this
      requires Valid()
      ensures IsEmpty() <==> Contents() == []
    {
      front == -1
    }

    /** Appends `data` at the back; a full queue is left as it is (the source
        only prints a message). */
    method Enqueue(data: int)
      requires Valid()
      modifies this, queue
      ensures Valid()
      ensures old(IsFull()) ==> Contents() == old(Contents()) && front == old(front) && rear == old(rear)
      ensures !old(IsFull()) ==> Contents() == old(Contents()) + [data]
      ensures old(IsEmpty()) ==> front == 0 && rear == 0
    {
      if IsFull() {
        return;
      }
      ghost var was := Contents();
      if front == -1 {
        front := 0;
      }
      Step(rear, size);
      rear := (rear + 1) % size;
      queue[rear] := data;
      if front <= rear {
        assert queue[front..rear + 1] == queue[front..rear] + [data];
      } else {
        assert queue[..rear + 1] == queue[..rear] + [data];
      }
    }

    /** Removes the front element; an empty queue is left as it is. Removing the
        last element puts both indices back to -1. */
    method Dequeue()
      requires Valid()
      modifies this
      ensures Valid()
      ensures old(IsEmpty()) ==> Contents() == old(Contents()) && front == -1 && rear == -1
      ensures !old(IsEmpty()) ==> Contents() == old(Contents())[1..]
      ensures |old(Contents())| == 1 ==> front == -1 && rear == -1
    {
      if IsEmpty() {
        return;
      }
      if front == rear {
        front, rear := -1, -1;
      } else {
        Step(front, size);
        front := (front + 1) % size;
      }
    }

    /** The slots `display` visits, if `rear < front` by wrapping: exactly
        the ones holding queued elements. */
    ghost predicate OnPath(i: int)
      reads this
    {
      if front <= rear then front <= i <= rear else 0 <= i <= rear || front <= i < size
    }

    /** What `display` has printed on reaching slot `i`. */
    ghost function Walked(i: int): seq<int>
      reads this, queue
      requires Valid() && front != -1 && 0 <= i < size
    {
      if front <= i then queue[front..i] else queue[front..] + queue[..i]
    }

    /** A step from a slot on the path other than `rear` stays on the path and
        prints one more element. */
    lemma WalkedStep(i: int)
      requires Valid() && front != -1 && OnPath(i) && i != rear
      ensures OnPath((i + 1) % size)
      ensures Walked((i + 1) % size) == Walked(i) + [queue[i]]
    {
      Step(i, size);
      if i + 1 == size {
        assert Walked(0) == queue[front..] + queue[..0];
      } else if front <= i {
        assert queue[front..i + 1] == queue[front..i] + [queue[i]];
      } else {
        assert queue[..i + 1] == queue[..i] + [queue[i]];
      }
    }

    /** Printing `rear` completes the queue's contents. */
    lemma WalkedEnd()
      requires Valid() && front != -1
      ensures Walked(rear) + [queue[rear]] == Contents()
    {
      if front <= rear {
        assert queue[front..rear + 1] == queue[front..rear] + [queue[rear]];
      } else {
        assert queue[..rear + 1] == queue[..rear] + [queue[rear]];
      }
    }

    /** The elements `display` prints, in the order it prints them: from
        `front`, stepping modulo `size`, until `rear`. */
    method Display() returns (shown: seq<int>)
      requires Valid()
      ensures shown == Contents()
    {
      shown := [];
      if IsEmpty() {
        return;
      }
      var i := front;
      while true
        invariant 0 <= i < size && OnPath(i)
        invariant shown == Walked(i)
        decreases if i <= rear then rear - i else size - i + rear
      {
        shown := shown + [queue[i]];
        if i == rear {
          WalkedEnd();
          break;
        }
        WalkedStep(i);
        i := (i + 1) % size;
      }
    }
  }

  /** One step of `(i + 1) % size` from a valid index. */
  lemma Step(i: int, size: int)
    requires 0 < size && -1 <= i < size
    ensures (i + 1) % size == if i + 1 == size then 0 else i + 1
  {
  }

  /** The run in `main`: enqueue 10, 20 and 30 into a queue of five, then dequeue. */
  method DemoRun() returns (before: seq<int>, after: seq<int>)
    ensures before == [10, 20, 30]
    ensures after == [20, 30]
  {
    var cq := new CircularQueue(5);
    cq.Enqueue(10);
    cq.Enqueue(20);
    cq.Enqueue(30);
    before := cq.Display();
    cq.Dequeue();
    after := cq.Display();
  }
}
