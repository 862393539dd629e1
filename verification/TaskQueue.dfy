/** The doubly linked task queues of kernel/muxx_taskqueues.c. */
module TaskQueue {
  import opened Lists

  class TCB {
    var status: int
    var clockTicks: int
    var nextInQueue: TCB?
    var prevInQueue: TCB?
    const uic: int
    const operprv: bool

    constructor (uic: int, operprv: bool)
      ensures nextInQueue == null && prevInQueue == null && this.uic == uic && this.operprv == operprv
    {
      this.uic, this.operprv := uic, operprv;
      status, clockTicks, nextInQueue, prevInQueue := 0, 0, null, null;
    }
  }

  function At(s: seq<TCB>, i: int): (t: TCB?)
    ensures 0 <= i < |s| ==> t != null
  {
    if 0 <= i < |s| then s[i] else null
  }

  /** A task points to its neighbours, or to nothing. */
  ghost predicate LinkAt(s: seq<TCB>, i: int)
    requires 0 <= i < |s|
    reads s[i]
  {
    s[i].nextInQueue == At(s, i + 1) && s[i].prevInQueue == At(s, i - 1)
  }

  ghost predicate Linked(s: seq<TCB>)
    reads s
  {
    && Distinct(s)
    && (forall i {:trigger LinkAt(s, i)} :: 0 <= i < |s| ==> LinkAt(s, i))
  }

  class TQueue {
    var head: TCB?
    var tail: TCB?
    var count: int
    ghost var elems: seq<TCB>   // the tasks, first come first

    /** The queue holds exactly these tasks, in this order. */
    ghost predicate Is(s: seq<TCB>)
      reads `head, `tail, `count, s
    {
      count == |s| && head == At(s, 0) && tail == At(s, |s| - 1) && Linked(s)
    }

    ghost predicate Valid()
      reads this, elems
    {
      Is(elems)
    }

    constructor ()
      ensures Valid() && elems == []
    {
      head, tail, count, elems := null, null, 0, [];
    }

    /** muxx_qAddTask */
    method AddTask(task: TCB)
      requires Valid() && task !in elems
      modifies this, elems, task
      ensures Valid() && elems == old(elems) + [task]
      ensures forall t :: t in elems ==> t.status == old(t.status) && t.clockTicks == old(t.clockTicks)
    {
      ghost var was, now := elems, elems + [task];
      if count != 0 {
        var last := tail;
        last.nextInQueue := task;
        task.prevInQueue := last;
        task.nextInQueue := null;
        count := count + 1;
        tail := task;
      } else {
        head := task;
        tail := task;
        count := 1;
        task.prevInQueue := null;
        task.nextInQueue := null;
      }
      elems := now;
      forall i | 0 <= i < |now|
        ensures LinkAt(now, i)
      {
        assert i < |was| ==> old(LinkAt(was, i));
      }
    }

    /** muxx_qGetTask on a queue that is not empty */
    method GetTask() returns (theTask: TCB)
      requires Valid() && elems != []
      modifies this, elems
      ensures Valid() && [theTask] + elems == old(elems)
      ensures theTask.nextInQueue == null && theTask.prevInQueue == null
      ensures forall t :: t in old(elems) ==> t.status == old(t.status) && t.clockTicks == old(t.clockTicks)
    {
      ghost var was, rest := elems, elems[1..];
      assert LinkAt(was, 0);
      theTask := head;
      head := theTask.nextInQueue;
      count := count - 1;
      if count == 0 {
        head := null;
        tail := null;
      } else {
        head.prevInQueue := null;
      }
      theTask.prevInQueue := null;
      theTask.nextInQueue := null;
      elems := rest;
      forall i | 0 <= i < |rest|
        ensures LinkAt(rest, i)
      {
        assert old(LinkAt(was, i + 1));
      }
    }

    /** The scan of muxx_qRemoveTask. */
    method Scan(task: TCB) returns (theTask: TCB?)
      requires Valid()
      ensures theTask == if task in elems then task else null
    {
      theTask := head;
      ghost var i := 0;
      while theTask != task && theTask != null
        invariant 0 <= i <= |elems| && theTask == At(elems, i) && task !in elems[..i]
        decreases |elems| - i
      {
        assert LinkAt(elems, i);
        theTask := theTask.nextInQueue;
        i := i + 1;
      }
      if theTask == null {
        assert elems[..i] == elems;
      }
    }

    /**
     muxx_qRemoveTask: a task that is absent or first is handled well.  Any other stays in its
     predecessor's link, and what is left is no queue of any tasks.
     */
    method RemoveTask(task: TCB) returns (theTask: TCB?)
      requires Valid()
      modifies this, elems
      ensures theTask == if task in old(elems) then task else null
      ensures task !in old(elems) ==> Valid() && elems == old(elems) && unchanged(old(elems))
      ensures old(elems) != [] && task == old(elems)[0] ==> Valid() && elems == old(elems)[1..]
      ensures forall k :: 0 < k < |old(elems)| && old(elems)[k] == task ==> Broken(old(elems), k)
      ensures (exists s :: Is(s)) <==> task !in old(elems) || task == old(elems)[0]
    {
      if count == 0 {
        return null;
      }
      theTask := Scan(task);
      if theTask == null {
        return null;
      }
      ghost var was := elems;
      ghost var k :| 0 <= k < |was| && was[k] == task;
      assert LinkAt(was, k);
      Unlink(theTask, k);
      if k == 0 {
        forall i | 0 <= i < |was| - 1
          ensures LinkAt(was[1..], i)
        {
          assert old(LinkAt(was, i + 1));
        }
        elems := was[1..];
        assert Is(elems);
      } else {
        forall i | 0 <= i < k
          ensures was[i].nextInQueue == was[i + 1]
        {
          assert old(LinkAt(was, i));
        }
        forall s
          ensures !Is(s)
        {
          NoQueue(was, k, s);
        }
      }
    }

    /** The stores of muxx_qRemoveTask: the first test's branch changes the task itself, not its predecessor. */
    method Unlink(theTask: TCB, ghost k: int)
      requires Valid() && 0 <= k < |elems| && elems[k] == theTask
      modifies `head, `tail, `count, elems
      ensures count == old(count) - 1 && theTask.nextInQueue == null && theTask.prevInQueue == null
      ensures head == if k == 0 then At(elems, 1) else old(head)
      ensures tail == if k < |elems| - 1 then old(tail) else null
      ensures forall t :: t in elems && t != theTask ==> t.nextInQueue == old(t.nextInQueue)
      ensures forall i :: 0 <= i < |elems| && i != k && i != k + 1 ==> elems[i].prevInQueue == old(elems[i].prevInQueue)
      ensures k + 1 < |elems| ==> elems[k + 1].prevInQueue == if k == 0 then null else elems[k + 1]
    {
      assert LinkAt(elems, k);
      if theTask.prevInQueue != null {
        theTask.prevInQueue := theTask.nextInQueue;
      } else {
        head := theTask.nextInQueue;
      }
      if theTask.nextInQueue != null {
        theTask.nextInQueue.prevInQueue := theTask.prevInQueue;
      } else {
        tail := theTask.prevInQueue;
      }
      count := count - 1;
      theTask.nextInQueue := null;
      theTask.prevInQueue := null;
    }

    /** What the removal of task `k` of `was` leaves behind. */
    ghost predicate Broken(was: seq<TCB>, k: int)
      requires 0 < k < |was|
      reads `head, `tail, `count, was
    {
      && Distinct(was) && count == |was| - 1 && head == was[0] && was[k].nextInQueue == null
      && (forall i {:trigger was[i]} :: 0 <= i < k ==> was[i].nextInQueue == was[i + 1])
      && tail == (if k < |was| - 1 then was[|was| - 1] else null)
    }

    /** From the head the links still lead to the removed task and end there, which the tail does not. */
    lemma NoQueue(was: seq<TCB>, k: int, s: seq<TCB>)
      requires 0 < k < |was| && Broken(was, k)
      ensures !Is(s)
    {
      if Is(s) {
        var i := 0;
        assert LinkAt(s, 0);
        while i < k
          invariant 0 <= i <= k && i < |s| && s[i] == was[i] && LinkAt(s, i)
        {
          i := i + 1;
          assert LinkAt(s, i);
        }
      }
    }
  }

  /** A queue none of whose tasks has changed is the same queue. */
  twostate lemma StillQueue(q: TQueue)
    requires old(q.Valid()) && unchanged(q)
    requires forall i :: 0 <= i < |q.elems| ==> unchanged(q.elems[i])
    ensures q.Valid()
  {
    forall i | 0 <= i < |q.elems|
      ensures LinkAt(q.elems, i)
    {
      assert old(LinkAt(q.elems, i));
    }
  }

  /** Two tasks in a queue, and the second one removed: the queue still leads to it, counts one and has no tail. */
  method RemoveSecond() returns (q: TQueue, first: TCB, second: TCB)
    ensures fresh(q) && q.head == first && first.nextInQueue == second && q.tail == null && q.count == 1
    ensures forall s :: !q.Is(s)
  {
    q := new TQueue();
    first := new TCB(0, false);
    second := new TCB(0, false);
    q.AddTask(first);
    q.AddTask(second);
    assert LinkAt(q.elems, 0);
    var gone := q.RemoveTask(second);
  }
}
