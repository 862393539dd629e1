/** The clock handler, the yield and suspend services and the scheduler of the kernel, on linked queues. */
module Scheduler {
  import opened Lists
  import opened Schedule
  import opened TaskQueue

  const TSK_READY: int := 1
  const TSK_SUSP: int := 4
  const EOK: int := 0
  const ENOPRIV: int := -7

  class Kernel {
    var curtcb: TCB
    const readyq: TQueue
    const suspq: TQueue
    var clkcountdown: int
    const clkquantum: int
    var utimeticks: int

    /** The state of the scheduling machine. */
    ghost function Abs(): State<TCB>
      reads this, readyq, suspq
    {
      State(curtcb, readyq.elems, suspq.elems, clkcountdown, clkquantum)
    }

    ghost predicate Valid()
      reads this, readyq, suspq, readyq.elems, suspq.elems
    {
      && readyq != suspq && readyq.Valid() && suspq.Valid()
      && Partition(Abs()) && Clocked(Abs())
    }

    constructor (first: TCB, quantum: int)
      requires quantum >= 1
      ensures Valid() && Abs() == State(first, [], [], quantum, quantum)
      ensures fresh(readyq) && fresh(suspq)
    {
      curtcb := first;
      readyq := new TQueue();
      suspq := new TQueue();
      clkcountdown, clkquantum, utimeticks := quantum, quantum, 0;
    }

    /** muxx_schedule */
    method Dispatcher()
      requires readyq != suspq && readyq.Valid() && readyq.elems != []
      modifies `curtcb, readyq, readyq.elems
      ensures readyq.Valid() && [curtcb] + readyq.elems == old(readyq.elems)
    {
      curtcb := readyq.GetTask();
    }

    /** muxx_yield, then muxx_schedule */
    method YieldAndSchedule(ghost s: State<TCB>)
      requires readyq != suspq && readyq.Valid() && suspq.Valid() && Partition(Abs()) && s == Abs()
      modifies `curtcb, readyq, readyq.elems, curtcb
      ensures readyq.Valid() && suspq.Valid() && Abs() == Dispatch(s.(ready := s.ready + [s.cur]))
    {
      hide Linked, Distinct, Tasks;
      InOnePlace(s);
      curtcb.status := TSK_READY;
      readyq.AddTask(curtcb);
      Dispatcher();
      StillQueue(suspq);
      assert ([curtcb] + readyq.elems)[1..] == readyq.elems;
    }

    /** The running task, the ready and the suspended ones have nothing in common. */
    lemma InOnePlace(s: State<TCB>)
      requires Partition(s)
      ensures s.cur !in s.ready && s.cur !in s.susp
      ensures forall i :: 0 <= i < |s.susp| ==> s.susp[i] !in s.ready && s.susp[i] != s.cur
      ensures forall i :: 0 <= i < |s.ready| ==> s.ready[i] !in s.susp && s.ready[i] != s.cur
    {
      assert Tasks(s) == [s.cur] + (s.ready + s.susp);
      assert s.ready + s.susp == Tasks(s)[1..];
      Apart([s.cur], s.ready + s.susp);
      assert s.cur in [s.cur];
      assert forall t :: t in s.ready || t in s.susp ==> t in s.ready + s.susp;
      forall i, j | 0 <= i < j < |s.ready + s.susp|
        ensures (s.ready + s.susp)[i] != (s.ready + s.susp)[j]
      {
        assert Tasks(s)[1 + i] != Tasks(s)[1 + j];
      }
      Apart(s.ready, s.susp);
    }

    lemma Apart(a: seq<TCB>, b: seq<TCB>)
      requires Distinct(a + b)
      ensures forall t :: t in a ==> t !in b
    {
      forall t | t in a
        ensures t !in b
      {
        var i :| 0 <= i < |a| && a[i] == t;
        forall j | 0 <= j < |b|
          ensures b[j] != t
        {
          assert (a + b)[i] == t && (a + b)[|a| + j] == b[j];
        }
      }
    }

    /** muxx_clock_handler with muxx_check_quantums */
    method ClockHandler()
      requires Valid()
      modifies this, readyq, readyq.elems, curtcb
      ensures Valid() && Abs() == Next(old(Abs()), Tick) && utimeticks == old(utimeticks) + 1
    {
      hide Linked, Distinct, Tasks;
      ghost var s := Abs();
      InOnePlace(s);
      NextKeeps(s, Tick);
      utimeticks := utimeticks + 1;
      curtcb.clockTicks := curtcb.clockTicks + 1;
      clkcountdown := clkcountdown - 1;
      if clkcountdown <= 0 {
        clkcountdown := clkquantum;
        SameTasks(s, Abs());
        if readyq.count > 0 {
          YieldAndSchedule(s.(countdown := s.quantum));
        }
      }
    }

    /** muxx_svc_yield */
    method SvcYield()
      requires Valid()
      modifies this, readyq, readyq.elems, curtcb
      ensures Valid() && Abs() == Next(old(Abs()), Event.Yield)
    {
      ghost var s := Abs();
      NextKeeps(s, Event.Yield);
      YieldAndSchedule(s);
    }

    lemma LastLink(q: TQueue)
      requires q.Valid() && q.elems != []
      ensures q.elems[|q.elems| - 1].nextInQueue == null
    {
      assert LinkAt(q.elems, |q.elems| - 1);
    }

    /** Takes a task out of the ready queue, if it is there, and puts it into the queue of the suspended. */
    method Park(task: TCB)
      requires Valid() && task !in suspq.elems
      modifies readyq, readyq.elems, suspq, suspq.elems, task
      ensures suspq.Valid() && suspq.elems == old(suspq.elems) + [task]
      ensures task !in old(readyq.elems) ==> readyq.Valid() && readyq.elems == old(readyq.elems)
      ensures old(readyq.elems) != [] && task == old(readyq.elems)[0] ==>
        readyq.Valid() && readyq.elems == old(readyq.elems)[1..]
      ensures forall k :: 0 < k < |old(readyq.elems)| && old(readyq.elems)[k] == task ==>
        readyq.Broken(old(readyq.elems), k)
    {
      hide Linked, Distinct, Tasks;
      InOnePlace(Abs());
      ghost var was := readyq.elems;
      var gone := readyq.RemoveTask(task);
      StillQueue(suspq);
      label K:
      task.status := TSK_SUSP;
      suspq.AddTask(task);
      if task !in was || task == was[0] {
        StillQueue@K(readyq);
      } else {
        LastLink(suspq);
      }
    }

    /** The part of muxx_svc_suspend for the running task, when another one is ready */
    method SuspendSelf()
      requires Valid() && readyq.elems != []
      modifies this, readyq, readyq.elems, suspq, suspq.elems, curtcb
      ensures Valid() && Abs() == Next(old(Abs()), Suspend)
    {
      hide Linked, Distinct, Tasks;
      ghost var s := Abs();
      NextKeeps(s, Suspend);
      InOnePlace(s);
      Park(curtcb);
      label M:
      Dispatcher();
      StillQueue@M(suspq);
      assert ([curtcb] + readyq.elems)[1..] == readyq.elems;
    }

    /** May the running task suspend `task`? */
    predicate MaySuspend(task: TCB)
      reads `curtcb
    {
      curtcb.operprv || curtcb.uic == task.uic
    }

    /** The part of muxx_svc_suspend for another task: the ready queue survives unless it lies behind its head. */
    method SuspendOther(task: TCB)
      requires Valid() && task != curtcb && task !in suspq.elems
      modifies readyq, readyq.elems, suspq, suspq.elems, task
      ensures var s := old(Abs());
              if s.ready != [] && task == s.ready[0]
              then Valid() && Abs() == s.(ready := s.ready[1..], susp := s.susp + [task])
              else (if task !in s.ready then Valid() && Abs() == s.(susp := s.susp + [task])
                    else forall q :: !readyq.Is(q))
    {
      hide Linked, Distinct, Tasks;
      ghost var s, was := Abs(), readyq.elems;
      InOnePlace(s);
      if was != [] {
        Stopped(s);
      }
      if task !in was {
        Parked(s, task);
      }
      Park(task);
      if task in was && task != was[0] {
        ghost var k :| 0 <= k < |was| && was[k] == task;
        forall q
          ensures !readyq.Is(q)
        {
          readyq.NoQueue(was, k, q);
        }
      }
    }

    /**
     muxx_svc_suspend.  With no other task ready the code follows a null pointer when it suspends the running one,
     and a task that is suspended already would be queued twice.
     */
    method SvcSuspend(task: TCB?) returns (rc: int)
      requires Valid()
      requires var x := if task == null then curtcb else task;
               MaySuspend(x) ==> x !in suspq.elems && (x == curtcb ==> readyq.elems != [])
      modifies this, readyq, readyq.elems, suspq, suspq.elems, curtcb, if task == null then {} else {task}
      ensures var s, x := old(Abs()), if task == null then old(curtcb) else task;
              if !old(MaySuspend(x)) then rc == ENOPRIV && Valid() && Abs() == s
              else
                && rc == EOK
                && (x == s.cur ==> Valid() && Abs() == Next(s, Suspend))
                && (s.ready != [] && x == s.ready[0] && x != s.cur ==>
                      Valid() && Abs() == s.(ready := s.ready[1..], susp := s.susp + [x]))
                && (x != s.cur && x !in s.ready ==> Valid() && Abs() == s.(susp := s.susp + [x]))
                && (x != s.cur && x in s.ready && x != s.ready[0] ==> forall q :: !readyq.Is(q))
    {
      var theTask := if task == null then curtcb else task;
      if !MaySuspend(theTask) {
        return ENOPRIV;
      }
      if theTask == curtcb {
        SuspendSelf();
      } else {
        SuspendOther(theTask);
      }
      rc := EOK;
    }

    /** A new task is added to the ready queue. */
    method NewTask(task: TCB)
      requires Valid() && Enabled(Abs(), Add(task))
      modifies readyq, readyq.elems, task
      ensures Valid() && Abs() == Next(old(Abs()), Add(task))
    {
      hide Linked, Distinct, Tasks;
      InOnePlace(Abs());
      NextKeeps(Abs(), Add(task));
      readyq.AddTask(task);
      StillQueue(suspq);
    }
  }
}
