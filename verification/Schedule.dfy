/** Lists without repetition. */
module Lists {
  predicate Distinct<T(==)>(s: seq<T>) {
    forall i, j :: 0 <= i < j < |s| ==> s[i] != s[j]
  }

  lemma {:induction false} OnceEach<T>(s: seq<T>)
    ensures Distinct(s) <==> forall x :: x in multiset(s) ==> multiset(s)[x] == 1
  {
    if s != [] {
      var n := |s| - 1;
      OnceEach(s[..n]);
      assert s == s[..n] + [s[n]];
      if Distinct(s) {
        assert s[n] !in s[..n];
      } else if Distinct(s[..n]) {
        var i, j :| 0 <= i < j < |s| && s[i] == s[j];
        assert j == n && s[i] in s[..n];
        assert multiset(s)[s[n]] == multiset(s[..n])[s[n]] + 1;
      } else {
        var x :| x in multiset(s[..n]) && multiset(s[..n])[x] != 1;
        assert multiset(s)[x] >= multiset(s[..n])[x];
      }
    }
  }

  /** The order of a list has no part in it. */
  lemma SameElements<T>(s: seq<T>, t: seq<T>)
    requires multiset(s) == multiset(t) && Distinct(s)
    ensures Distinct(t)
  {
    hide Distinct;
    OnceEach(s);
    OnceEach(t);
  }
}

/** The kernel's scheduling as a state machine: ready tasks in order, and when each of them must run. */
module Schedule {
  import opened Lists

  /** The running task, the ready ones first come first, the suspended ones, and the ticks left of the quantum. */
  datatype State<T(==)> = State(cur: T, ready: seq<T>, susp: seq<T>, countdown: int, quantum: int)

  datatype Event<T> = Tick | Yield | Suspend | Add(task: T)

  /** The first ready task runs. */
  function Dispatch<T>(s: State<T>): State<T>
    requires s.ready != []
  {
    s.(cur := s.ready[0], ready := s.ready[1..])
  }

  predicate Enabled<T(==)>(s: State<T>, e: Event<T>) {
    match e
    case Suspend => s.ready != []
    case Add(t) => t != s.cur && t !in s.ready && t !in s.susp
    case _ => true
  }

  function Next<T(==)>(s: State<T>, e: Event<T>): State<T>
    requires Enabled(s, e)
  {
    match e
    case Tick =>
      if s.countdown - 1 > 0 then s.(countdown := s.countdown - 1)
      else
        var r := s.(countdown := s.quantum);
        if s.ready == [] then r else Dispatch(r.(ready := s.ready + [s.cur]))
    case Yield => Dispatch(s.(ready := s.ready + [s.cur]))
    case Suspend => Dispatch(s.(susp := s.susp + [s.cur]))
    case Add(t) => s.(ready := s.ready + [t])
  }

  /** All tasks, each once. */
  function Tasks<T>(s: State<T>): seq<T> {
    [s.cur] + s.ready + s.susp
  }

  /** Every task is in one place only: running, ready or suspended. */
  predicate Partition<T(==)>(s: State<T>) {
    Distinct(Tasks(s))
  }

  predicate Clocked<T>(s: State<T>) {
    1 <= s.countdown <= s.quantum
  }

  /** No event loses a task or puts one in two places. */
  lemma NextKeeps<T>(s: State<T>, e: Event<T>)
    requires Partition(s) && Clocked(s) && Enabled(s, e)
    ensures Partition(Next(s, e)) && Clocked(Next(s, e)) && Next(s, e).quantum == s.quantum
    ensures multiset(Tasks(Next(s, e))) == multiset(Tasks(s)) + if e.Add? then multiset{e.task} else multiset{}
  {
    hide Distinct, Tasks;
    match e
    case Tick => Rotated(s, s.countdown);
                 Rotated(s, s.quantum);
                 SameTasks(s, s.(countdown := s.countdown - 1));
                 SameTasks(s, s.(countdown := s.quantum));
    case Yield => Rotated(s, s.countdown);
    case Suspend => Suspended(s);
    case Add(t) => Added(s, t);
  }

  lemma SameTasks<T>(s: State<T>, t: State<T>)
    requires s.cur == t.cur && s.ready == t.ready && s.susp == t.susp
    ensures Tasks(s) == Tasks(t)
  {
  }

  lemma Rotated<T>(s: State<T>, countdown: int)
    requires Distinct(Tasks(s))
    ensures var n := Dispatch(s.(ready := s.ready + [s.cur], countdown := countdown));
            Distinct(Tasks(n)) && multiset(Tasks(n)) == multiset(Tasks(s))
  {
    hide Distinct;
    var q := s.ready + [s.cur];
    assert [q[0]] + q[1..] == q;
    SameElements(Tasks(s), q + s.susp);
  }

  lemma Suspended<T>(s: State<T>)
    requires Distinct(Tasks(s)) && s.ready != []
    ensures var n := Dispatch(s.(susp := s.susp + [s.cur]));
            Distinct(Tasks(n)) && multiset(Tasks(n)) == multiset(Tasks(s))
  {
    hide Distinct;
    assert [s.ready[0]] + s.ready[1..] == s.ready;
    SameElements(Tasks(s), s.ready + (s.susp + [s.cur]));
  }

  /** The first ready task is suspended. */
  lemma Stopped<T>(s: State<T>)
    requires Distinct(Tasks(s)) && s.ready != []
    ensures var n := s.(ready := s.ready[1..], susp := s.susp + [s.ready[0]]);
            Distinct(Tasks(n)) && multiset(Tasks(n)) == multiset(Tasks(s))
  {
    hide Distinct;
    assert [s.ready[0]] + s.ready[1..] == s.ready;
    SameElements(Tasks(s), [s.cur] + s.ready[1..] + (s.susp + [s.ready[0]]));
  }

  lemma Added<T>(s: State<T>, t: T)
    requires Distinct(Tasks(s)) && t != s.cur && t !in s.ready && t !in s.susp
    ensures var n := s.(ready := s.ready + [t]);
            Distinct(Tasks(n)) && multiset(Tasks(n)) == multiset(Tasks(s)) + multiset{t}
  {
    OneMore(Tasks(s), t);
    hide Distinct;
    SameElements(Tasks(s) + [t], [s.cur] + (s.ready + [t]) + s.susp);
  }

  /** A task that nobody knew is suspended. */
  lemma Parked<T>(s: State<T>, t: T)
    requires Distinct(Tasks(s)) && t != s.cur && t !in s.ready && t !in s.susp
    ensures var n := s.(susp := s.susp + [t]);
            Distinct(Tasks(n)) && multiset(Tasks(n)) == multiset(Tasks(s)) + multiset{t}
  {
    OneMore(Tasks(s), t);
    assert Tasks(s) + [t] == [s.cur] + s.ready + (s.susp + [t]);
  }

  lemma OneMore<T>(a: seq<T>, t: T)
    requires Distinct(a) && t !in a
    ensures Distinct(a + [t])
  {
  }

  // ----- how long a ready task waits -----

  /** The place of a task in the ready queue, or its length. */
  function Place<T(==)>(q: seq<T>, t: T): (n: nat)
    ensures n <= |q| && (n < |q| <==> t in q) && (n < |q| ==> q[n] == t)
    ensures forall i :: 0 <= i < n ==> q[i] != t
  {
    if q == [] || q[0] == t then 0 else 1 + Place(q[1..], t)
  }

  /** The ticks until the task in place `k` runs at the latest. */
  function Wait<T(==)>(s: State<T>, t: T): int {
    s.countdown + Place(s.ready, t) * s.quantum
  }

  /** Every event keeps a ready task ready or runs it, and a tick brings it nearer. */
  lemma Nearer<T>(s: State<T>, e: Event<T>, t: T)
    requires Clocked(s) && Enabled(s, e) && t in s.ready
    ensures var n := Next(s, e);
            n.cur == t || (t in n.ready && Wait(n, t) + (if e.Tick? then 1 else 0) <= Wait(s, t))
  {
    hide Place;
    var k := Place(s.ready, t);
    PlaceFirst(s.ready, t, [s.cur]);
    if k > 0 {
      Product(k - 1, s.quantum);
    }
    match e
    case Add(x) => PlaceFirst(s.ready, t, [x]);
    case Tick =>
    case Yield =>
    case Suspend => PlaceFirst(s.ready, t, []);
                    assert s.ready + [] == s.ready;
  }

  /** The place in a longer queue, and in one whose first task has gone. */
  lemma PlaceFirst<T>(q: seq<T>, t: T, more: seq<T>)
    requires t in q
    ensures Place(q + more, t) == Place(q, t)
    ensures Place(q, t) == 0 ==> (q + more)[0] == t
    ensures Place(q, t) > 0 ==> t in (q + more)[1..] && Place((q + more)[1..], t) == Place(q, t) - 1
  {
    var k := Place(q, t);
    PlaceIs(q + more, t, k);
    if k > 0 {
      assert (q + more)[1..][k - 1] == t;
      PlaceIs((q + more)[1..], t, k - 1);
    }
  }

  lemma PlaceIs<T>(q: seq<T>, t: T, k: nat)
    requires k < |q| && q[k] == t && forall i :: 0 <= i < k ==> q[i] != t
    ensures Place(q, t) == k
  {
    var n := Place(q, t);
    assert n < |q| && q[n] == t;
  }

  predicate Run<T(==)>(states: seq<State<T>>, events: seq<Event<T>>) {
    && |states| == |events| + 1
    && forall i {:trigger events[i]} :: 0 <= i < |events| ==>
         Enabled(states[i], events[i]) && states[i + 1] == Next(states[i], events[i])
  }

  function Ticks<T>(events: seq<Event<T>>): nat {
    if events == [] then 0 else Ticks(events[..|events| - 1]) + if events[|events| - 1].Tick? then 1 else 0
  }

  /** Up to its dispatch a ready task stays ready, and the ticks so far have been taken off its wait. */
  lemma {:induction false} StillWaiting<T>(states: seq<State<T>>, events: seq<Event<T>>, t: T, n: nat)
    requires Run(states, events) && Clocked(states[0]) && t in states[0].ready && n <= |events|
    requires forall i :: 0 < i <= n ==> states[i].cur != t
    ensures Clocked(states[n]) && t in states[n].ready
    ensures Wait(states[n], t) + Ticks(events[..n]) <= Wait(states[0], t)
  {
    if n > 0 {
      StillWaiting(states, events, t, n - 1);
      var e := events[n - 1];
      Nearer(states[n - 1], e, t);
      assert events[..n][..n - 1] == events[..n - 1];
    }
  }

  lemma NotYet<T>(states: seq<State<T>>, events: seq<Event<T>>, t: T)
    requires Run(states, events) && Clocked(states[0]) && t in states[0].ready
    requires forall i :: 0 < i <= |events| ==> states[i].cur != t
    ensures Ticks(events) < (Place(states[0].ready, t) + 1) * states[0].quantum
  {
    hide Place, Ticks;
    var n, q := |events|, states[0].quantum;
    StillWaiting(states, events, t, n);
    assert events[..n] == events;
    var k, m := Place(states[0].ready, t), Place(states[n].ready, t);
    Product(k, q);
    Product(m, states[n].quantum);
  }

  lemma Product(k: nat, q: int)
    requires q >= 1
    ensures (k + 1) * q == k * q + q && k * q >= 0
  {
  }

  /**
   In any run of ticks, yields, suspensions and new tasks, the task in place `k` runs within (k + 1) quantums of
   ticks.
   */
  lemma RunsInTime<T>(states: seq<State<T>>, events: seq<Event<T>>, t: T)
    requires Run(states, events) && Clocked(states[0]) && t in states[0].ready
    requires Ticks(events) >= (Place(states[0].ready, t) + 1) * states[0].quantum
    ensures exists i :: 0 < i < |states| && states[i].cur == t
  {
    hide Place, Ticks, Clocked;
    if forall i :: 0 < i <= |events| ==> states[i].cur != t {
      NotYet(states, events, t);
    }
  }

  // ----- when exactly each task runs if nobody gives up its time -----

  /** The clock ticks and tasks are added, but nobody yields or suspends itself. */
  predicate Undisturbed<T>(events: seq<Event<T>>) {
    forall i :: 0 <= i < |events| ==> events[i].Tick? || events[i].Add?
  }

  /** The running task and the ready ones behind it. */
  function Line<T>(s: State<T>): seq<T> {
    [s.cur] + s.ready
  }

  /** After `j` turns task `j` of the line runs, and those behind it come next. */
  predicate TurnedTo<T(==)>(s0: State<T>, s: State<T>, j: nat) {
    j <= |s0.ready| ==> s.cur == Line(s0)[j] && Line(s0)[j + 1..] <= s.ready
  }

  lemma TurnStep<T>(s0: State<T>, s: State<T>, e: Event<T>, j: nat) returns (n: nat)
    requires Clocked(s) && Enabled(s, e) && (e.Tick? || e.Add?) && TurnedTo(s0, s, j)
    ensures var s' := Next(s, e);
            && Clocked(s') && s'.quantum == s.quantum && TurnedTo(s0, s', n)
            && n * s.quantum - s'.countdown == j * s.quantum - s.countdown + (if e.Tick? then 1 else 0)
  {
    var line := Line(s0);
    if e.Add? {
      n := j;
      assert j <= |s0.ready| ==> line[j + 1..] <= s.ready + [e.task];
    } else if s.countdown > 1 {
      n := j;
    } else {
      n := j + 1;
      Product(j, s.quantum);
      if n <= |s0.ready| {
        assert line[n..][1..] == line[n + 1..] && line[n..][0] == line[n] == s.ready[0];
        assert (s.ready + [s.cur])[1..][..|line| - n - 1] == line[n..][1..];
      }
    }
  }

  /** In such a run the ticks so far give the number of turns and the ticks that are left. */
  lemma {:induction false} TurnsTaken<T>(states: seq<State<T>>, events: seq<Event<T>>, i: nat) returns (j: nat)
    requires Run(states, events) && Clocked(states[0]) && Undisturbed(events) && i <= |events|
    ensures Clocked(states[i]) && states[i].quantum == states[0].quantum && TurnedTo(states[0], states[i], j)
    ensures Ticks(events[..i]) == states[0].countdown + j * states[0].quantum - states[i].countdown
  {
    hide Clocked, TurnedTo;
    if i == 0 {
      j := 0;
      NoTurn(states[0]);
    } else {
      var before := TurnsTaken(states, events, i - 1);
      assert events[..i][..i - 1] == events[..i - 1];
      assert Enabled(states[i - 1], events[i - 1]);
      j := TurnStep(states[0], states[i - 1], events[i - 1], before);
    }
  }

  lemma NoTurn<T>(s: State<T>)
    ensures TurnedTo(s, s, 0)
  {
    assert Line(s)[1..] == s.ready;
  }

  lemma WhichTurn(c0: int, c: int, q: int, j: nat, t: int)
    requires 1 <= c0 <= q && 1 <= c <= q && t == c0 + j * q - c
    ensures t < c0 ==> j == 0
    ensures forall k: nat :: c0 + k * q <= t < c0 + (k + 1) * q ==> j == k + 1
    ensures j > 0 ==> c0 + (j - 1) * q <= t < c0 + j * q
  {
    if j > 0 {
      Product(j - 1, q);
    }
    forall k: nat | c0 + k * q <= t < c0 + (k + 1) * q
      ensures j == k + 1
    {
      Product(k, q);
      Ordered(k, j, q);
      Ordered(j, k + 1, q);
      Product(k + 1, q);
      Ordered(k + 2, j, q);
    }
  }

  lemma Ordered(a: int, b: int, q: int)
    requires q >= 1
    ensures a >= b ==> a * q >= b * q
  {
    if a >= b {
      assert (a - b) * q >= 0;
      assert a * q == (a - b) * q + b * q;
    }
  }

  /**
   In any run of ticks and new tasks the running task goes on for exactly the ticks that it has left, and then the task
   in place `k` runs for exactly one quantum, the k-th after that.
   */
  lemma RunsExactly<T>(states: seq<State<T>>, events: seq<Event<T>>, i: nat)
    requires Run(states, events) && Clocked(states[0]) && Undisturbed(events) && i <= |events|
    ensures var s0, s, t := states[0], states[i], Ticks(events[..i]);
            && (t < s0.countdown ==> s.cur == s0.cur && s.countdown == s0.countdown - t)
            && (forall k: nat | k < |s0.ready| ::
                  s0.countdown + k * s0.quantum <= t < s0.countdown + (k + 1) * s0.quantum ==>
                    s.cur == s0.ready[k] && s.countdown == s0.countdown + (k + 1) * s0.quantum - t)
  {
    hide Ticks;
    var s0, s, t := states[0], states[i], Ticks(events[..i]);
    var j := TurnsTaken(states, events, i);
    WhichTurn(s0.countdown, s.countdown, s0.quantum, j, t);
  }

  /** While the first round lasts, a task runs in its own quantum only. */
  lemma RunsOnlyThen<T>(states: seq<State<T>>, events: seq<Event<T>>, i: nat, k: nat)
    requires Run(states, events) && Clocked(states[0]) && Partition(states[0]) && Undisturbed(events) && i <= |events|
    requires k < |states[0].ready|
    requires Ticks(events[..i]) < states[0].countdown + |states[0].ready| * states[0].quantum
    ensures var s0, t := states[0], Ticks(events[..i]);
            states[i].cur == s0.ready[k] <==>
            s0.countdown + k * s0.quantum <= t < s0.countdown + (k + 1) * s0.quantum
  {
    hide Ticks;
    var s0, s, t := states[0], states[i], Ticks(events[..i]);
    var j := TurnsTaken(states, events, i);
    WhichTurn(s0.countdown, s.countdown, s0.quantum, j, t);
    if j > |s0.ready| {
      Ordered(j - 1, |s0.ready|, s0.quantum);
    }
    if s.cur == s0.ready[k] {
      assert Tasks(s0)[j] == Line(s0)[j] && Tasks(s0)[k + 1] == s0.ready[k];
    }
  }

  /** With nobody ready the running task goes on for ever. */
  lemma {:induction false} Alone<T>(states: seq<State<T>>, events: seq<Event<T>>, i: nat)
    requires Run(states, events) && states[0].ready == [] && i <= |events|
    requires forall e :: e in events ==> e.Tick?
    ensures states[i].cur == states[0].cur && states[i].ready == []
  {
    if i > 0 {
      Alone(states, events, i - 1);
      assert events[i - 1] in events;
    }
  }
}
