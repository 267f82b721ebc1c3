/** What the calls of KernelSpec come to: for the thread that calls, for the threads on the lists, and for the choice of
    rt_schedule; and that threads that wait for a semaphore do not overtake each other. */
module KernelLaws {
  import opened Lists
  import IpcList
  import FirstBit
  import RQ = ReadyQueue
  import RO = ReadyOrder
  import opened KernelSpec

  /** Nothing about the semaphores changes but this one's list. */
  ghost predicate OnlyList(k: Kernel, k': Kernel, id: Id) {
    && k'.sems.Keys == k.sems.Keys
    && (forall i :: i in k.sems && i != id ==> k'.sems[i] == k.sems[i])
    && (id in k.sems ==> k'.sems[id].value == k.sems[id].value && k'.sems[id].flag == k.sems[id].flag)
  }

  /** A take gets a permit that is there, at once; without one it returns at once with time 0, and otherwise stops being
      ready and waits on the list of the semaphore, with its timer running iff the time is positive. */
  lemma TakeOutcome(k: Kernel, id: Id, time: int)
    requires Inv(k) && Enabled(k, CallTake(id, time))
    ensures var t, k' := k.current, Perform(k, CallTake(id, time));
            if k.sems[id].value > 0 then
              && k' == k.(sems := k'.sems) && k'.sems.Keys == k.sems.Keys
              && (forall i :: i in k.sems && i != id ==> k'.sems[i] == k.sems[i])
              && k'.sems[id].value == k.sems[id].value - 1 && k'.sems[id].waiters == k.sems[id].waiters
            else if time == 0 then k' == k
            else
              && RQ.StatOf(k'.ready, t) == RQ.Suspend && RO.Leaves(k.ready, k'.ready, t)
              && WaitOf(k', t) == Waiting(Sem(id), time > 0) && (t in k'.timers <==> time > 0)
              && OnlyList(k, k', id)
              && IpcList.Queued(k.sems[id].waiters, k'.sems[id].waiters, t, k.sems[id].flag, Priorities(k'.ready.tcb))
  {
    if k.sems[id].value == 0 && time != 0 {
      TakeWaits(k, id, time);
    }
    hide Inv, IpcList.Queued, RO.Leaves;
  }

  lemma TakeWaits(k: Kernel, id: Id, time: int)
    requires Inv(k) && Enabled(k, CallTake(id, time)) && k.sems[id].value == 0 && time != 0
    ensures var t, k' := k.current, Perform(k, CallTake(id, time));
            && RQ.StatOf(k'.ready, t) == RQ.Suspend && RO.Leaves(k.ready, k'.ready, t)
            && WaitOf(k', t) == Waiting(Sem(id), time > 0) && (t in k'.timers <==> time > 0)
            && OnlyList(k, k', id)
            && IpcList.Queued(k.sems[id].waiters, k'.sems[id].waiters, t, k.sems[id].flag, Priorities(k'.ready.tcb))
  {
    var t, s := k.current, k.sems[id];
    assert WaitOk(k, t);
    ShapeOf(k.ready);
    RO.SuspendedLeaves(k.ready, t);
    StatSuspended(k.ready, t);
    hide Inv, RQ.Inv, RQ.Suspended, RO.Leaves, IpcList.Queued, IpcList.Suspended;
    IpcList.QueuedIs(s.waiters, t, s.flag, Priorities(RQ.Suspended(k.ready, t).tcb));
  }

  /** A release gives the permit to the first thread on the list, which becomes ready behind the others of its priority
      with its timer stopped; with nobody on the list the value grows and nothing else changes. */
  lemma ReleaseOutcome(k: Kernel, id: Id)
    requires Inv(k) && Enabled(k, CallRelease(id))
    ensures var k', s := Perform(k, CallRelease(id)), k.sems[id];
            if s.waiters == [] then
              && k' == k.(sems := k'.sems) && k'.sems.Keys == k.sems.Keys
              && (forall i :: i in k.sems && i != id ==> k'.sems[i] == k.sems[i])
              && k'.sems[id].value == s.value + 1 && k'.sems[id].waiters == []
            else
              && RO.Joins(k.ready, k'.ready, s.waiters[0]) && s.waiters[0] !in k'.timers
              && WaitOf(k', s.waiters[0]) == Over(Sem(id), ByResume)
              && OnlyList(k, k', id) && k'.sems[id].waiters == s.waiters[1..]
  {
    assert SemOk(k, id);
    IdleIsReady(k);
    if k.sems[id].waiters != [] {
      var t := k.sems[id].waiters[0];
      assert t in k.sems[id].waiters && WaitsOn(k, t, id) && WaitOk(k, t);
      hide RQ.Inv, RQ.Insert, Distinct;
      ShapeOf(k.ready);
      RO.InsertJoins(k.ready, t);
    }
  }

  /** When the timer of a waiting thread expires, the thread leaves the list it is on and becomes ready behind the others
      of its priority, with the timeout as its error. */
  lemma ExpireOutcome(k: Kernel, t: Thread)
    requires Inv(k) && Enabled(k, TimerFires(t))
    ensures var k', w := Perform(k, TimerFires(t)), WaitOf(k, t);
            && w.Waiting? && RO.Joins(k.ready, k'.ready, t) && t !in k'.timers
            && WaitOf(k', t) == Over(w.sem, ByTimeout) && ErrorOf(k', t) == Timeout
            && (w.sem.Sleep? ==> k'.sems == k.sems)
            && (w.sem.Sem? ==> w.sem.id in k.sems && OnlyList(k, k', w.sem.id))
            && (w.sem.Sem? ==> Skips(k.sems[w.sem.id].waiters, k'.sems[w.sem.id].waiters, t))
  {
    TimersOfSuspended(k, t);
    assert WaitOk(k, t);
    IdleIsReady(k);
    if WaitOf(k, t).sem.Sem? {
      assert SemOk(k, WaitOf(k, t).sem.id);
    }
    hide RQ.Inv, RQ.Insert, Distinct, Without;
    ShapeOf(k.ready);
    RO.InsertJoins(k.ready, t);
    if WaitOf(k, t).sem.Sem? {
      WithoutSkips<nat>(k.sems[WaitOf(k, t).sem.id].waiters, t);
    }
  }

  /** A sleep stops the calling thread, with its timer running, and touches no semaphore. */
  lemma SleepOutcome(k: Kernel)
    requires Inv(k) && Enabled(k, CallSleep)
    ensures var t, k' := k.current, Perform(k, CallSleep);
            && RQ.StatOf(k'.ready, t) == RQ.Suspend && RO.Leaves(k.ready, k'.ready, t)
            && WaitOf(k', t) == Waiting(Sleep, true) && k'.timers == k.timers + {t} && k'.sems == k.sems
  {
    hide RQ.Inv, RQ.Suspended;
    ShapeOf(k.ready);
    StatSuspended(k.ready, k.current);
    RO.SuspendedLeaves(k.ready, k.current);
  }

  /** When the thread runs again its wait is over: with the timeout as its error iff it waited for a semaphore and its
      timer ended the wait, and without an error otherwise. Nobody else notices. */
  lemma ReturnOutcome(k: Kernel)
    requires Inv(k) && Enabled(k, Returns)
    ensures var t, w, k' := k.current, WaitOf(k, k.current), Perform(k, Returns);
            && WaitOf(k', t) == NoWait
            && ErrorOf(k', t) == (if w.sem.Sem? && w.reason == ByTimeout then Timeout else Ok)
            && k' == k.(wait := k'.wait, error := k'.error)
            && forall u: Thread :: u != t ==> WaitOf(k', u) == WaitOf(k, u) && ErrorOf(k', u) == ErrorOf(k, u)
  {
    assert WaitOk(k, k.current);
    hide RQ.Inv, SemOk;
    IdleIsReady(k);
  }

  /** The running thread changes only in rt_schedule and at the end of a critical section, with the scheduler unlocked. */
  lemma OnlyUnlockedSwitches(k: Kernel, s: Step)
    requires Inv(k) && Enabled(k, s) && Perform(k, s).current != k.current
    ensures (s == Reschedule && k.lock == 0) || (s == ExitCritical && k.lock <= 1)
    ensures Perform(k, s).lock == 0
  {
    hide RQ.Inv, WaitOk, SemOk;
    IdleIsReady(k);
  }

  // ---------------------------------------------------------------- preemption

  /** The thread a step makes ready, if it makes one ready. */
  ghost predicate MakesReady(k: Kernel, s: Step, t: Thread) {
    || (s == Startup(t) && RQ.StatOf(k.ready, t) == RQ.Fresh)
    || (s.CallRelease? && s.id in k.sems && k.sems[s.id].waiters != [] && k.sems[s.id].waiters[0] == t)
    || s == TimerFires(t)
  }

  lemma ReadyJoins(k: Kernel, s: Step, t: Thread)
    requires Inv(k) && Enabled(k, s) && MakesReady(k, s, t)
    ensures RO.Joins(k.ready, Perform(k, s).ready, t)
  {
    hide RO.Joins, Inv;
    match s
    case Startup(_) => StartupJoins(k, t);
    case CallRelease(id) => ReleaseOutcome(k, id);
    case TimerFires(_) => ExpireOutcome(k, t);
  }

  lemma StartupJoins(k: Kernel, t: Thread)
    requires Inv(k) && Enabled(k, Startup(t)) && RQ.StatOf(k.ready, t) == RQ.Fresh
    ensures RO.Joins(k.ready, Perform(k, Startup(t)).ready, t)
  {
    hide RQ.Started, RQ.Inv, RO.Joins;
    ShapeOf(k.ready);
    RO.StartedJoins(k.ready, t);
  }

  /** When a thread becomes ready, by a startup, a release or a timeout, and the scheduler is not locked, rt_schedule
      switches to it iff its priority is better than that of the thread that would run; that one runs on otherwise, also
      against a newcomer of its own priority. */
  lemma Preempts(k: Kernel, s: Step, t: Thread)
    requires Inv(k) && Enabled(k, s) && MakesReady(k, s, t) && k.lock == 0
    ensures var k' := Perform(k, s);
            && Inv(k') && Enabled(k, Reschedule) && Enabled(k', Reschedule) && t in k'.ready.tcb
            && var now, next := Perform(k, Reschedule).current, Perform(k', Reschedule).current;
               now in k.ready.tcb && next == if k'.ready.tcb[t].prio < k.ready.tcb[now].prio then t else now
  {
    PerformKeeps(k, s);
    ReadyJoins(k, s, t);
    var k' := Perform(k, s);
    IdleIsReady(k);
    IdleIsReady(k');
    SameLock(k, s, t);
    hide RQ.Inv, RO.Joins, Enabled, WaitOk, SemOk;
    RQ.ChosenIsBest(k.ready, IdleThread);
    RO.ChosenAfterJoin(k.ready, k'.ready, t, IdleThread);
    JoinerKnown(k.ready, k'.ready, t);
    ChosenRuns(k);
    ChosenRuns(k');
  }

  lemma JoinerKnown(q: RQ.Queue, q': RQ.Queue, t: Thread)
    requires RO.Joins(q, q', t)
    ensures t in q'.tcb
  {
  }

  lemma SameLock(k: Kernel, s: Step, t: Thread)
    requires Inv(k) && Enabled(k, s) && MakesReady(k, s, t)
    ensures Perform(k, s).lock == k.lock
  {
    hide Inv;
  }

  /** rt_schedule, unlocked, switches to the choice. */
  lemma ChosenRuns(k: Kernel)
    requires Inv(k) && k.lock == 0
    ensures 0 < FirstBit.Ffs(k.ready.group) <= 32 && |k.ready.table| == RQ.Priorities
    ensures k.ready.table[FirstBit.Ffs(k.ready.group) - 1] != []
    ensures Enabled(k, Reschedule) && Perform(k, Reschedule).current == RQ.Chosen(k.ready)
  {
    hide RQ.Inv, WaitOk, SemOk;
    IdleIsReady(k);
  }

  // ---------------------------------------------------------------- no overtaking

  /** Both threads wait for the semaphore, a before b. */
  ghost predicate Ahead(k: Kernel, id: Id, a: Thread, b: Thread) {
    id in k.sems && WaitsOn(k, a, id) && WaitsOn(k, b, id) && InFront<nat>(k.sems[id].waiters, a, b)
  }

  lemma SemDistinct(k: Kernel, id: Id)
    requires Inv(k) && id in k.sems
    ensures Distinct(k.sems[id].waiters)
  {
    assert SemOk(k, id);
  }

  /** A step that ends neither wait keeps the order; it ends that of b only by a timeout while a waits on. */
  lemma StepKeepsAhead(k: Kernel, s: Step, id: Id, a: Thread, b: Thread)
    requires Inv(k) && Enabled(k, s) && Ahead(k, id, a, b) && WaitOf(Perform(k, s), a) == WaitOf(k, a)
    ensures var k' := Perform(k, s); Ahead(k', id, a, b) || (s == TimerFires(b) && WaitOf(k', b) == Over(Sem(id), ByTimeout))
  {
    WaitEnds(k, s, b);
    if s.CallTake? {
      TakeKeepsAhead(k, s, id, a, b);
    } else if s.CallRelease? {
      ReleaseKeepsAhead(k, s, id, a, b);
    } else if s.TimerFires? {
      ExpireKeepsAhead(k, s, id, a, b);
    } else {
      OtherSteps(k, s);
      WaitEnds(k, s, a);
      hide Inv, Perform, InFront;
    }
  }

  lemma TakeKeepsAhead(k: Kernel, s: Step, id: Id, a: Thread, b: Thread)
    requires Inv(k) && Enabled(k, s) && Ahead(k, id, a, b) && s.CallTake?
    ensures Ahead(Perform(k, s), id, a, b)
  {
    TakeOutcome(k, s.id, s.time);
    WaitEnds(k, s, a);
    WaitEnds(k, s, b);
    var k', list := Perform(k, s), k.sems[id].waiters;
    hide Inv, Perform, InFront, RQ.Inv, RO.Leaves, IpcList.Ordered;
    if s.id == id && k.sems[id].value == 0 && s.time != 0 {
      var prio, flag := Priorities(k'.ready.tcb), k.sems[id].flag;
      var n :| 0 <= n <= |list| && IpcList.QueuedAt(list, k'.sems[id].waiters, k.current, flag, prio, n);
      InsertedInFront<nat>(list, n, k.current, a, b);
    }
  }

  lemma ReleaseKeepsAhead(k: Kernel, s: Step, id: Id, a: Thread, b: Thread)
    requires Inv(k) && Enabled(k, s) && Ahead(k, id, a, b) && s.CallRelease? && WaitOf(Perform(k, s), a) == WaitOf(k, a)
    ensures Ahead(Perform(k, s), id, a, b)
  {
    SemDistinct(k, id);
    ReleaseOutcome(k, s.id);
    WaitEnds(k, s, b);
    if s.id == id {
      NotHead(k, s, id, a);
      TailInFront<nat>(k.sems[id].waiters, a, b);
    }
    hide Inv, Perform, InFront, RQ.Inv, RO.Joins;
  }

  lemma ExpireKeepsAhead(k: Kernel, s: Step, id: Id, a: Thread, b: Thread)
    requires Inv(k) && Enabled(k, s) && Ahead(k, id, a, b) && s.TimerFires? && WaitOf(Perform(k, s), a) == WaitOf(k, a)
    ensures Ahead(Perform(k, s), id, a, b) || (s.t == b && WaitOf(Perform(k, s), b) == Over(Sem(id), ByTimeout))
  {
    ExpireOutcome(k, s.t);
    WaitEnds(k, s, a);
    WaitEnds(k, s, b);
    var k' := Perform(k, s);
    hide Inv, Perform, InFront, RQ.Inv, RO.Joins, Skips;
    if WaitOf(k, s.t).sem == Sem(id) && s.t != b {
      SkippedInFront<nat>(k.sems[id].waiters, k'.sems[id].waiters, s.t, a, b);
    }
  }

  lemma NotHead(k: Kernel, s: Step, id: Id, a: Thread)
    requires Inv(k) && s == CallRelease(id) && Enabled(k, s) && WaitsOn(k, a, id) && WaitOf(Perform(k, s), a) == WaitOf(k, a)
    ensures k.sems[id].waiters == [] || k.sems[id].waiters[0] != a
  {
    WaitEnds(k, s, a);
    hide Inv, Perform;
  }

  lemma OtherSteps(k: Kernel, s: Step)
    requires Inv(k) && Enabled(k, s) && !s.CallTake? && !s.CallRelease? && !s.TimerFires?
    ensures Perform(k, s).sems == k.sems
  {
    hide RQ.Inv, WaitOk, SemOk;
    IdleIsReady(k);
  }

  /** Nobody is overtaken: while a thread still waits for a semaphore, a thread that waits behind it is not resumed by a
      release, however the threads and interrupts interleave: it waits on, behind it, or its own timer ended the wait. */
  lemma {:induction false} NoOvertaking(k: Kernel, steps: seq<Step>, k': Kernel, id: Id, a: Thread, b: Thread)
    requires Inv(k) && Ahead(k, id, a, b)
    requires ReachesWithout(k, steps, k', a) && ReachesWithout(k, steps, k', b)
    requires WaitOf(k', a) == WaitOf(k, a)
    ensures Ahead(k', id, a, b) || WaitOf(k', b) == Over(Sem(id), ByTimeout)
    decreases |steps|
  {
    if steps != [] {
      hide Inv, Perform, Enabled, InFront;
      PerformKeeps(k, steps[0]);
      var k1 := Perform(k, steps[0]);
      WaitEnds(k, steps[0], a);
      if WaitOf(k1, a) != WaitOf(k, a) {
        OverOnce(k1, steps[1..], k', a);
      } else {
        StepKeepsAhead(k, steps[0], id, a, b);
        if Ahead(k1, id, a, b) {
          NoOvertaking(k1, steps[1..], k', id, a, b);
        } else {
          OverOnce(k1, steps[1..], k', b);
        }
      }
    }
  }
}
