/** The scheduler, and the calls that block threads and wake them up, in place (scheduler.c, thread.c, ipc.c). */
module KernelObjects {
  import opened Lists
  import opened FirstBit
  import opened ReadyQueue
  import ReadyOrder

  class Scheduler {
    const table: array<seq<Thread>>
    var group: Bits
    var tcb: map<Thread, Tcb>
    var current: Thread
    var lock: nat

    ghost predicate Valid()
      reads this, table
    {
      table.Length == Priorities && Shape(State())
    }

    ghost function State(): Queue
      reads this, table
    {
      Queue(table[..], group, tcb)
    }

    /** rt_system_scheduler_init, for threads that are made but not started. */
    constructor (tcb: map<Thread, Tcb>, current: Thread)
      requires forall t :: t in tcb ==> tcb[t].base < Priorities && tcb[t].prio < Priorities
      ensures Valid() && State() == Queue(seq(Priorities, _ => []), 0, tcb) && fresh(table)
      ensures this.current == current && lock == 0
    {
      table := new seq<Thread>[Priorities](_ => []);
      group, this.tcb, this.current, lock := 0, tcb, current, 0;
      new;
      assert table[..] == seq(Priorities, _ => []);
    }

    /** rt_schedule_insert_thread. */
    method InsertThread(t: Thread)
      requires Valid() && t in tcb
      modifies `tcb, `group, table
      ensures Valid() && State() == Insert(old(State()), t)
      ensures ReadyOrder.Joins(old(State()), State(), t)
    {
      ReadyOrder.InsertJoins(State(), t);
      hide Or, ReadyOrder.Joins;
      var c := tcb[t];
      tcb := tcb[t := c.(stat := Ready)];
      table[c.prio] := table[c.prio] + [t];
      group := Or(group, c.mask);
    }

    /** rt_schedule_remove_thread. */
    method RemoveThread(t: Thread)
      requires Valid() && t in tcb
      modifies `group, table
      ensures Valid() && State() == Remove(old(State()), t)
    {
      hide Minus, Without;
      var c := tcb[t];
      table[c.prio] := Without(table[c.prio], t);
      if table[c.prio] == [] {
        group := Minus(group, c.mask);
      }
    }

    /** rt_thread_suspend. */
    method Suspend(t: Thread) returns (ok: bool)
      requires Valid() && t in tcb
      modifies `tcb, `group, table
      ensures Valid() && State() == Suspended(old(State()), t) && ok == (old(tcb)[t].stat == Ready)
    {
      hide Remove;
      ok := tcb[t].stat == Ready;
      if ok {
        tcb := tcb[t := tcb[t].(stat := Stat.Suspend)];
        RemoveThread(t);
      }
    }

    /** rt_thread_resume, as far as the ready lists are concerned. */
    method Resume(t: Thread) returns (ok: bool)
      requires Valid() && t in tcb
      modifies `tcb, `group, table
      ensures Valid() && State() == Resumed(old(State()), t) && ok == (old(tcb)[t].stat == Stat.Suspend)
    {
      hide Insert;
      ok := tcb[t].stat == Stat.Suspend;
      if ok {
        InsertThread(t);
      }
    }

    /** rt_thread_startup without the call of the scheduler. */
    method Startup(t: Thread)
      requires Valid() && t in tcb && tcb[t].stat == Fresh
      modifies `tcb, `group, table
      ensures Valid() && State() == Started(old(State()), t)
    {
      hide Bit, Insert;
      tcb := tcb[t := tcb[t].(prio := tcb[t].base, mask := Bit(tcb[t].base))];
      tcb := tcb[t := tcb[t].(stat := Stat.Suspend)];
      assert State() == WithStat(WithPriority(old(State()), t, old(tcb[t].base)), t, Stat.Suspend);
      var _ := Resume(t);
    }

    /** rt_thread_control with RT_THREAD_CTRL_CHANGE_PRIORITY. */
    method ChangePriority(t: Thread, p: nat)
      requires Valid() && t in tcb && p < Priorities
      modifies `tcb, `group, table
      ensures Valid() && State() == PriorityChanged(old(State()), t, p)
    {
      hide Bit, Insert, Remove;
      if tcb[t].stat == Ready {
        RemoveThread(t);
        tcb := tcb[t := tcb[t].(prio := p, mask := Bit(p))];
        InsertThread(t);
      } else {
        tcb := tcb[t := tcb[t].(prio := p, mask := Bit(p))];
      }
    }

    /** rt_thread_yield without the call of the scheduler. */
    method Yield()
      requires Valid() && current in tcb
      modifies table
      ensures Valid() && State() == Yielded(old(State()), current)
    {
      hide Without;
      var p := tcb[current].prio;
      if tcb[current].stat == Ready && |table[p]| >= 2 {
        table[p] := Without(table[p], current) + [current];
      }
    }

    /** rt_thread_exit without the call of the scheduler. */
    method Exit()
      requires Valid() && current in tcb
      modifies `tcb, `group, table
      ensures Valid() && State() == Ended(old(State()), current)
    {
      hide Remove;
      RemoveThread(current);
      tcb := tcb[current := tcb[current].(stat := Closed)];
    }

    /** rt_schedule: the first thread of the best priority runs, unless the scheduler is locked. */
    method Schedule()
      requires Valid() && Inv(State()) && SomeReady(tcb)
      modifies `current
      ensures lock > 0 ==> current == old(current)
      ensures lock == 0 ==> Best(State(), current)
    {
      hide Inv, Ffs, Shape, SomeReady, Best;
      if lock == 0 {
        BestIs(State());
        var highest := Ffs(group) - 1;
        var to := table[highest][0];
        if to != current {
          current := to;
        }
      }
    }

    /** rt_enter_critical. */
    method EnterCritical()
      modifies `lock
      ensures lock == old(lock) + 1
    {
      lock := lock + 1;
    }

    /** rt_exit_critical. */
    method ExitCritical()
      requires Valid() && Inv(State()) && SomeReady(tcb)
      modifies `lock, `current
      ensures lock == (if old(lock) > 1 then old(lock) - 1 else 0)
      ensures lock > 0 ==> current == old(current)
      ensures lock == 0 ==> Best(State(), current)
    {
      hide Inv, Best, SomeReady;
      if lock <= 1 {
        lock := 0;
        Schedule();
      } else {
        lock := lock - 1;
      }
    }
  }

  ghost predicate SomeReady(tcb: map<Thread, Tcb>) { exists t :: t in tcb && tcb[t].stat == Ready }

  /** The thread is ready and the first of its list, and no ready thread has a better priority. */
  ghost predicate Best(q: Queue, c: Thread) {
    && Shape(q) && c in q.tcb && q.tcb[c].stat == Ready && q.table[q.tcb[c].prio] != []
    && q.table[q.tcb[c].prio][0] == c
    && forall t :: t in q.tcb && q.tcb[t].stat == Ready ==> q.tcb[c].prio <= q.tcb[t].prio
  }

  lemma BestIs(q: Queue)
    requires Inv(q) && SomeReady(q.tcb)
    ensures |q.table| == Priorities && 0 < Ffs(q.group) <= 32 && q.table[Ffs(q.group) - 1] != []
    ensures Best(q, q.table[Ffs(q.group) - 1][0])
  {
    var t :| t in q.tcb && q.tcb[t].stat == Ready;
    ChosenIsBest(q, t);
  }
}
