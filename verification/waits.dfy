/** The sections of rt_sem_take, rt_sem_release and rt_thread_sleep, and the timeout of a thread, in place (ipc.c, thread.c,
    timer.c). */
module Waits {
  import opened Lists
  import IpcList
  import RQ = ReadyQueue
  import opened KernelSpec
  import opened KernelObjects

  /** How a section of rt_sem_take ends: with a permit, with -RT_ETIMEOUT, or suspended. */
  datatype Status = Taken | TimedOut | Blocked

  class Core {
    const scheduler: Scheduler
    var timers: set<Thread>
    var error: map<Thread, Error>
    var sems: map<Id, Semaphore>
    /** What a thread waits for; also says which list its node is on. */
    var wait: map<Thread, Wait>

    ghost predicate Valid()
      reads this, scheduler, scheduler.table
    {
      scheduler.Valid()
    }

    ghost function State(): Kernel
      reads this, scheduler, scheduler.table
    {
      Kernel(scheduler.State(), scheduler.current, scheduler.lock, timers, error, wait, sems)
    }

    constructor (scheduler: Scheduler, sems: map<Id, Semaphore>)
      requires scheduler.Valid()
      ensures Valid() && this.scheduler == scheduler
      ensures State() == Kernel(scheduler.State(), scheduler.current, scheduler.lock, {}, map[], map[], sems)
    {
      this.scheduler, this.sems := scheduler, sems;
      timers, error, wait := {}, map[], map[];
    }

    /** rt_sem_take up to the call of the scheduler. */
    method TakeSection(id: Id, time: int) returns (status: Status)
      requires Valid() && scheduler.current in scheduler.tcb && id in sems
      modifies this, scheduler, scheduler.table
      ensures Valid() && State() == Take(old(State()), old(scheduler.current), id, time)
      ensures status == if old(sems)[id].value > 0 then Taken else if time == 0 then TimedOut else Blocked
      ensures status == TimedOut ==> State() == old(State())
      ensures status == Taken ==> State() == old(State()).(sems := sems) && sems[id].waiters == old(sems)[id].waiters
      ensures status == Blocked ==> time != 0 && WaitOf(State(), old(scheduler.current)) == Waiting(Sem(id), time > 0)
    {
      hide RQ.Suspended, IpcList.Suspended;
      var s, t := sems[id], scheduler.current;
      if s.value > 0 {
        sems := sems[id := s.(value := s.value - 1, taken := s.taken + 1)];
        return Taken;
      }
      if time == 0 {
        return TimedOut;
      }
      error := error[t := Ok];
      var _ := scheduler.Suspend(t);
      var list := IpcList.Insert(s.waiters, t, s.flag, Priorities(scheduler.tcb));
      sems := sems[id := s.(waiters := list)];
      if time > 0 {
        timers := timers + {t};
      }
      wait := wait[t := Waiting(Sem(id), time > 0)];
      return Blocked;
    }

    /** rt_thread_resume: off the timer list, and ready. */
    method Wake(t: Thread)
      requires Valid() && t in scheduler.tcb
      modifies `timers, scheduler`tcb, scheduler`group, scheduler.table
      ensures Valid() && State() == Resume(old(State()), t)
    {
      hide RQ.Insert;
      var ok := scheduler.Resume(t);
      if ok {
        timers := timers - {t};
      }
    }

    /** rt_sem_release; `reschedule` says that a thread has been resumed. */
    method ReleaseSection(id: Id) returns (reschedule: bool)
      requires Valid() && id in sems && (sems[id].waiters != [] ==> sems[id].waiters[0] in scheduler.tcb)
      modifies this, scheduler`tcb, scheduler`group, scheduler.table
      ensures Valid() && State() == Release(old(State()), id)
      ensures reschedule == (old(sems)[id].waiters != [])
    {
      hide RQ.Insert;
      var s := sems[id];
      reschedule := s.waiters != [];
      if reschedule {
        var t := s.waiters[0];
        sems := sems[id := s.(waiters := s.waiters[1..], released := s.released + 1, taken := s.taken + 1)];
        Wake(t);
        wait := wait[t := Over(Sem(id), ByResume)];
      } else {
        sems := sems[id := s.(value := (s.value + 1) % 0x1_0000, released := s.released + 1)];
      }
    }

    /** rt_thread_sleep up to the call of the scheduler. */
    method SleepSection()
      requires Valid() && scheduler.current in scheduler.tcb
      modifies this, scheduler, scheduler.table
      ensures Valid() && State() == SleepFor(old(State()), old(scheduler.current))
    {
      hide RQ.Suspended;
      var t := scheduler.current;
      var _ := scheduler.Suspend(t);
      timers := timers + {t};
      wait := wait[t := Waiting(Sleep, true)];
    }

    /** rt_timer_check for the timer of a thread, and rt_thread_timeout; the thread is suspended, as that asserts. */
    method TimeoutSection(t: Thread)
      requires Valid() && Inv(State()) && t in timers && t in scheduler.tcb
      modifies this, scheduler`tcb, scheduler`group, scheduler.table
      ensures Valid() && State() == Expire(old(State()), t)
    {
      hide RQ.Insert, Inv;
      TimersOfSuspended(State(), t);
      assert scheduler.tcb[t].stat == RQ.Suspend;
      timers := timers - {t};
      error := error[t := Timeout];
      if t in wait && wait[t].Waiting? && wait[t].sem.Sem? && wait[t].sem.id in sems {
        var id := wait[t].sem.id;
        sems := sems[id := sems[id].(waiters := Without(sems[id].waiters, t))];
      }
      scheduler.InsertThread(t);
      wait := wait[t := Over(wait[t].sem, ByTimeout)];
    }
  }
}
