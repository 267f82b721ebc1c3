/** Threads that run, wait for semaphores or sleep, with the timers that end their waits: one atomic step for every section
    of the scheduler, of rt_sem_take, rt_sem_release and rt_thread_sleep, and of the timer interrupt (thread.c, scheduler.c,
    ipc.c, timer.c). */
module KernelSpec {
  import opened Lists
  import IpcList
  import FirstBit
  import RQ = ReadyQueue

  type Thread = RQ.Thread
  type Id = nat

  /** thread->error, RT_EOK or -RT_ETIMEOUT. */
  datatype Error = Ok | Timeout

  datatype Reason = ByResume | ByTimeout

  /** A wait goes on until a resume or a timeout ends it, and is over for the thread when it runs again. Without a
      semaphore it is a sleep. */
  datatype Wait = NoWait | Waiting(sem: Place, timed: bool) | Over(sem: Place, reason: Reason)

  datatype Place = Sleep | Sem(id: Id)

  /** `initial`, `released` and `taken` count the permits a semaphore was made with, that were released and that were
      taken. */
  datatype Semaphore = Semaphore(value: nat, flag: IpcList.Flag, waiters: seq<Thread>, initial: nat, released: nat,
                                 taken: nat)

  /** `timers` are the threads whose timer is on the timer list. */
  datatype Kernel = Kernel(ready: RQ.Queue, current: Thread, lock: nat, timers: set<Thread>, error: map<Thread, Error>,
                           wait: map<Thread, Wait>, sems: map<Id, Semaphore>)

  const IdleThread: Thread := 0

  function WaitOf(k: Kernel, t: Thread): Wait { if t in k.wait then k.wait[t] else NoWait }

  function ErrorOf(k: Kernel, t: Thread): Error { if t in k.error then k.error[t] else Ok }

  function Priorities(tcb: map<Thread, RQ.Tcb>): map<Thread, nat> { map t | t in tcb :: tcb[t].prio }

  // ---------------------------------------------------------------- the sections

  /** rt_thread_resume: off its list, its timer stopped, and ready. */
  function Resume(k: Kernel, t: Thread): Kernel
    requires RQ.Shape(k.ready) && t in k.ready.tcb
  {
    if RQ.StatOf(k.ready, t) != RQ.Suspend then k
    else k.(timers := k.timers - {t}, ready := RQ.Insert(k.ready, t))
  }

  /** rt_sem_take without waiting, or the section that suspends the thread. */
  function Take(k: Kernel, t: Thread, id: Id, time: int): Kernel
    requires RQ.Shape(k.ready) && t in k.ready.tcb && id in k.sems
  {
    var s := k.sems[id];
    if s.value > 0 then k.(sems := k.sems[id := s.(value := s.value - 1, taken := s.taken + 1)])
    else if time == 0 then k
    else
      var ready := RQ.Suspended(k.ready, t);
      k.(ready := ready, error := k.error[t := Ok],
         timers := if time > 0 then k.timers + {t} else k.timers,
         sems := k.sems[id := s.(waiters := IpcList.Suspended(s.waiters, t, s.flag, Priorities(ready.tcb)))],
         wait := k.wait[t := Waiting(Sem(id), time > 0)])
  }

  /** rt_thread_sleep up to the call of the scheduler. */
  function SleepFor(k: Kernel, t: Thread): Kernel
    requires RQ.Shape(k.ready) && t in k.ready.tcb
  {
    k.(ready := RQ.Suspended(k.ready, t), timers := k.timers + {t}, wait := k.wait[t := Waiting(Sleep, true)])
  }

  /** rt_sem_release: the permit goes to the first waiting thread or to the value, which has 16 bits. */
  function Release(k: Kernel, id: Id): Kernel
    requires RQ.Shape(k.ready) && id in k.sems
  {
    var s := k.sems[id];
    if s.waiters != [] && s.waiters[0] in k.ready.tcb then
      var t := s.waiters[0];
      Resume(k, t).(sems := k.sems[id := s.(waiters := s.waiters[1..], released := s.released + 1, taken := s.taken + 1)],
                    wait := k.wait[t := Over(Sem(id), ByResume)])
    else k.(sems := k.sems[id := s.(value := (s.value + 1) % 0x1_0000, released := s.released + 1)])
  }

  /** The list of the semaphore that t waits for, without t. */
  function OffList(k: Kernel, t: Thread): map<Id, Semaphore> {
    match WaitOf(k, t)
    case Waiting(Sem(id), _) =>
      if id in k.sems then k.sems[id := k.sems[id].(waiters := Without(k.sems[id].waiters, t))] else k.sems
    case _ => k.sems
  }

  /** The timer of a thread expires: rt_timer_check takes it off the list, rt_thread_timeout makes the thread ready. */
  function Expire(k: Kernel, t: Thread): Kernel
    requires RQ.Shape(k.ready) && t in k.ready.tcb
  {
    k.(timers := k.timers - {t}, error := k.error[t := Timeout], ready := RQ.Insert(k.ready, t),
       sems := OffList(k, t),
       wait := k.wait[t := if WaitOf(k, t).Waiting? then Over(WaitOf(k, t).sem, ByTimeout) else NoWait])
  }

  /** The thread runs again and returns; a sleep turns its timeout into success. */
  function Return(k: Kernel, t: Thread): Kernel {
    k.(wait := k.wait[t := NoWait],
       error := if WaitOf(k, t).Over? && WaitOf(k, t).sem == Sleep && ErrorOf(k, t) == Timeout then k.error[t := Ok]
                else k.error)
  }

  /** rt_schedule. */
  function Schedule(k: Kernel): Kernel
    requires |k.ready.table| == RQ.Priorities && 0 < FirstBit.Ffs(k.ready.group) <= 32
    requires k.ready.table[FirstBit.Ffs(k.ready.group) - 1] != []
  {
    if k.lock == 0 then k.(current := RQ.Chosen(k.ready)) else k
  }

  datatype Step =
    | Startup(t: Thread)
    | CallTake(id: Id, time: int)
    | CallSleep
    | CallRelease(id: Id)
    | TimerFires(t: Thread)
    | Returns
    | Reschedule
    | Yield
    | ChangePriority(t: Thread, p: nat)
    | Exit
    | EnterCritical
    | ExitCritical

  /** The running thread calls a kernel function. */
  ghost predicate Runs(k: Kernel) {
    RQ.StatOf(k.ready, k.current) == RQ.Ready && WaitOf(k, k.current) == NoWait
  }

  /** A thread blocks only with the scheduler unlocked, and the idle thread never. Releases, timers and the scheduler may come
      from an interrupt at any time. */
  ghost predicate Enabled(k: Kernel, s: Step) {
    match s
    case Startup(t) => t in k.ready.tcb
    case CallTake(id, time) => Runs(k) && id in k.sems && (time != 0 ==> k.lock == 0 && k.current != IdleThread)
    case CallSleep => Runs(k) && k.lock == 0 && k.current != IdleThread
    case CallRelease(id) => id in k.sems && (k.sems[id].waiters == [] ==> k.sems[id].value < 0xffff)
    case TimerFires(t) => t in k.timers
    case Returns => RQ.StatOf(k.ready, k.current) == RQ.Ready && WaitOf(k, k.current).Over?
    case Reschedule => true
    case Yield => true
    case ChangePriority(t, p) => t in k.ready.tcb && p < RQ.Priorities
    case Exit => Runs(k) && k.current != IdleThread
    case EnterCritical => Runs(k)
    case ExitCritical => Runs(k)
  }

  ghost function Perform(k: Kernel, s: Step): Kernel
    requires Inv(k) && Enabled(k, s)
  {
    IdleIsReady(k);
    match s
    case Startup(t) => k.(ready := RQ.Started(k.ready, t))
    case CallTake(id, time) => Take(k, k.current, id, time)
    case CallSleep => SleepFor(k, k.current)
    case CallRelease(id) => Release(k, id)
    case TimerFires(t) => Expire(k, t)
    case Returns => Return(k, k.current)
    case Reschedule => Schedule(k)
    case Yield => k.(ready := RQ.Yielded(k.ready, k.current))
    case ChangePriority(t, p) => k.(ready := RQ.PriorityChanged(k.ready, t, p))
    case Exit => k.(ready := RQ.Ended(k.ready, k.current))
    case EnterCritical => k.(lock := k.lock + 1)
    case ExitCritical => if k.lock <= 1 then Schedule(k.(lock := 0)) else k.(lock := k.lock - 1)
  }

  // ---------------------------------------------------------------- invariant

  /** A thread is suspended exactly while it waits, its timer runs exactly while it waits with a timeout, and when a wait is
      over, the error tells why. */
  ghost predicate WaitOk(k: Kernel, t: Thread) {
    && (WaitOf(k, t).Waiting? <==> RQ.StatOf(k.ready, t) == RQ.Suspend)
    && (t in k.timers <==> WaitOf(k, t).Waiting? && WaitOf(k, t).timed)
    && (WaitOf(k, t).Waiting? && WaitOf(k, t).sem.Sem? ==> WaitOf(k, t).sem.id in k.sems && ErrorOf(k, t) == Ok)
    && (WaitOf(k, t).Waiting? && WaitOf(k, t).sem.Sleep? ==> WaitOf(k, t).timed)
    && (WaitOf(k, t).Over? ==> ErrorOf(k, t) == (if WaitOf(k, t).reason == ByTimeout then Timeout else Ok))
    && (WaitOf(k, t).Over? && WaitOf(k, t).sem.Sleep? ==> WaitOf(k, t).reason == ByTimeout)
    && (WaitOf(k, t).Over? ==> RQ.StatOf(k.ready, t) == RQ.Ready)
  }

  ghost predicate WaitsOn(k: Kernel, t: Thread, id: Id) { WaitOf(k, t).Waiting? && WaitOf(k, t).sem == Sem(id) }

  /** The list of a semaphore has exactly the threads that wait for it; nobody waits while there are permits; and no permit
      is lost or made up. */
  ghost predicate SemOk(k: Kernel, id: Id)
    requires id in k.sems
  {
    var s := k.sems[id];
    && Distinct(s.waiters) && (forall t: Thread :: t in s.waiters <==> WaitsOn(k, t, id))
    && (s.value > 0 ==> s.waiters == [])
    && s.value + s.taken == s.initial + s.released && s.value <= 0xffff
  }

  ghost predicate Inv(k: Kernel) {
    && RQ.Inv(k.ready) && k.current in k.ready.tcb
    && RQ.StatOf(k.ready, IdleThread) == RQ.Ready
    && (forall t: Thread :: WaitOk(k, t))
    && (forall id :: id in k.sems ==> SemOk(k, id))
  }

  lemma IdleIsReady(k: Kernel)
    requires Inv(k)
    ensures |k.ready.table| == RQ.Priorities && 0 < FirstBit.Ffs(k.ready.group) <= 32
    ensures k.ready.table[FirstBit.Ffs(k.ready.group) - 1] != []
    ensures forall t :: t in k.timers ==> t in k.ready.tcb
  {
    RQ.ChosenIsBest(k.ready, IdleThread);
    assert forall t :: t in k.timers ==> WaitOk(k, t);
  }

  // ---------------------------------------------------------------- what a step does to the other threads

  ghost predicate SameFor(k: Kernel, k': Kernel, t: Thread) {
    && RQ.StatOf(k'.ready, t) == RQ.StatOf(k.ready, t) && WaitOf(k', t) == WaitOf(k, t) && ErrorOf(k', t) == ErrorOf(k, t)
    && (t in k'.timers <==> t in k.timers)
  }

  lemma SameWait(k: Kernel, k': Kernel, t: Thread)
    requires WaitOk(k, t) && SameFor(k, k', t) && k'.sems.Keys == k.sems.Keys
    ensures WaitOk(k', t)
  {
  }

  /** Only t changes its state. */
  ghost predicate OnlyStat(q: RQ.Queue, q': RQ.Queue, t: Thread) {
    q'.tcb.Keys == q.tcb.Keys && forall u: Thread :: u != t ==> RQ.StatOf(q', u) == RQ.StatOf(q, u)
  }

  lemma StatInsert(q: RQ.Queue, t: Thread)
    requires RQ.Shape(q) && t in q.tcb
    ensures OnlyStat(q, RQ.Insert(q, t), t) && RQ.StatOf(RQ.Insert(q, t), t) == RQ.Ready
  {
    hide FirstBit.Or, FirstBit.Minus, Without;
  }

  lemma StatSuspended(q: RQ.Queue, t: Thread)
    requires RQ.Shape(q) && t in q.tcb
    ensures OnlyStat(q, RQ.Suspended(q, t), t)
    ensures RQ.StatOf(q, t) == RQ.Ready ==> RQ.StatOf(RQ.Suspended(q, t), t) == RQ.Suspend
  {
    hide FirstBit.Or, FirstBit.Minus, Without;
  }

  lemma StatEnded(q: RQ.Queue, t: Thread)
    requires RQ.Shape(q) && t in q.tcb
    ensures OnlyStat(q, RQ.Ended(q, t), t) && RQ.StatOf(RQ.Ended(q, t), t) == RQ.Closed
  {
    hide FirstBit.Or, FirstBit.Minus, Without;
  }

  lemma StatYielded(q: RQ.Queue, t: Thread)
    requires RQ.Shape(q) && t in q.tcb
    ensures OnlyStat(q, RQ.Yielded(q, t), t) && RQ.StatOf(RQ.Yielded(q, t), t) == RQ.StatOf(q, t)
  {
    hide FirstBit.Or, FirstBit.Minus, Without;
  }

  lemma MoreStats(q: RQ.Queue, t: Thread, p: nat)
    requires RQ.Shape(q) && t in q.tcb && p < RQ.Priorities
    ensures OnlyStat(q, RQ.PriorityChanged(q, t, p), t) && RQ.StatOf(RQ.PriorityChanged(q, t, p), t) == RQ.StatOf(q, t)
    ensures OnlyStat(q, RQ.Started(q, t), t)
    ensures RQ.StatOf(RQ.Started(q, t), t) == if RQ.StatOf(q, t) == RQ.Fresh then RQ.Ready else RQ.StatOf(q, t)
  {
    hide FirstBit.Or, FirstBit.Minus, FirstBit.Bit, Without;
  }

  /** A step that changes the states of no thread but t, and no semaphore. */
  lemma ReadyStep(k: Kernel, k': Kernel, t: Thread)
    requires Inv(k) && k' == k.(ready := k'.ready, current := k'.current, lock := k'.lock)
    requires RQ.Inv(k'.ready) && OnlyStat(k.ready, k'.ready, t) && k'.current in k'.ready.tcb
    requires RQ.StatOf(k'.ready, IdleThread) == RQ.Ready && WaitOk(k', t)
    ensures Inv(k')
  {
    hide RQ.Inv, Distinct;
    forall u: Thread
      ensures WaitOk(k', u)
    {
      assert WaitOk(k, u);
      if u != t { SameWait(k, k', u); }
    }
    forall id | id in k'.sems
      ensures SemOk(k', id)
    {
      assert SemOk(k, id);
      assert forall u: Thread :: WaitsOn(k', u, id) <==> WaitsOn(k, u, id);
    }
  }

  /** A semaphore that a step about t does not concern. */
  lemma SameSem(k: Kernel, k': Kernel, t: Thread, i: Id)
    requires i in k.sems && SemOk(k, i) && i in k'.sems && k'.sems[i] == k.sems[i]
    requires (forall u: Thread :: u != t ==> SameFor(k, k', u)) && (WaitsOn(k', t, i) <==> WaitsOn(k, t, i))
    ensures SemOk(k', i)
  {
    hide Distinct;
    forall u: Thread
      ensures WaitsOn(k', u, i) <==> WaitsOn(k, u, i)
    {
      if u != t { assert SameFor(k, k', u); }
    }
  }

  /** A step about thread t and at most one semaphore. */
  lemma WaitStep(k: Kernel, k': Kernel, t: Thread, id: Id)
    requires Inv(k) && RQ.Inv(k'.ready) && OnlyStat(k.ready, k'.ready, t) && k'.current == k.current && t != IdleThread
    requires forall u: Thread :: u != t ==> SameFor(k, k', u)
    requires WaitOk(k', t) && k'.sems.Keys == k.sems.Keys
    requires forall i :: i in k.sems && i != id ==> k'.sems[i] == k.sems[i] && (WaitsOn(k', t, i) <==> WaitsOn(k, t, i))
    requires id in k.sems ==> SemOk(k', id)
    ensures Inv(k')
  {
    hide RQ.Inv, Distinct, SemOk;
    forall u: Thread
      ensures WaitOk(k', u)
    {
      assert WaitOk(k, u);
      if u != t { SameWait(k, k', u); }
    }
    forall i | i in k'.sems
      ensures SemOk(k', i)
    {
      if i != id { SameSem(k, k', t, i); }
    }
  }

  /** A step about thread t and no semaphore. */
  lemma WaitStepNoSem(k: Kernel, k': Kernel, t: Thread)
    requires Inv(k) && RQ.Inv(k'.ready) && OnlyStat(k.ready, k'.ready, t) && k'.current == k.current && t != IdleThread
    requires forall u: Thread :: u != t ==> SameFor(k, k', u)
    requires WaitOk(k', t) && k'.sems == k.sems && forall i :: i in k.sems ==> (WaitsOn(k', t, i) <==> WaitsOn(k, t, i))
    ensures Inv(k')
  {
    hide RQ.Inv, WaitOk, SemOk;
    if 0 in k.sems { SameSem(k, k', t, 0); }
    WaitStep(k, k', t, 0);
  }

  lemma TakePermitKeeps(k: Kernel, id: Id)
    requires Inv(k) && id in k.sems && k.sems[id].value > 0
    ensures Inv(Take(k, k.current, id, 0))
  {
    var k' := Take(k, k.current, id, 0);
    hide RQ.Inv, Distinct;
    assert SemOk(k, id);
    forall u: Thread
      ensures WaitOk(k', u)
    {
      SameWait(k, k', u);
    }
    forall i | i in k'.sems
      ensures SemOk(k', i)
    {
      assert SemOk(k, i);
      assert forall u: Thread :: WaitsOn(k', u, i) <==> WaitsOn(k, u, i);
    }
  }

  /** The new list of the semaphore, when the running thread begins to wait. */
  lemma NewWaiter(k: Kernel, id: Id, time: int)
    requires Inv(k) && Runs(k) && id in k.sems && k.sems[id].value == 0 && time != 0
    ensures SemOk(Take(k, k.current, id, time), id)
  {
    var t, s, k' := k.current, k.sems[id], Take(k, k.current, id, time);
    assert SemOk(k, id);
    IpcList.SuspendedIs(s.waiters, t, s.flag, Priorities(k'.ready.tcb));
    hide Distinct, IpcList.Suspended, RQ.Suspended, RQ.Inv, Inv;
    assert !WaitsOn(k, t, id);
    forall u: Thread
      ensures u in k'.sems[id].waiters <==> WaitsOn(k', u, id)
    {
      assert u in k'.sems[id].waiters <==> u in s.waiters || u == t;
      assert u != t ==> WaitOf(k', u) == WaitOf(k, u);
    }
  }

  /** What the thread that begins to wait becomes, and the others stay. */
  lemma BeginsToWait(k: Kernel, id: Id, time: int)
    requires RQ.Shape(k.ready) && k.current in k.ready.tcb && WaitOk(k, k.current) && Runs(k)
    requires id in k.sems && k.sems[id].value == 0 && time != 0
    ensures var t, k' := k.current, Take(k, k.current, id, time);
            && OnlyStat(k.ready, k'.ready, t) && WaitOk(k', t) && k'.sems.Keys == k.sems.Keys
            && (forall u: Thread :: u != t ==> SameFor(k, k', u))
            && (forall i :: i in k.sems && i != id ==> k'.sems[i] == k.sems[i] && (WaitsOn(k', t, i) <==> WaitsOn(k, t, i)))
  {
    hide RQ.Suspended, IpcList.Suspended, RQ.Shape;
    StatSuspended(k.ready, k.current);
  }

  lemma TakeWaitKeeps(k: Kernel, id: Id, time: int)
    requires Inv(k) && Runs(k) && k.current != IdleThread && id in k.sems && k.sems[id].value == 0 && time != 0
    ensures Inv(Take(k, k.current, id, time))
  {
    assert WaitOk(k, k.current) && k.current in k.ready.tcb;
    RQ.SuspendedKeeps(k.ready, k.current);
    NewWaiter(k, id, time);
    BeginsToWait(k, id, time);
    hide RQ.Inv, SemOk, WaitOk, SameFor, OnlyStat;
    WaitStep(k, Take(k, k.current, id, time), k.current, id);
  }

  lemma SleepKeeps(k: Kernel)
    requires Inv(k) && Enabled(k, CallSleep)
    ensures Inv(SleepFor(k, k.current))
  {
    var t, k' := k.current, SleepFor(k, k.current);
    assert WaitOk(k, t);
    hide RQ.Suspended, RQ.Inv, SemOk;
    RQ.SuspendedKeeps(k.ready, t);
    assert RQ.Shape(k.ready) by { ShapeOf(k.ready); }
    StatSuspended(k.ready, t);
    WaitStepNoSem(k, k', t);
  }

  lemma ReleaseKeeps(k: Kernel, id: Id)
    requires Inv(k) && Enabled(k, CallRelease(id))
    ensures Inv(Release(k, id))
  {
    var s, k' := k.sems[id], Release(k, id);
    assert SemOk(k, id);
    if s.waiters == [] {
      PostKeeps(k, id);
    } else {
      var t := s.waiters[0];
      assert t in s.waiters && WaitsOn(k, t, id) && WaitOk(k, t);
      assert RQ.StatOf(k.ready, t) == RQ.Suspend;
      hide RQ.Inv, RQ.Insert, SemOk;
      RQ.InsertKeeps(k.ready, t);
      StatInsert(k.ready, t);
      FirstResumed(k, id);
      WaitStep(k, k', t, id);
    }
  }

  lemma PostKeeps(k: Kernel, id: Id)
    requires Inv(k) && id in k.sems && k.sems[id].waiters == [] && k.sems[id].value < 0xffff
    ensures Inv(Release(k, id))
  {
    var k' := Release(k, id);
    hide RQ.Inv, Distinct;
    forall u: Thread
      ensures WaitOk(k', u)
    {
      SameWait(k, k', u);
    }
    forall i | i in k'.sems
      ensures SemOk(k', i)
    {
      assert SemOk(k, i);
      assert forall u: Thread :: WaitsOn(k', u, i) <==> WaitsOn(k, u, i);
    }
  }

  lemma FirstResumed(k: Kernel, id: Id)
    requires Inv(k) && id in k.sems && k.sems[id].waiters != [] && k.sems[id].waiters[0] in k.ready.tcb
    ensures SemOk(Release(k, id), id)
  {
    var s, k' := k.sems[id], Release(k, id);
    hide RQ.Inv, RQ.Insert, Distinct;
    assert SemOk(k, id);
    var t := s.waiters[0];
    DistinctTail(s.waiters);
    forall u: Thread
      ensures u in k'.sems[id].waiters <==> WaitsOn(k', u, id)
    {
      assert u != t ==> WaitOf(k', u) == WaitOf(k, u);
    }
  }

  /** A timer only expires for a thread that is suspended: the assertion of rt_thread_timeout holds. */
  lemma TimersOfSuspended(k: Kernel, t: Thread)
    requires Inv(k) && t in k.timers
    ensures RQ.StatOf(k.ready, t) == RQ.Suspend && WaitOf(k, t).Waiting? && WaitOf(k, t).timed
  {
    assert WaitOk(k, t);
  }

  lemma ShapeOf(q: RQ.Queue)
    requires RQ.Inv(q)
    ensures RQ.Shape(q)
  {
  }

  /** What the thread whose timer expires becomes, and the others stay. */
  lemma ExpireOthers(k: Kernel, t: Thread)
    requires RQ.Shape(k.ready) && t in k.ready.tcb && WaitOk(k, t) && WaitOf(k, t).Waiting?
    ensures var k' := Expire(k, t);
            && OnlyStat(k.ready, k'.ready, t) && WaitOk(k', t) && k'.sems.Keys == k.sems.Keys
            && (forall u: Thread :: u != t ==> SameFor(k, k', u))
  {
    hide RQ.Insert, Without;
    StatInsert(k.ready, t);
  }

  lemma ExpireKeeps(k: Kernel, t: Thread)
    requires Inv(k) && t in k.timers && t in k.ready.tcb
    ensures Inv(Expire(k, t))
  {
    var k' := Expire(k, t);
    assert WaitOk(k, t);
    hide RQ.Inv, RQ.Insert, SemOk;
    TimersOfSuspended(k, t);
    RQ.InsertKeeps(k.ready, t);
    ExpireOthers(k, t);
    if WaitOf(k, t).sem.Sem? {
      var id := WaitOf(k, t).sem.id;
      ExpireSem(k, t, id);
      hide SameFor, OnlyStat, WaitOk, Without;
      WaitStep(k, k', t, id);
    } else {
      hide SameFor, OnlyStat, WaitOk;
      WaitStepNoSem(k, k', t);
    }
  }

  lemma ExpireSem(k: Kernel, t: Thread, id: Id)
    requires Inv(k) && t in k.ready.tcb && id in k.sems && WaitsOn(k, t, id)
    ensures SemOk(Expire(k, t), id)
  {
    var s, k' := k.sems[id], Expire(k, t);
    hide RQ.Inv, RQ.Insert, Distinct, Without;
    assert SemOk(k, id);
    WithoutKeepsOthers<nat>(s.waiters, t);
    assert k'.sems[id] == s.(waiters := Without(s.waiters, t));
    forall u: Thread
      ensures u in k'.sems[id].waiters <==> WaitsOn(k', u, id)
    {
      assert u != t ==> WaitOf(k', u) == WaitOf(k, u);
    }
  }

  lemma ReturnKeeps(k: Kernel)
    requires Inv(k) && Enabled(k, Returns)
    ensures Inv(Return(k, k.current))
  {
    var t, k' := k.current, Return(k, k.current);
    assert WaitOk(k, t);
    hide RQ.Inv, Distinct;
    forall u: Thread
      ensures WaitOk(k', u)
    {
      assert WaitOk(k, u);
      if u != t { SameWait(k, k', u); }
    }
    forall i | i in k'.sems
      ensures SemOk(k', i)
    {
      assert SemOk(k, i);
      assert forall u: Thread :: WaitsOn(k', u, i) <==> WaitsOn(k, u, i);
    }
  }

  lemma ScheduleKeeps(k: Kernel, lock: nat)
    requires Inv(k)
    ensures |k.ready.table| == RQ.Priorities && 0 < FirstBit.Ffs(k.ready.group) <= 32
    ensures k.ready.table[FirstBit.Ffs(k.ready.group) - 1] != []
    ensures Inv(Schedule(k.(lock := lock)))
  {
    IdleIsReady(k);
    RQ.ChosenIsBest(k.ready, IdleThread);
    assert WaitOk(k, IdleThread);
    hide RQ.Inv, SemOk;
    ReadyStep(k, Schedule(k.(lock := lock)), IdleThread);
  }

  lemma StartupKeeps(k: Kernel, t: Thread)
    requires Inv(k) && t in k.ready.tcb
    ensures Inv(k.(ready := RQ.Started(k.ready, t)))
  {
    assert WaitOk(k, t);
    MoreStats(k.ready, t, 0);
    RQ.StartedKeeps(k.ready, t);
    hide RQ.Inv, RQ.Started, SemOk;
    ReadyStep(k, k.(ready := RQ.Started(k.ready, t)), t);
  }

  lemma ChangePriorityKeeps(k: Kernel, t: Thread, p: nat)
    requires Inv(k) && t in k.ready.tcb && p < RQ.Priorities
    ensures Inv(k.(ready := RQ.PriorityChanged(k.ready, t, p)))
  {
    assert WaitOk(k, t);
    MoreStats(k.ready, t, p);
    RQ.PriorityChangedKeeps(k.ready, t, p);
    hide RQ.Inv, RQ.PriorityChanged, SemOk;
    ReadyStep(k, k.(ready := RQ.PriorityChanged(k.ready, t, p)), t);
  }

  lemma YieldKeeps(k: Kernel)
    requires Inv(k)
    ensures k.current in k.ready.tcb && RQ.Shape(k.ready) && Inv(k.(ready := RQ.Yielded(k.ready, k.current)))
  {
    var t := k.current;
    assert WaitOk(k, t);
    hide RQ.Inv, RQ.Yielded, SemOk;
    ShapeOf(k.ready);
    StatYielded(k.ready, t);
    RQ.YieldedKeeps(k.ready, t);
    ReadyStep(k, k.(ready := RQ.Yielded(k.ready, t)), t);
  }

  lemma ExitKeeps(k: Kernel)
    requires Inv(k) && Enabled(k, Exit)
    ensures Inv(k.(ready := RQ.Ended(k.ready, k.current)))
  {
    var t := k.current;
    assert WaitOk(k, t);
    hide RQ.Inv, RQ.Ended, SemOk;
    ShapeOf(k.ready);
    StatEnded(k.ready, t);
    RQ.EndedKeeps(k.ready, t);
    ReadyStep(k, k.(ready := RQ.Ended(k.ready, t)), t);
  }

  lemma PerformKeeps(k: Kernel, s: Step)
    requires Inv(k) && Enabled(k, s)
    ensures Inv(Perform(k, s))
  {
    IdleIsReady(k);
    hide RQ.Inv, WaitOk, SemOk, RQ.StatOf;
    match s
    case Startup(t) => StartupKeeps(k, t);
    case Yield => YieldKeeps(k);
    case ChangePriority(t, p) => ChangePriorityKeeps(k, t, p);
    case Exit => ExitKeeps(k);
    case CallTake(id, time) =>
      if k.sems[id].value > 0 { TakePermitKeeps(k, id); } else if time != 0 { TakeWaitKeeps(k, id, time); }
    case CallSleep => SleepKeeps(k);
    case CallRelease(id) => ReleaseKeeps(k, id);
    case TimerFires(t) => ExpireKeeps(k, t);
    case Returns => ReturnKeeps(k);
    case Reschedule => ScheduleKeeps(k, k.lock);
    case EnterCritical => LockKeeps(k, k.lock + 1);
    case ExitCritical =>
      if k.lock <= 1 { ScheduleKeeps(k, 0); } else { LockKeeps(k, k.lock - 1); }
  }

  lemma LockKeeps(k: Kernel, lock: nat)
    requires Inv(k)
    ensures Inv(k.(lock := lock))
  {
    hide RQ.Inv, SemOk;
    assert WaitOk(k, IdleThread);
    ReadyStep(k, k.(lock := lock), IdleThread);
  }

  // ---------------------------------------------------------------- runs

  ghost predicate Reaches(k: Kernel, steps: seq<Step>, k': Kernel)
    decreases |steps|
  {
    if steps == [] then k' == k
    else Inv(k) && Enabled(k, steps[0]) && Reaches(Perform(k, steps[0]), steps[1..], k')
  }

  lemma {:induction false} RunKeeps(k: Kernel, steps: seq<Step>, k': Kernel)
    requires Inv(k) && Reaches(k, steps, k')
    ensures Inv(k')
    decreases |steps|
  {
    if steps != [] {
      hide Inv, Perform, Enabled;
      PerformKeeps(k, steps[0]);
      RunKeeps(Perform(k, steps[0]), steps[1..], k');
    }
  }

  /** In every reachable state: permits are conserved and nobody waits for one that is there; the timer of a thread is on the
      list exactly while it waits with a timeout, and it is suspended then; and the scheduler, unlocked, picks the first
      ready thread of the best priority. */
  lemma EveryState(k: Kernel, steps: seq<Step>, k': Kernel)
    requires Inv(k) && Reaches(k, steps, k')
    ensures forall id :: id in k'.sems ==>
      var s := k'.sems[id];
      s.value + s.taken == s.initial + s.released && (s.waiters != [] ==> s.value == 0)
    ensures forall t :: t in k'.timers ==> RQ.StatOf(k'.ready, t) == RQ.Suspend && WaitOf(k', t).Waiting?
    ensures Inv(k') && Enabled(k', Reschedule) && (k'.lock == 0 ==>
      var c := Perform(k', Reschedule).current;
      RQ.StatOf(k'.ready, c) == RQ.Ready
      && forall t :: t in k'.ready.tcb && k'.ready.tcb[t].stat == RQ.Ready ==> k'.ready.tcb[c].prio <= k'.ready.tcb[t].prio)
  {
    RunKeeps(k, steps, k');
    RQ.ChosenIsBest(k'.ready, IdleThread);
    hide RQ.Inv, Distinct;
    forall id | id in k'.sems
      ensures var s := k'.sems[id]; s.value + s.taken == s.initial + s.released && (s.waiters != [] ==> s.value == 0)
    {
      assert SemOk(k', id);
    }
    forall t | t in k'.timers
      ensures RQ.StatOf(k'.ready, t) == RQ.Suspend && WaitOf(k', t).Waiting?
    {
      TimersOfSuspended(k', t);
    }
  }

  // ---------------------------------------------------------------- one reason to wake up

  /** The step releases the semaphore t waits for, t being first on its list. */
  ghost predicate Wakes(k: Kernel, s: Step, t: Thread) {
    s.CallRelease? && WaitsOn(k, t, s.id) && s.id in k.sems && k.sems[s.id].waiters != [] && k.sems[s.id].waiters[0] == t
  }

  /** A thread that waits goes on waiting until the release of its semaphore that finds it first on the list, or its timer:
      either ends the wait, and the error tells which. */
  lemma WaitEnds(k: Kernel, s: Step, t: Thread)
    requires Inv(k) && Enabled(k, s) && WaitOf(k, t).Waiting?
    ensures var w, w' := WaitOf(k, t), WaitOf(Perform(k, s), t);
            && (s == TimerFires(t) ==> w.timed && w' == Over(w.sem, ByTimeout))
            && (Wakes(k, s, t) ==> w' == Over(w.sem, ByResume))
            && (s != TimerFires(t) && !Wakes(k, s, t) ==> w' == w)
  {
    hide RQ.Inv, Distinct;
    assert WaitOk(k, t);
    IdleIsReady(k);
    match s {
      case CallRelease(id) =>
        assert SemOk(k, id);
        if k.sems[id].waiters != [] {
          var u := k.sems[id].waiters[0];
          assert u in k.sems[id].waiters;
          assert WaitsOn(k, u, id) && WaitOk(k, u);
        }
      case _ =>
    }
  }

  /** Once a wait is over, nothing but the thread itself, by running on, changes how it ended. */
  lemma OverStays(k: Kernel, s: Step, t: Thread)
    requires Inv(k) && Enabled(k, s) && WaitOf(k, t).Over? && !(s == Returns && k.current == t)
    ensures WaitOf(Perform(k, s), t) == WaitOf(k, t) && ErrorOf(Perform(k, s), t) == ErrorOf(k, t)
  {
    hide RQ.Inv, Distinct;
    assert WaitOk(k, t);
    IdleIsReady(k);
    match s {
      case CallRelease(id) =>
        assert SemOk(k, id);
        if k.sems[id].waiters != [] { assert WaitsOn(k, k.sems[id].waiters[0], id); }
      case _ =>
    }
  }

  /** A run in which t does not return. */
  ghost predicate ReachesWithout(k: Kernel, steps: seq<Step>, k': Kernel, t: Thread)
    decreases |steps|
  {
    if steps == [] then k' == k
    else Inv(k) && Enabled(k, steps[0]) && !(steps[0] == Returns && k.current == t)
         && ReachesWithout(Perform(k, steps[0]), steps[1..], k', t)
  }

  lemma {:induction false} OverOnce(k: Kernel, steps: seq<Step>, k': Kernel, t: Thread)
    requires Inv(k) && WaitOf(k, t).Over? && ReachesWithout(k, steps, k', t)
    ensures WaitOf(k', t) == WaitOf(k, t) && ErrorOf(k', t) == ErrorOf(k, t)
    decreases |steps|
  {
    if steps != [] {
      hide Inv, Perform, Enabled;
      PerformKeeps(k, steps[0]);
      OverStays(k, steps[0], t);
      OverOnce(Perform(k, steps[0]), steps[1..], k', t);
    }
  }

  /** A wait, however the threads and interrupts interleave until the thread runs again: it is still going on, with its timer
      running iff it has one, or it was ended once, by a resume and without an error, or by a timeout with RT_ETIMEOUT; then
      the thread is ready and its timer is stopped. */
  lemma {:induction false} OneWakeReason(k: Kernel, steps: seq<Step>, k': Kernel, t: Thread)
    requires Inv(k) && WaitOf(k, t).Waiting? && ReachesWithout(k, steps, k', t)
    ensures var w, w' := WaitOf(k, t), WaitOf(k', t);
            && (w' == w || w' == Over(w.sem, ByResume) || (w.timed && w' == Over(w.sem, ByTimeout)))
            && (w' == w ==> RQ.StatOf(k'.ready, t) == RQ.Suspend && (t in k'.timers <==> w.timed))
            && (w' != w ==> RQ.StatOf(k'.ready, t) == RQ.Ready && t !in k'.timers)
            && (w'.Over? ==> ErrorOf(k', t) == (if w'.reason == ByTimeout then Timeout else Ok))
    decreases |steps|
  {
    assert WaitOk(k, t);
    if steps != [] {
      hide Perform, Enabled, Inv;
      PerformKeeps(k, steps[0]);
      WaitEnds(k, steps[0], t);
      var k1 := Perform(k, steps[0]);
      if WaitOf(k1, t) == WaitOf(k, t) {
        OneWakeReason(k1, steps[1..], k', t);
      } else {
        OverOnce(k1, steps[1..], k', t);
        EndsInv(k1, steps[1..], k', t);
      }
    }
  }

  lemma {:induction false} EndsInv(k: Kernel, steps: seq<Step>, k': Kernel, t: Thread)
    requires Inv(k) && ReachesWithout(k, steps, k', t)
    ensures Inv(k') && WaitOk(k', t)
    decreases |steps|
  {
    if steps == [] {
      hide RQ.Inv, WaitOk;
    } else {
      hide Inv, Perform, Enabled;
      PerformKeeps(k, steps[0]);
      EndsInv(Perform(k, steps[0]), steps[1..], k', t);
    }
  }

  // ---------------------------------------------------------------- the first state, and the limit of the value

  function NewSemaphore(value: nat, flag: IpcList.Flag): Semaphore { Semaphore(value, flag, [], value, 0, 0) }

  /** After rt_system_scheduler_init and the startup of the idle thread; the other threads have not been started. */
  function Booted(tcb: map<Thread, RQ.Tcb>, sems: map<Id, Semaphore>): Kernel
    requires IdleThread in tcb && forall t :: t in tcb ==> tcb[t].base < RQ.Priorities && tcb[t].prio < RQ.Priorities
  {
    Kernel(RQ.Started(RQ.Queue(seq(RQ.Priorities, _ => []), 0, tcb), IdleThread), IdleThread, 0, {}, map[], map[], sems)
  }

  lemma BootedInv(tcb: map<Thread, RQ.Tcb>, sems: map<Id, Semaphore>)
    requires IdleThread in tcb && forall t :: t in tcb ==> tcb[t].base < RQ.Priorities && tcb[t].prio < RQ.Priorities
    requires forall t :: t in tcb ==> tcb[t].stat == RQ.Fresh
    requires forall id :: id in sems ==> sems[id].value <= 0xffff && sems[id] == NewSemaphore(sems[id].value, sems[id].flag)
    ensures Inv(Booted(tcb, sems))
  {
    var q := RQ.Queue(seq(RQ.Priorities, _ => []), 0, tcb);
    assert RQ.Inv(q) by {
      forall p | 0 <= p < RQ.Priorities
        ensures !FirstBit.IsSet(0, p)
      {
        FirstBit.NoBits(p);
      }
    }
    RQ.StartedKeeps(q, IdleThread);
    MoreStats(q, IdleThread, 0);
    hide RQ.Inv, RQ.Started, FirstBit.Bit;
  }

  /** Releasing a semaphore that nobody waits for keeps the permits unless the value is at the limit of its 16 bits. */
  lemma ValueLimit(k: Kernel, id: Id)
    requires Inv(k) && id in k.sems && k.sems[id].waiters == []
    ensures var s := Release(k, id).sems[id];
            s.value + s.taken == s.initial + s.released <==> k.sems[id].value < 0xffff
  {
    assert SemOk(k, id);
  }
}
