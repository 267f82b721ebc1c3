/** The threads of kernel_spec with the timers of timer_spec: the timer of thread t is timer t, its function is
    rt_thread_timeout, which starts and stops no timer. A wait that times out does so at its deadline (thread.c, ipc.c,
    timer.c). */
module TimedWaits {
  import opened Lists
  import opened TimerSpec
  import opened TimerDeadlines
  import K = KernelSpec

  type Thread = K.Thread

  datatype Timed = Timed(k: K.Kernel, s: System)

  const NoCommands: Script := (calls, id) => []

  ghost predicate OneShot(s: System) {
    forall id :: 0 <= id < |s.timers| ==> !s.timers[id].periodic
  }

  /** All timers are one-shot, and the active ones are on the list. */
  ghost predicate TimersOk(s: System, lo: nat) { Inv(s, lo) && ActiveListed(s, {}) && OneShot(s) }

  /** A thread waits with a timeout exactly while its timer is on the list. */
  ghost predicate Coupled(x: Timed, lo: nat) {
    K.Inv(x.k) && TimersOk(x.s, lo) && forall t: Thread :: t in x.k.timers <==> t in x.s.list
  }

  /** What a step of the running thread or of an interrupt does to the timers: rt_sem_take and rt_thread_sleep start the timer
      of the thread they suspend, rt_thread_resume stops that of the thread it resumes. */
  function Commands(k: K.Kernel, step: K.Step, ticks: nat): seq<Cmd> {
    match step
    case CallTake(id, time) =>
      if id in k.sems && k.sems[id].value == 0 && time > 0 then [SetTime(k.current, time), Start(k.current)] else []
    case CallSleep => [SetTime(k.current, ticks), Start(k.current)]
    case CallRelease(id) => if id in k.sems && k.sems[id].waiters != [] then [Stop(k.sems[id].waiters[0])] else []
    case _ => []
  }

  datatype Step = Act(step: K.Step, ticks: nat) | Tick

  /** The timers fire in ticks only, and delays are in range; the thread that waits has a timer. */
  ghost predicate Possible(x: Timed, step: Step) {
    match step
    case Tick => true
    case Act(s, ticks) =>
      && K.Enabled(x.k, s) && !s.TimerFires?
      && (s.CallSleep? ==> 1 <= ticks < HALF) && (s.CallTake? ==> s.time < HALF)
      && (s.CallSleep? || s.CallTake? ==> x.k.current < |x.s.timers|)
  }

  // ---------------------------------------------------------------- the timer of one thread

  lemma TwoCommands(s: System, a: Cmd, b: Cmd)
    ensures Executed(s, [a, b]) == Execute(Execute(s, a), b) && Executed(s, [a]) == Execute(s, a)
  {
    assert [a, b][1..] == [b] && [b][1..] == [] && [a][1..] == [];
    hide Execute;
    assert Executed(Execute(s, a), [b]) == Executed(Execute(Execute(s, a), b), []);
  }

  lemma TimeSet(s: System, t: Thread, n: nat)
    requires TimersOk(s, s.now + 1) && t < |s.timers| && 1 <= n < HALF
    ensures var s' := Execute(s, SetTime(t, n));
            && TimersOk(s', s.now + 1) && s'.list == s.list && s'.due == s.due && s'.timers[t].init == n
            && s'.timers[t].activated == s.timers[t].activated
  {
    ExecuteKeeps(s, SetTime(t, n), s.now + 1);
    hide Inv;
  }

  lemma TimerStarted(s: System, t: Thread)
    requires TimersOk(s, s.now + 1) && t < |s.timers| && !s.timers[t].activated
    ensures var s' := Execute(s, Start(t));
            && TimersOk(s', s.now + 1) && DueOf(s'.due, t) == s.now + s.timers[t].init
            && (forall u :: u in s'.list <==> u in s.list || u == t)
            && (forall u :: u in s.list ==> DueOf(s'.due, u) == DueOf(s.due, u))
  {
    ExecuteKeeps(s, Start(t), s.now + 1);
    ExecuteActive(s, Start(t), {}, s.now + 1);
    StartedPending(s, t);
    StartIs(s, t);
    forall u: Thread
      ensures u in Execute(s, Start(t)).list <==> u in s.list || u == t
      ensures u in s.list ==> DueOf(Execute(s, Start(t)).due, u) == DueOf(s.due, u)
    {
      ExecuteList(s, Start(t), u, s.now + 1);
    }
    hide Inv, Inserted, Position, ActiveListed;
  }

  /** rt_timer_control and rt_timer_start of a thread that is suspended with a timeout. */
  lemma TimerBegun(s: System, t: Thread, n: nat)
    requires TimersOk(s, s.now + 1) && t < |s.timers| && t !in s.list && 1 <= n < HALF
    ensures var s' := Executed(s, [SetTime(t, n), Start(t)]);
            && TimersOk(s', s.now + 1) && DueOf(s'.due, t) == s.now + n
            && (forall u :: u in s'.list <==> u in s.list || u == t)
            && (forall u :: u in s.list ==> DueOf(s'.due, u) == DueOf(s.due, u))
  {
    assert !s.timers[t].activated;
    hide TimersOk, Execute, Executed;
    TwoCommands(s, SetTime(t, n), Start(t));
    TimeSet(s, t, n);
    TimerStarted(Execute(s, SetTime(t, n)), t);
  }

  /** rt_timer_stop of a thread that is resumed. */
  lemma TimerStopped(s: System, t: Thread)
    requires TimersOk(s, s.now + 1)
    ensures var s' := Executed(s, [Stop(t)]);
            && TimersOk(s', s.now + 1) && s'.due == s.due && forall u :: u in s'.list <==> u in s.list && u != t
  {
    TwoCommands(s, Stop(t), Stop(t));
    if t < |s.timers| {
      UnlinkedKeeps(s, t, s.now + 1);
      ExecuteKeeps(s, Stop(t), s.now + 1);
      ExecuteActive(s, Stop(t), {}, s.now + 1);
      hide Distinct, Sorted, Without;
    }
  }

  /** A round of the check, when the function of the timer gives no command. */
  lemma TimerFired(s: System)
    requires TimersOk(s, s.now) && s.list != [] && DueOf(s.due, s.list[0]) <= s.now
    ensures var s1 := Fired(s, NoCommands);
            && TimersOk(s1, s.now) && s1.now == s.now && |s1.timers| == |s.timers| && s1.due == s.due
            && s1.fired == s.fired + [Firing(s.list[0], s.now, s.now)] && DueOf(s.due, s.list[0]) == s.now
            && (forall u :: u in s1.list <==> u in s.list && u != s.list[0])
            && s.list[0] in Overdue(s) && Overdue(s1) < Overdue(s)
  {
    assert s.list[0] in Overdue(s);
    HeadPopped(s);
    FiredKeeps(s, NoCommands);
    hide Inv, Overdue, ActiveListed;
    assert Executed(Popped(s), []) == Popped(s);
  }

  // ---------------------------------------------------------------- the threads of a step

  lemma TimersAfter(k: K.Kernel, step: K.Step)
    requires K.Inv(k) && K.Enabled(k, step)
    ensures K.Perform(k, step).timers
         == match step {
              case CallTake(id, time) => if k.sems[id].value == 0 && time > 0 then k.timers + {k.current} else k.timers
              case CallSleep => k.timers + {k.current}
              case CallRelease(id) => if k.sems[id].waiters != [] then k.timers - {k.sems[id].waiters[0]} else k.timers
              case TimerFires(t) => k.timers - {t}
              case _ => k.timers
            }
  {
    hide K.RQ.Inv, Distinct;
    K.IdleIsReady(k);
    if step.CallRelease? && k.sems[step.id].waiters != [] {
      var u := k.sems[step.id].waiters[0];
      assert K.SemOk(k, step.id) && u in k.sems[step.id].waiters;
      assert K.WaitsOn(k, u, step.id) && K.WaitOk(k, u);
    }
  }

  /** The thread that calls has no timer running. */
  lemma CallerHasNone(k: K.Kernel)
    requires K.Inv(k) && K.Runs(k)
    ensures k.current !in k.timers
  {
    assert K.WaitOk(k, k.current);
  }

  ghost function Acted(x: Timed, step: K.Step, ticks: nat): Timed
    requires K.Inv(x.k) && K.Enabled(x.k, step)
  {
    Timed(K.Perform(x.k, step), Executed(x.s, Commands(x.k, step, ticks)))
  }

  /** The timer commands of a step do to the list what the step does to the waiting threads. */
  lemma CommandsFollow(k: K.Kernel, s: System, step: K.Step, ticks: nat)
    requires K.Inv(k) && TimersOk(s, s.now + 1) && (forall t: Thread :: t in k.timers <==> t in s.list)
    requires Possible(Timed(k, s), Act(step, ticks))
    ensures var s' := Executed(s, Commands(k, step, ticks));
            && TimersOk(s', s.now + 1) && (forall t: Thread :: t in K.Perform(k, step).timers <==> t in s'.list)
            && (forall t :: t in s.list && t in s'.list ==> DueOf(s'.due, t) == DueOf(s.due, t))
  {
    TimersAfter(k, step);
    hide K.Inv, K.Perform, TimersOk, Execute, Executed;
    if step.CallSleep? || (step.CallTake? && k.sems[step.id].value == 0 && step.time > 0) {
      CallerHasNone(k);
      TimerBegun(s, k.current, if step.CallSleep? then ticks else step.time);
    } else if step.CallRelease? && k.sems[step.id].waiters != [] {
      TimerStopped(s, k.sems[step.id].waiters[0]);
    } else {
      assert Commands(k, step, ticks) == [];
      NothingDone(s);
    }
  }

  lemma NothingDone(s: System)
    ensures Executed(s, []) == s
  {
  }

  /** A step of a thread or an interrupt keeps threads and timers coupled; a thread that goes on waiting keeps its deadline. */
  lemma ActKeeps(x: Timed, step: K.Step, ticks: nat)
    requires Coupled(x, x.s.now + 1) && Possible(x, Act(step, ticks))
    ensures var x' := Acted(x, step, ticks);
            && Coupled(x', x.s.now + 1) && x'.s.now == x.s.now && x'.s.fired == x.s.fired
            && forall t :: t in x.s.list && t in x'.s.list ==> DueOf(x'.s.due, t) == DueOf(x.s.due, t)
  {
    hide K.Inv, K.Perform, K.Enabled, TimersOk, Executed, Commands;
    K.PerformKeeps(x.k, step);
    CommandsFollow(x.k, x.s, step, ticks);
  }

  // ---------------------------------------------------------------- the check

  /** The timer at the head of the list expires, and its thread becomes ready. */
  ghost function Woken(x: Timed): Timed
    requires Coupled(x, x.s.now) && x.s.list != []
  {
    HeadWaits(x);
    Timed(K.Perform(x.k, K.TimerFires(x.s.list[0])), Fired(x.s, NoCommands))
  }

  lemma HeadWaits(x: Timed)
    requires Coupled(x, x.s.now) && x.s.list != []
    ensures K.Enabled(x.k, K.TimerFires(x.s.list[0]))
  {
    assert x.s.list[0] in x.s.list;
  }

  lemma WokenKeeps(x: Timed)
    requires Coupled(x, x.s.now) && x.s.list != [] && DueOf(x.s.due, x.s.list[0]) <= x.s.now
    ensures Coupled(Woken(x), x.s.now) && Overdue(Woken(x).s) < Overdue(x.s)
    ensures Woken(x).s.now == x.s.now && Woken(x).s.due == x.s.due && DueOf(x.s.due, x.s.list[0]) == x.s.now
    ensures Woken(x).s.fired == x.s.fired + [Firing(x.s.list[0], x.s.now, x.s.now)]
    ensures forall u :: u in Woken(x).s.list <==> u in x.s.list && u != x.s.list[0]
  {
    HeadWaits(x);
    TimerFired(x.s);
    K.PerformKeeps(x.k, K.TimerFires(x.s.list[0]));
    TimersAfter(x.k, K.TimerFires(x.s.list[0]));
    hide K.Inv, K.Perform, K.Enabled, TimersOk, Fired, Overdue;
  }

  /** rt_timer_check with the threads it makes ready. */
  ghost function Swept(x: Timed): Timed
    requires Coupled(x, x.s.now)
    decreases Overdue(x.s)
  {
    if x.s.list == [] || DueOf(x.s.due, x.s.list[0]) > x.s.now then x
    else
      WokenKeeps(x);
      Swept(Woken(x))
  }

  lemma {:induction false} SweptKeeps(x: Timed)
    requires Coupled(x, x.s.now)
    ensures Coupled(Swept(x), x.s.now + 1) && Swept(x).s.now == x.s.now && x.s.fired <= Swept(x).s.fired
    decreases Overdue(x.s)
  {
    if x.s.list == [] || DueOf(x.s.due, x.s.list[0]) > x.s.now {
      hide K.Inv, ActiveListed, OneShot;
      AllLater(x.s);
    } else {
      hide Coupled, Woken, Overdue;
      WokenKeeps(x);
      SweptKeeps(Woken(x));
    }
  }

  /** A thread whose timer runs, due at d. */
  ghost predicate WaitsUntil(x: Timed, t: Thread, p: K.Place, d: nat) {
    t in x.s.list && DueOf(x.s.due, t) == d && K.WaitOf(x.k, t) == K.Waiting(p, true)
  }

  ghost predicate IsOver(x: Timed, t: Thread, p: K.Place, r: K.Reason) {
    t !in x.s.list && K.WaitOf(x.k, t) == K.Over(p, r)
  }

  /** Who is not on the list has no running timer. */
  lemma OverIsOff(x: Timed, lo: nat, t: Thread)
    requires Coupled(x, lo) && K.WaitOf(x.k, t).Over?
    ensures t !in x.s.list
  {
    assert K.WaitOk(x.k, t);
  }

  lemma WokenOther(x: Timed, t: Thread)
    requires Coupled(x, x.s.now) && x.s.list != [] && DueOf(x.s.due, x.s.list[0]) <= x.s.now && x.s.list[0] != t
    ensures K.WaitOf(x.k, t).Waiting? || K.WaitOf(x.k, t).Over? ==> K.WaitOf(Woken(x).k, t) == K.WaitOf(x.k, t)
  {
    HeadWaits(x);
    var step := K.TimerFires(x.s.list[0]);
    if K.WaitOf(x.k, t).Waiting? {
      K.WaitEnds(x.k, step, t);
    } else if K.WaitOf(x.k, t).Over? {
      K.OverStays(x.k, step, t);
    }
    hide Coupled, Fired;
  }

  lemma WokenHead(x: Timed, p: K.Place)
    requires Coupled(x, x.s.now) && x.s.list != [] && K.WaitOf(x.k, x.s.list[0]) == K.Waiting(p, true)
    ensures K.WaitOf(Woken(x).k, x.s.list[0]) == K.Over(p, K.ByTimeout)
  {
    HeadWaits(x);
    K.WaitEnds(x.k, K.TimerFires(x.s.list[0]), x.s.list[0]);
    hide Coupled, Fired;
  }

  lemma SweptStep(x: Timed, t: Thread)
    requires Coupled(x, x.s.now) && x.s.list != [] && DueOf(x.s.due, x.s.list[0]) <= x.s.now
    ensures Coupled(Woken(x), Woken(x).s.now) && Woken(x).s.now == x.s.now && Overdue(Woken(x).s) < Overdue(x.s)
    ensures Swept(x) == Swept(Woken(x))
    ensures TimesOf(New(x.s.fired, Swept(x).s.fired), t)
         == (if x.s.list[0] == t then [x.s.now] else []) + TimesOf(New(Woken(x).s.fired, Swept(x).s.fired), t)
  {
    WokenKeeps(x);
    SweptKeeps(Woken(x));
    hide Coupled, Woken, Overdue, TimesOf, New;
    TimesOfOne(x.s.fired, Firing(x.s.list[0], x.s.now, x.s.now), t);
    TimesBetween(x.s.fired, Woken(x).s.fired, Swept(x).s.fired, t);
  }

  /** A wait that is over does not end again. */
  lemma {:induction false} SweptOver(x: Timed, t: Thread, p: K.Place, r: K.Reason)
    requires Coupled(x, x.s.now) && IsOver(x, t, p, r)
    ensures IsOver(Swept(x), t, p, r) && TimesOf(New(x.s.fired, Swept(x).s.fired), t) == []
    decreases Overdue(x.s)
  {
    if x.s.list == [] || DueOf(x.s.due, x.s.list[0]) > x.s.now {
      TimesOfNone(x.s.fired, t);
    } else {
      assert x.s.list[0] != t;
      WokenOther(x, t);
      WokenKeeps(x);
      assert IsOver(Woken(x), t, p, r);
      hide Coupled, Woken, Overdue, TimesOf, New, Swept, IsOver;
      SweptStep(x, t);
      SweptOver(Woken(x), t, p, r);
    }
  }

  /** A thread that waits until d is made ready by the check at tick d, and by no earlier one. */
  lemma {:induction false} SweptWait(x: Timed, t: Thread, p: K.Place, d: nat)
    requires Coupled(x, x.s.now) && WaitsUntil(x, t, p, d)
    ensures var x' := Swept(x);
            if d <= x.s.now then IsOver(x', t, p, K.ByTimeout) && TimesOf(New(x.s.fired, x'.s.fired), t) == [d]
            else WaitsUntil(x', t, p, d) && TimesOf(New(x.s.fired, x'.s.fired), t) == []
    decreases Overdue(x.s)
  {
    if x.s.list == [] || DueOf(x.s.due, x.s.list[0]) > x.s.now {
      AllLater(x.s);
      TimesOfNone(x.s.fired, t);
    } else {
      WokenKeeps(x);
      if x.s.list[0] == t {
        WokenHead(x, p);
        assert IsOver(Woken(x), t, p, K.ByTimeout);
        hide Coupled, Woken, Overdue, TimesOf, New, Swept, IsOver;
        SweptStep(x, t);
        SweptOver(Woken(x), t, p, K.ByTimeout);
      } else {
        WokenOther(x, t);
        assert WaitsUntil(Woken(x), t, p, d);
        hide Coupled, Woken, Overdue, TimesOf, New, Swept, WaitsUntil, IsOver;
        SweptStep(x, t);
        SweptWait(Woken(x), t, p, d);
      }
    }
  }

  // ---------------------------------------------------------------- runs

  lemma Later(x: Timed)
    requires Coupled(x, x.s.now + 1)
    ensures Coupled(x.(s := x.s.(now := x.s.now + 1)), x.s.now + 1)
  {
    TimerRuns.TickedInv(x.s);
    hide K.Inv, Inv;
  }

  ghost function Advance(x: Timed, step: Step): Timed
    requires Coupled(x, x.s.now + 1) && Possible(x, step)
  {
    match step
    case Act(s, ticks) => Acted(x, s, ticks)
    case Tick =>
      Later(x);
      Swept(x.(s := x.s.(now := x.s.now + 1)))
  }

  lemma AdvanceKeeps(x: Timed, step: Step)
    requires Coupled(x, x.s.now + 1) && Possible(x, step)
    ensures var x' := Advance(x, step);
            Coupled(x', x'.s.now + 1) && x.s.fired <= x'.s.fired && x'.s.now == x.s.now + (if step.Tick? then 1 else 0)
  {
    hide Coupled, Possible, Acted, Swept;
    match step
    case Act(s, ticks) => ActKeeps(x, s, ticks);
    case Tick =>
      Later(x);
      SweptKeeps(x.(s := x.s.(now := x.s.now + 1)));
  }

  /** A run in which t does not return from the call it waits in. */
  ghost predicate ReachesWithout(x: Timed, steps: seq<Step>, x': Timed, t: Thread)
    requires Coupled(x, x.s.now + 1)
    decreases |steps|
  {
    if steps == [] then x' == x
    else
      Possible(x, steps[0]) && !(steps[0].Act? && steps[0].step == K.Returns && x.k.current == t)
      && (AdvanceKeeps(x, steps[0]); ReachesWithout(Advance(x, steps[0]), steps[1..], x', t))
  }

  /** A step of a thread or an interrupt: a wait goes on with its deadline, or is ended by a resume. */
  lemma ActWait(x: Timed, step: K.Step, ticks: nat, t: Thread, p: K.Place, d: nat)
    requires Coupled(x, x.s.now + 1) && Possible(x, Act(step, ticks)) && WaitsUntil(x, t, p, d)
    ensures WaitsUntil(Acted(x, step, ticks), t, p, d) || IsOver(Acted(x, step, ticks), t, p, K.ByResume)
    ensures Acted(x, step, ticks).s.fired == x.s.fired && x.s.now < d
  {
    ActKeeps(x, step, ticks);
    K.WaitEnds(x.k, step, t);
    var x' := Acted(x, step, ticks);
    assert K.WaitOk(x'.k, t);
    hide K.Perform, K.Enabled, K.RQ.Inv, Executed, Distinct, Sorted;
  }

  lemma ActOver(x: Timed, step: K.Step, ticks: nat, t: Thread, p: K.Place, r: K.Reason)
    requires Coupled(x, x.s.now + 1) && Possible(x, Act(step, ticks)) && IsOver(x, t, p, r)
    requires !(step == K.Returns && x.k.current == t)
    ensures IsOver(Acted(x, step, ticks), t, p, r) && Acted(x, step, ticks).s.fired == x.s.fired
  {
    ActKeeps(x, step, ticks);
    K.OverStays(x.k, step, t);
    OverIsOff(Acted(x, step, ticks), x.s.now + 1, t);
    hide K.Perform, K.Enabled, K.RQ.Inv, Executed, Coupled;
  }

  lemma AdvanceOver(x: Timed, step: Step, t: Thread, p: K.Place, r: K.Reason)
    requires Coupled(x, x.s.now + 1) && Possible(x, step) && IsOver(x, t, p, r)
    requires !(step.Act? && step.step == K.Returns && x.k.current == t)
    ensures IsOver(Advance(x, step), t, p, r) && TimesOf(New(x.s.fired, Advance(x, step).s.fired), t) == []
  {
    hide Coupled, Possible, Acted, Swept, TimesOf, New;
    match step
    case Act(s, ticks) =>
      ActOver(x, s, ticks, t, p, r);
      TimesOfNone(x.s.fired, t);
    case Tick =>
      Later(x);
      SweptOver(x.(s := x.s.(now := x.s.now + 1)), t, p, r);
  }

  /** What has become of a wait until d, the timer having fired at these ticks since. */
  ghost predicate Outcome(x: Timed, t: Thread, p: K.Place, d: nat, times: seq<nat>) {
    || (WaitsUntil(x, t, p, d) && x.s.now < d && times == [])
    || (IsOver(x, t, p, K.ByResume) && times == [])
    || (IsOver(x, t, p, K.ByTimeout) && times == [d] && d <= x.s.now)
  }

  lemma AdvanceWait(x: Timed, step: Step, t: Thread, p: K.Place, d: nat)
    requires Coupled(x, x.s.now + 1) && Possible(x, step) && WaitsUntil(x, t, p, d)
    ensures Outcome(Advance(x, step), t, p, d, TimesOf(New(x.s.fired, Advance(x, step).s.fired), t))
  {
    hide Coupled, Possible, Acted, Swept, TimesOf, New, WaitsUntil, IsOver;
    DueAhead(x, t, p, d);
    match step
    case Act(s, ticks) =>
      ActWait(x, s, ticks, t, p, d);
      ActKeeps(x, s, ticks);
      TimesOfNone(x.s.fired, t);
    case Tick =>
      Later(x);
      var y := x.(s := x.s.(now := x.s.now + 1));
      assert WaitsUntil(y, t, p, d) by { SameWait(x, y, t, p, d); }
      SweptKeeps(y);
      SweptWait(y, t, p, d);
  }

  lemma SameWait(x: Timed, y: Timed, t: Thread, p: K.Place, d: nat)
    requires y.k == x.k && y.s.list == x.s.list && y.s.due == x.s.due && WaitsUntil(x, t, p, d)
    ensures WaitsUntil(y, t, p, d)
  {
  }

  /** The outcome of a first step and then of the rest of a run. */
  lemma OutcomeAfter(x: Timed, x1: Timed, x': Timed, t: Thread, p: K.Place, d: nat)
    requires x.s.fired <= x1.s.fired <= x'.s.fired && x1.s.now <= x'.s.now
    requires Outcome(x1, t, p, d, TimesOf(New(x.s.fired, x1.s.fired), t))
    requires WaitsUntil(x1, t, p, d) ==> Outcome(x', t, p, d, TimesOf(New(x1.s.fired, x'.s.fired), t))
    requires forall r :: IsOver(x1, t, p, r) ==> IsOver(x', t, p, r) && TimesOf(New(x1.s.fired, x'.s.fired), t) == []
    ensures Outcome(x', t, p, d, TimesOf(New(x.s.fired, x'.s.fired), t))
  {
    hide WaitsUntil, TimesOf, New;
    TimesBetween(x.s.fired, x1.s.fired, x'.s.fired, t);
    var first, rest := TimesOf(New(x.s.fired, x1.s.fired), t), TimesOf(New(x1.s.fired, x'.s.fired), t);
    assert first == [] ==> first + rest == rest;
    assert rest == [] ==> first + rest == first;
  }

  lemma DueAhead(x: Timed, t: Thread, p: K.Place, d: nat)
    requires Coupled(x, x.s.now + 1) && WaitsUntil(x, t, p, d)
    ensures x.s.now < d
  {
  }

  lemma {:induction false} RunOver(x: Timed, steps: seq<Step>, x': Timed, t: Thread, p: K.Place, r: K.Reason)
    requires Coupled(x, x.s.now + 1) && ReachesWithout(x, steps, x', t) && IsOver(x, t, p, r)
    ensures Coupled(x', x'.s.now + 1) && x.s.fired <= x'.s.fired && x.s.now <= x'.s.now
    ensures IsOver(x', t, p, r) && TimesOf(New(x.s.fired, x'.s.fired), t) == []
    decreases |steps|
  {
    if steps == [] {
      TimesOfNone(x.s.fired, t);
    } else {
      hide Coupled, Possible, Advance, IsOver, TimesOf, New;
      var x1 := Advance(x, steps[0]);
      AdvanceKeeps(x, steps[0]);
      AdvanceOver(x, steps[0], t, p, r);
      RunOver(x1, steps[1..], x', t, p, r);
      TimesBetween(x.s.fired, x1.s.fired, x'.s.fired, t);
    }
  }

  lemma {:induction false} RunForward(x: Timed, steps: seq<Step>, x': Timed, t: Thread)
    requires Coupled(x, x.s.now + 1) && ReachesWithout(x, steps, x', t)
    ensures Coupled(x', x'.s.now + 1) && x.s.fired <= x'.s.fired && x.s.now <= x'.s.now
    decreases |steps|
  {
    if steps != [] {
      hide Coupled, Possible, Advance;
      AdvanceKeeps(x, steps[0]);
      RunForward(Advance(x, steps[0]), steps[1..], x', t);
    }
  }

  /** A timed wait, however threads and interrupts interleave until the thread runs again: it goes on only before its deadline
      d; or a resume has ended it, and its timer has not fired; or it has timed out, its timer having fired once, at tick d. */
  lemma {:induction false} TimedWait(x: Timed, steps: seq<Step>, x': Timed, t: Thread, p: K.Place, d: nat)
    requires Coupled(x, x.s.now + 1) && ReachesWithout(x, steps, x', t) && WaitsUntil(x, t, p, d)
    ensures Coupled(x', x'.s.now + 1) && x.s.fired <= x'.s.fired
    ensures Outcome(x', t, p, d, TimesOf(New(x.s.fired, x'.s.fired), t))
    decreases |steps|
  {
    if steps == [] {
      TimesOfNone(x.s.fired, t);
      DueAhead(x, t, p, d);
    } else {
      hide Coupled, Possible, Advance, TimesOf, New;
      var x1 := Advance(x, steps[0]);
      AdvanceKeeps(x, steps[0]);
      AdvanceWait(x, steps[0], t, p, d);
      hide IsOver, WaitsUntil, Outcome;
      if WaitsUntil(x1, t, p, d) {
        TimedWait(x1, steps[1..], x', t, p, d);
      }
      forall r | IsOver(x1, t, p, r)
        ensures IsOver(x', t, p, r) && TimesOf(New(x1.s.fired, x'.s.fired), t) == []
      {
        RunOver(x1, steps[1..], x', t, p, r);
      }
      RunForward(x1, steps[1..], x', t);
      OutcomeAfter(x, x1, x', t, p, d);
    }
  }

  /** The waits that begin with a deadline: rt_sem_take with a timeout while no permit is there, and rt_thread_sleep. */
  lemma WaitBegins(x: Timed, step: K.Step, ticks: nat)
    requires Coupled(x, x.s.now + 1) && Possible(x, Act(step, ticks))
    ensures step.CallSleep? ==> WaitsUntil(Acted(x, step, ticks), x.k.current, K.Sleep, x.s.now + ticks)
    ensures step.CallTake? && x.k.sems[step.id].value == 0 && step.time > 0 ==>
              WaitsUntil(Acted(x, step, ticks), x.k.current, K.Sem(step.id), x.s.now + step.time)
  {
    if step.CallSleep? || (step.CallTake? && x.k.sems[step.id].value == 0 && step.time > 0) {
      CallerHasNone(x.k);
      TimerBegun(x.s, x.k.current, if step.CallSleep? then ticks else step.time);
    }
    hide K.RQ.Inv, Executed, TimersOk;
  }

  /** rt_thread_sleep(n) called at tick now: the thread is not made ready before tick now + n, and it is made ready by the
      check of that tick. */
  lemma SleepsExactly(x: Timed, n: nat, x1: Timed, steps: seq<Step>, x': Timed)
    requires Coupled(x, x.s.now + 1) && Possible(x, Act(K.CallSleep, n)) && x1 == Acted(x, K.CallSleep, n)
    requires Coupled(x1, x1.s.now + 1) && ReachesWithout(x1, steps, x', x.k.current)
    ensures var t, d := x.k.current, x.s.now + n;
            if x'.s.now < d then WaitsUntil(x', t, K.Sleep, d)
            else IsOver(x', t, K.Sleep, K.ByTimeout) && TimesOf(New(x1.s.fired, x'.s.fired), t) == [d]
  {
    var t, d := x.k.current, x.s.now + n;
    hide Acted, Possible, TimesOf, New, TimersOk, K.RQ.Inv;
    WaitBegins(x, K.CallSleep, n);
    TimedWait(x1, steps, x', t, K.Sleep, d);
    assert K.WaitOk(x'.k, t);
  }

  /** Nobody waits and no timer runs. */
  lemma StartCoupled(k: K.Kernel, timers: seq<Timer>, now: nat)
    requires K.Inv(k) && k.timers == {}
    requires forall id :: 0 <= id < |timers| ==>
               1 <= timers[id].init < HALF && timers[id].timeout == 0 && !timers[id].periodic && !timers[id].activated
    ensures Coupled(Timed(k, System(now, [], timers, map[], [])), now + 1)
  {
    hide K.Inv;
  }
}
