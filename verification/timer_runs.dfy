/** Runs of the timer list: ticks, calls that run with interrupts disabled, and calls of threads, whose flag test and
    deadline write (before a start disables interrupts) and flag clear (after a stop has enabled them) are steps of their
    own that other threads and interrupts come between. */
module TimerRuns {
  import opened Lists
  import opened TimerSpec

  type Thread = nat

  /** How far a thread is in rt_timer_start, having found the flag clear at tick `since`, or in rt_timer_stop. */
  datatype Open =
    | StartTested(id: Id, since: nat)
    | StartWritten(id: Id)
    | StopTested(id: Id)
    | StopUnlinked(id: Id)

  datatype World = World(sys: System, open: map<Thread, Open>)

  /** `Call` is a call with interrupts disabled. `Write` uses the tick that was read after the test. */
  datatype Step =
    | Tick
    | Call(c: Cmd)
    | BeginStart(t: Thread, id: Id)
    | Write(t: Thread, read: nat)
    | Link(t: Thread)
    | BeginStop(t: Thread, id: Id)
    | Unlink(t: Thread)
    | Clear(t: Thread)

  ghost predicate Possible(w: World, step: Step) {
    match step
    case Tick => true
    case Call(c) => Allowed([c], |w.sys.timers|)
    case BeginStart(t, id) => t !in w.open && id < |w.sys.timers|
    case Write(t, read) => t in w.open && w.open[t].StartTested? && w.open[t].since <= read <= w.sys.now
    case Link(t) => t in w.open && w.open[t].StartWritten?
    case BeginStop(t, id) => t !in w.open && id < |w.sys.timers|
    case Unlink(t) => t in w.open && w.open[t].StopTested?
    case Clear(t) => t in w.open && w.open[t].StopUnlinked?
  }

  /** Timers that have been unlinked and whose flag is still to be cleared. */
  ghost function Off(open: map<Thread, Open>): set<Id> {
    set t | t in open && open[t].StopUnlinked? :: open[t].id
  }

  ghost predicate Good(w: World) {
    && Inv(w.sys, w.sys.now + 1) && ActiveListed(w.sys, Off(w.open))
    && forall t :: t in w.open ==> w.open[t].id < |w.sys.timers|
  }

  /** What a thread writes to timeout_tick. */
  function Deadline(w: World, t: Thread, read: nat): nat {
    if t in w.open && w.open[t].id < |w.sys.timers| then read + w.sys.timers[w.open[t].id].init else 0
  }

  ghost function Perform(w: World, step: Step, script: Script): World
    requires Good(w) && GoodScript(script, |w.sys.timers|) && Possible(w, step)
  {
    match step
    case Tick =>
      TickedInv(w.sys);
      w.(sys := Checked(w.sys.(now := w.sys.now + 1), script))
    case Call(c) => w.(sys := Execute(w.sys, c))
    case BeginStart(t, id) =>
      if w.sys.timers[id].activated then w else w.(open := w.open[t := StartTested(id, w.sys.now)])
    case Write(t, read) =>
      World(Written(w.sys, w.open[t].id, Deadline(w, t, read)), w.open[t := StartWritten(w.open[t].id)])
    case Link(t) => World(Linked(w.sys, w.open[t].id), w.open - {t})
    case BeginStop(t, id) =>
      if !w.sys.timers[id].activated then w else w.(open := w.open[t := StopTested(id)])
    case Unlink(t) => World(Unlinked(w.sys, w.open[t].id), w.open[t := StopUnlinked(w.open[t].id)])
    case Clear(t) => World(Cleared(w.sys, w.open[t].id), w.open - {t})
  }

  lemma TickedInv(s: System)
    requires Inv(s, s.now + 1)
    ensures Inv(s.(now := s.now + 1), s.now + 1)
  {
    hide Sorted, Distinct;
  }

  /** The deadline d fits between those of the timers next to id on the list. */
  ghost predicate Fits(list: seq<Id>, due: map<Id, nat>, id: Id, d: nat) {
    forall i :: 0 <= i < |list| && list[i] == id ==>
      (i > 0 ==> DueOf(due, list[i - 1]) <= d) && (i + 1 < |list| ==> d <= DueOf(due, list[i + 1]))
  }

  ghost predicate FitsAt(list: seq<Id>, due: map<Id, nat>, i: nat, d: nat)
    requires i < |list|
  {
    (i > 0 ==> DueOf(due, list[i - 1]) <= d) && (i + 1 < |list| ==> d <= DueOf(due, list[i + 1]))
  }

  lemma FitsAtIs(list: seq<Id>, due: map<Id, nat>, due': map<Id, nat>, i: nat, d: nat)
    requires i < |list| && Sorted(list, due) && DueOf(due', list[i]) == d
    requires forall j :: 0 <= j < |list| && j != i ==> DueOf(due', list[j]) == DueOf(due, list[j])
    ensures Sorted(list, due') <==> FitsAt(list, due, i, d)
  {
    hide DueOf;
    if FitsAt(list, due, i, d) {
      forall j, k | 0 <= j < k < |list|
        ensures DueOf(due', list[j]) <= DueOf(due', list[k])
      {
        if j == i {
          assert i + 1 == k || DueOf(due, list[i + 1]) <= DueOf(due, list[k]);
        } else if k == i {
          assert j == i - 1 || DueOf(due, list[j]) <= DueOf(due, list[i - 1]);
        }
      }
    } else if i > 0 && DueOf(due, list[i - 1]) > d {
      assert DueOf(due', list[i - 1]) > DueOf(due', list[i]);
    } else {
      assert DueOf(due', list[i]) > DueOf(due', list[i + 1]);
    }
  }

  lemma FitsIs(list: seq<Id>, due: map<Id, nat>, id: Id, d: nat)
    requires Distinct(list) && Sorted(list, due)
    ensures Sorted(list, due[id := d]) <==> Fits(list, due, id, d)
  {
    hide Sorted, Distinct;
    if id !in list {
      OtherDue(list, due, id, d);
    } else {
      var i :| 0 <= i < |list| && list[i] == id;
      OnlyAt(list, id, i);
      FitsAtIs(list, due, due[id := d], i, d);
    }
  }

  lemma OnlyAt(list: seq<Id>, id: Id, i: nat)
    requires Distinct(list) && i < |list| && list[i] == id
    ensures forall j :: 0 <= j < |list| && list[j] == id ==> j == i
  {
  }

  /** When a step of a thread is sound: linking and clearing, when the timer is off the list; linking, when the deadline is
      still ahead; writing, when the timer is off the list, or the deadline is ahead and fits its place. */
  ghost predicate Guard(w: World, step: Step)
    requires Possible(w, step)
  {
    match step
    case Write(t, read) =>
      var id, d := w.open[t].id, Deadline(w, t, read);
      id !in w.sys.list || (Fits(w.sys.list, w.sys.due, id, d) && w.sys.now < d < w.sys.now + HALF)
    case Link(t) =>
      var id := w.open[t].id;
      id !in w.sys.list && w.sys.now < DueOf(w.sys.due, id) < w.sys.now + HALF
    case Clear(t) => w.open[t].id !in w.sys.list
    case _ => true
  }

  ghost predicate IsOff(open: map<Thread, Open>, t: Thread, id: Id) {
    t in open && open[t] == StopUnlinked(id)
  }

  lemma OffSame(a: map<Thread, Open>, b: map<Thread, Open>)
    requires forall t, id :: IsOff(a, t, id) <==> IsOff(b, t, id)
    ensures Off(a) == Off(b)
  {
    forall x
      ensures x in Off(a) <==> x in Off(b)
    {
      if x in Off(a) {
        var t :| t in a && a[t].StopUnlinked? && a[t].id == x;
        assert IsOff(a, t, x) && IsOff(b, t, x);
      }
      if x in Off(b) {
        var t :| t in b && b[t].StopUnlinked? && b[t].id == x;
        assert IsOff(b, t, x) && IsOff(a, t, x);
      }
    }
  }

  lemma WriteKeeps(w: World, t: Thread, read: nat)
    requires Good(w) && Possible(w, Write(t, read))
    ensures Good(World(Written(w.sys, w.open[t].id, Deadline(w, t, read)), w.open[t := StartWritten(w.open[t].id)]))
       <==> Guard(w, Write(t, read))
  {
    var id, d := w.open[t].id, Deadline(w, t, read);
    var open' := w.open[t := StartWritten(id)];
    OffSame(w.open, open');
    FitsIs(w.sys.list, w.sys.due, id, d);
    hide Sorted, Distinct, Off, Fits;
    if id !in w.sys.list {
      WrittenKeeps(w.sys, id, d, w.sys.now + 1);
    }
  }

  lemma LinkedActive(s: System, id: Id, off: set<Id>)
    requires id < |s.timers| && ActiveListed(s, off)
    ensures ActiveListed(Linked(s, id), off)
  {
    InsertedIs(s.list, Position(s.list, s.due, DueOf(s.due, id), 0), id);
    hide Inserted, Position;
  }

  lemma LinkKeeps(w: World, t: Thread)
    requires Good(w) && Possible(w, Link(t))
    ensures Good(World(Linked(w.sys, w.open[t].id), w.open - {t})) <==> Guard(w, Link(t))
  {
    var id := w.open[t].id;
    OffSame(w.open, w.open - {t});
    hide Inv, Off, Inserted, Position, ActiveListed, Linked;
    LinkedKeeps(w.sys, id, w.sys.now + 1);
    LinkedActive(w.sys, id, Off(w.open));
  }

  lemma UnlinkKeeps(w: World, t: Thread)
    requires Good(w) && Possible(w, Unlink(t))
    ensures Good(World(Unlinked(w.sys, w.open[t].id), w.open[t := StopUnlinked(w.open[t].id)]))
  {
    var id := w.open[t].id;
    var open' := w.open[t := StopUnlinked(id)];
    assert id in Off(open') by { assert open'[t].StopUnlinked?; }
    assert Off(w.open) <= Off(open') by {
      forall x | x in Off(w.open)
        ensures x in Off(open')
      {
        var u :| u in w.open && w.open[u].StopUnlinked? && w.open[u].id == x;
        assert open'[u].StopUnlinked? && open'[u].id == x;
      }
    }
    UnlinkedKeeps(w.sys, id, w.sys.now + 1);
    hide Inv, Off, Without;
  }

  lemma ClearKeeps(w: World, t: Thread)
    requires Good(w) && Possible(w, Clear(t))
    ensures Good(World(Cleared(w.sys, w.open[t].id), w.open - {t})) <==> Guard(w, Clear(t))
  {
    var id := w.open[t].id;
    ClearedKeeps(w.sys, id, w.sys.now + 1);
    assert Off(w.open) <= Off(w.open - {t}) + {id} by {
      forall x | x in Off(w.open)
        ensures x in Off(w.open - {t}) + {id}
      {
        var u :| u in w.open && w.open[u].StopUnlinked? && w.open[u].id == x;
        assert u != t ==> u in w.open - {t};
      }
    }
    hide Inv, Off;
  }

  lemma BeginKeeps(w: World, t: Thread, o: Open)
    requires Good(w) && t !in w.open && o.id < |w.sys.timers| && !o.StopUnlinked?
    ensures Good(w.(open := w.open[t := o]))
  {
    OffSame(w.open, w.open[t := o]);
    hide Inv, Off;
  }

  /** Exactly when its guard holds does a step keep the invariant. */
  lemma StepKeeps(w: World, step: Step, script: Script)
    requires Good(w) && GoodScript(script, |w.sys.timers|) && Possible(w, step)
    ensures Good(Perform(w, step, script)) <==> Guard(w, step)
    ensures var w' := Perform(w, step, script);
            |w'.sys.timers| == |w.sys.timers| && w.sys.fired <= w'.sys.fired
            && w'.sys.now == w.sys.now + (if step.Tick? then 1 else 0)
  {
    hide Inv, Checked, Execute, Off, ActiveListed, GoodScript;
    match step
    case Tick =>
      TickedInv(w.sys);
      var s := w.sys.(now := w.sys.now + 1);
      assert ActiveListed(s, Off(w.open)) by { ActiveLater(w.sys, Off(w.open)); }
      CheckedKeeps(s, script, Off(w.open));
    case Call(c) =>
      ExecuteKeeps(w.sys, c, w.sys.now + 1);
      ExecuteActive(w.sys, c, Off(w.open), w.sys.now + 1);
    case BeginStart(t, id) => BeginKeeps(w, t, StartTested(id, w.sys.now));
    case Write(t, read) => WriteKeeps(w, t, read);
    case Link(t) => LinkKeeps(w, t);
    case BeginStop(t, id) => BeginKeeps(w, t, StopTested(id));
    case Unlink(t) => UnlinkKeeps(w, t);
    case Clear(t) => ClearKeeps(w, t);
  }

  lemma ActiveLater(s: System, off: set<Id>)
    requires ActiveListed(s, off)
    ensures ActiveListed(s.(now := s.now + 1), off)
  {
  }

  // ---------------------------------------------------------------- runs

  /** The invariant holds in every state of the run. */
  ghost predicate Throughout(w: World, steps: seq<Step>, script: Script)
    requires Good(w) && GoodScript(script, |w.sys.timers|)
    decreases |steps|
  {
    steps == []
    || (Possible(w, steps[0]) && Good(Perform(w, steps[0], script))
        && (StepKeeps(w, steps[0], script); Throughout(Perform(w, steps[0], script), steps[1..], script)))
  }

  /** Every step finds its guard true. */
  ghost predicate Guarded(w: World, steps: seq<Step>, script: Script)
    requires Good(w) && GoodScript(script, |w.sys.timers|)
    decreases |steps|
  {
    steps == []
    || (Possible(w, steps[0]) && Guard(w, steps[0])
        && (StepKeeps(w, steps[0], script); Guarded(Perform(w, steps[0], script), steps[1..], script)))
  }

  /** A run keeps the list sorted by deadline with every deadline ahead, and everything fired at its deadline, however often
      the 32-bit tick wraps, exactly when every step of a thread between test and link, or between unlink and clear, finds
      its timer as it left it. */
  lemma {:induction false} RunKeepsIff(w: World, steps: seq<Step>, script: Script)
    requires Good(w) && GoodScript(script, |w.sys.timers|)
    ensures Throughout(w, steps, script) <==> Guarded(w, steps, script)
    decreases |steps|
  {
    if steps != [] && Possible(w, steps[0]) {
      hide Good, Guard, Perform, Possible, GoodScript;
      StepKeeps(w, steps[0], script);
      if Guard(w, steps[0]) {
        RunKeepsIff(Perform(w, steps[0], script), steps[1..], script);
      }
    }
  }

  ghost predicate Reaches(w: World, steps: seq<Step>, script: Script, w': World)
    requires Good(w) && GoodScript(script, |w.sys.timers|)
    decreases |steps|
  {
    if steps == [] then w' == w
    else
      Possible(w, steps[0]) && Guard(w, steps[0])
      && (StepKeeps(w, steps[0], script); Reaches(Perform(w, steps[0], script), steps[1..], script, w'))
  }

  lemma {:induction false} RunKeeps(w: World, steps: seq<Step>, script: Script, w': World)
    requires Good(w) && GoodScript(script, |w.sys.timers|) && Reaches(w, steps, script, w')
    ensures Good(w') && |w'.sys.timers| == |w.sys.timers| && w.sys.now <= w'.sys.now && w.sys.fired <= w'.sys.fired
    decreases |steps|
  {
    if steps != [] {
      hide Perform, Good, Possible, Guard, GoodScript;
      StepKeeps(w, steps[0], script);
      RunKeeps(Perform(w, steps[0], script), steps[1..], script, w');
    }
  }

  /** No timer is active and no call is open. */
  lemma StartGood(timers: seq<Timer>, now: nat)
    requires forall id :: 0 <= id < |timers| ==>
               1 <= timers[id].init < HALF && timers[id].timeout == 0 && !timers[id].activated
    ensures Good(World(System(now, [], timers, map[], []), map[]))
  {
  }

  /** What every run from there keeps, while the guards hold: the list is sorted by deadline, without repetitions, all deadlines
      are ahead, and everything has fired at its deadline. */
  lemma EveryState(timers: seq<Timer>, now: nat, steps: seq<Step>, script: Script, w: World)
    requires forall id :: 0 <= id < |timers| ==>
               1 <= timers[id].init < HALF && timers[id].timeout == 0 && !timers[id].activated
    requires GoodScript(script, |timers|)
    requires (StartGood(timers, now); Reaches(World(System(now, [], timers, map[], []), map[]), steps, script, w))
    ensures Distinct(w.sys.list) && Sorted(w.sys.list, w.sys.due)
    ensures forall id :: id in w.sys.list ==> w.sys.now < DueOf(w.sys.due, id) < w.sys.now + HALF
    ensures forall f :: f in w.sys.fired ==> f.at == f.due
  {
    StartGood(timers, now);
    RunKeeps(World(System(now, [], timers, map[], []), map[]), steps, script, w);
    hide Reaches, Distinct, Sorted;
  }

  // ---------------------------------------------------------------- undisturbed calls

  /** One of the timeout functions called since the log had `from` entries gave command c. */
  ghost predicate Ran(script: Script, from: nat, log: seq<Firing>, c: Cmd) {
    exists k :: from <= k < |log| && c in script(k, log[k].id)
  }

  /** A timer off the list keeps its deadline, and stays off and inactive if it was. */
  ghost predicate Resting(s: System, s': System, id: Id)
    requires id < |s.timers| == |s'.timers|
  {
    id !in s'.list && DueOf(s'.due, id) == DueOf(s.due, id) && (s'.timers[id].activated ==> s.timers[id].activated)
  }

  lemma ExecuteRests(s: System, c: Cmd, id: Id, lo: nat)
    requires Inv(s, lo) && Allowed([c], |s.timers|) && id < |s.timers| && id !in s.list
    requires c != Start(id) || s.timers[id].activated
    ensures Resting(s, Execute(s, c), id)
  {
    ExecuteList(s, c, id, lo);
    hide Inv, Allowed, Inserted, Without, Position;
  }

  lemma {:induction false} ExecutedRests(s: System, cmds: seq<Cmd>, id: Id, lo: nat)
    requires Inv(s, lo) && Allowed(cmds, |s.timers|) && s.now <= lo <= s.now + 1 && id < |s.timers| && id !in s.list
    requires Start(id) !in cmds
    ensures Resting(s, Executed(s, cmds), id)
    decreases |cmds|
  {
    if cmds != [] {
      hide Inv, Allowed, Execute;
      FirstAllowed(cmds, |s.timers|);
      ExecuteRests(s, cmds[0], id, lo);
      ExecuteKeeps(s, cmds[0], lo);
      ExecutedRests(Execute(s, cmds[0]), cmds[1..], id, lo);
    }
  }

  lemma FiredRests(s: System, script: Script, id: Id)
    requires Inv(s, s.now) && GoodScript(script, |s.timers|) && s.list != [] && DueOf(s.due, s.list[0]) <= s.now
    requires id < |s.timers| && id !in s.list && Start(id) !in script(|s.fired|, s.list[0])
    ensures |Fired(s, script).timers| == |s.timers| && Resting(s, Fired(s, script), id)
  {
    var h, cmds := s.list[0], script(|s.fired|, s.list[0]);
    assert Allowed(cmds, |s.timers|);
    HeadPopped(s);
    assert Popped(s).timers == s.timers && Popped(s).due == s.due;
    hide Inv, Allowed, Executed, GoodScript, Popped, Rearmed;
    ExecutedKeeps(Popped(s), cmds, s.now, {});
    ExecutedRests(Popped(s), cmds, id, s.now);
    RearmedRests(Executed(Popped(s), cmds), h, id);
  }

  lemma RearmedRests(s: System, h: Id, id: Id)
    requires h < |s.timers| && id < |s.timers| && h != id && id !in s.list
    ensures |Rearmed(s, h).timers| == |s.timers| && Resting(s, Rearmed(s, h), id)
  {
    var s1 := Written(Cleared(s, h), h, s.now + s.timers[h].init);
    InsertedIs(s1.list, Position(s1.list, s1.due, DueOf(s1.due, h), 0), h);
    hide Inserted, Position;
  }

  lemma {:induction false} CheckedRests(s: System, script: Script, id: Id)
    requires Inv(s, s.now) && GoodScript(script, |s.timers|) && id < |s.timers| && id !in s.list
    requires !Ran(script, |s.fired|, Checked(s, script).fired, Start(id))
    ensures |Checked(s, script).timers| == |s.timers| && Resting(s, Checked(s, script), id)
    decreases Overdue(s)
  {
    if s.list != [] && DueOf(s.due, s.list[0]) <= s.now {
      hide Fired, Inv, GoodScript;
      FiredKeeps(s, script);
      assert s.list[0] in Overdue(s);
      var s1 := Fired(s, script);
      CheckedKeeps(s1, script, {});
      var log := Checked(s1, script).fired;
      assert log[|s.fired|].id == s.list[0];
      assert Start(id) !in script(|s.fired|, log[|s.fired|].id);
      FiredRests(s, script, id);
      RanLater(script, |s.fired|, |s1.fired|, log, Start(id));
      CheckedRests(s1, script, id);
    }
  }

  lemma RanLater(script: Script, from: nat, later: nat, log: seq<Firing>, c: Cmd)
    requires from <= later && !Ran(script, from, log, c)
    ensures !Ran(script, later, log, c)
  {
  }

  /** While a thread is between test and link, the timer is inactive; between unlink and clear, it is off the list. */
  ghost predicate AsLeft(w: World, t: Thread) {
    t in w.open && w.open[t].id < |w.sys.timers|
    && match w.open[t]
       case StartTested(id, _) => !w.sys.timers[id].activated
       case StartWritten(id) => !w.sys.timers[id].activated
       case StopTested(id) => true
       case StopUnlinked(id) => id !in w.sys.list
  }

  /** The step starts the timer that t is busy with, or writes its deadline, from another thread, an interrupt or a timeout
      function. */
  ghost predicate Disturbs(w: World, step: Step, script: Script, t: Thread)
    requires Good(w) && GoodScript(script, |w.sys.timers|) && Possible(w, step) && t in w.open
  {
    var id := w.open[t].id;
    match step
    case Tick => Ran(script, |w.sys.fired|, Perform(w, Tick, script).sys.fired, Start(id))
    case Call(c) => c == Start(id)
    case Write(u, _) => w.open[u].id == id
    case Link(u) => w.open[u].id == id
    case _ => false
  }

  ghost predicate IsBy(step: Step, t: Thread) {
    match step
    case Tick => false
    case Call(_) => false
    case _ => step.t == t
  }

  lemma OffList(w: World, t: Thread)
    requires Good(w) && AsLeft(w, t) && !w.open[t].StopTested?
    ensures w.open[t].id !in w.sys.list
  {
    hide Distinct, Sorted;
  }

  lemma CallRests(w: World, c: Cmd, t: Thread)
    requires Good(w) && Allowed([c], |w.sys.timers|) && AsLeft(w, t) && !w.open[t].StopTested? && c != Start(w.open[t].id)
    ensures Resting(w.sys, Execute(w.sys, c), w.open[t].id)
  {
    OffList(w, t);
    hide Allowed;
    ExecuteRests(w.sys, c, w.open[t].id, w.sys.now + 1);
  }

  lemma TickIs(w: World, script: Script)
    requires Good(w) && GoodScript(script, |w.sys.timers|)
    ensures var s := w.sys.(now := w.sys.now + 1); Inv(s, s.now) && Perform(w, Tick, script).sys == Checked(s, script)
    ensures Perform(w, Tick, script).sys.now == w.sys.now + 1
  {
    TickedInv(w.sys);
    hide Inv, Checked, GoodScript;
    StepKeeps(w, Tick, script);
  }

  lemma TickRests(w: World, script: Script, t: Thread)
    requires Good(w) && GoodScript(script, |w.sys.timers|) && AsLeft(w, t) && !w.open[t].StopTested?
    requires !Disturbs(w, Tick, script, t)
    ensures var s' := Perform(w, Tick, script).sys; |s'.timers| == |w.sys.timers| && Resting(w.sys, s', w.open[t].id)
  {
    OffList(w, t);
    hide Good, Inv, Checked, GoodScript, Ran, Perform;
    TickIs(w, script);
    CheckedRests(w.sys.(now := w.sys.now + 1), script, w.open[t].id);
  }

  lemma LinkRests(s: System, id: Id, x: Id)
    requires id < |s.timers| && x < |s.timers| && x != id && x !in s.list
    ensures Resting(s, Linked(s, id), x)
  {
    InsertedIs(s.list, Position(s.list, s.due, DueOf(s.due, id), 0), id);
  }

  /** Whatever leaves the timer at rest leaves the thread as it was. */
  lemma RestingAsLeft(w: World, w': World, t: Thread)
    requires AsLeft(w, t) && t in w'.open && w'.open[t] == w.open[t] && |w'.sys.timers| == |w.sys.timers|
    requires w.open[t].StopTested? || Resting(w.sys, w'.sys, w.open[t].id)
    ensures AsLeft(w', t)
    ensures !w.open[t].StopTested? ==> DueOf(w'.sys.due, w.open[t].id) == DueOf(w.sys.due, w.open[t].id)
  {
  }

  /** A step that does not disturb leaves the timer as the thread left it. */
  lemma StaysAsLeft(w: World, step: Step, script: Script, t: Thread)
    requires Good(w) && GoodScript(script, |w.sys.timers|) && Possible(w, step) && Guard(w, step) && AsLeft(w, t)
    requires !IsBy(step, t) && !Disturbs(w, step, script, t)
    ensures var w' := Perform(w, step, script);
            && t in w'.open && w'.open[t] == w.open[t] && AsLeft(w', t)
            && (!w.open[t].StopTested? ==> DueOf(w'.sys.due, w.open[t].id) == DueOf(w.sys.due, w.open[t].id))
  {
    StepKeeps(w, step, script);
    var id, w' := w.open[t].id, Perform(w, step, script);
    if !w.open[t].StopTested? {
      OffList(w, t);
      match step {
        case Tick => TickRests(w, script, t);
        case Call(c) => CallRests(w, c, t);
        case Link(u) => LinkRests(w.sys, w.open[u].id, id);
        case Unlink(u) => UnlinkedKeeps(w.sys, w.open[u].id, w.sys.now + 1);
        case _ =>
      }
      hide Inv, Checked, Execute, Linked, Unlinked;
      assert Resting(w.sys, w'.sys, id);
    }
    hide Good, AsLeft, Resting;
    assert t in w'.open && w'.open[t] == w.open[t];
    RestingAsLeft(w, w', t);
  }

  /** A run in which t takes no step and is not disturbed. */
  ghost predicate Undisturbed(w: World, steps: seq<Step>, script: Script, t: Thread)
    requires Good(w) && GoodScript(script, |w.sys.timers|)
    decreases |steps|
  {
    steps == []
    || (Possible(w, steps[0]) && Guard(w, steps[0]) && !IsBy(steps[0], t)
        && (StepKeeps(w, steps[0], script);
            && (t in w.open ==> !Disturbs(w, steps[0], script, t))
            && Undisturbed(Perform(w, steps[0], script), steps[1..], script, t)))
  }

  lemma {:induction false} RunStaysAsLeft(w: World, steps: seq<Step>, script: Script, w': World, t: Thread)
    requires Good(w) && GoodScript(script, |w.sys.timers|) && Reaches(w, steps, script, w')
    requires AsLeft(w, t) && Undisturbed(w, steps, script, t)
    ensures Good(w') && t in w'.open && w'.open[t] == w.open[t] && AsLeft(w', t)
    ensures !w.open[t].StopTested? ==> DueOf(w'.sys.due, w.open[t].id) == DueOf(w.sys.due, w.open[t].id)
    decreases |steps|
  {
    if steps != [] {
      hide Good, Perform, Possible, Guard, AsLeft, Disturbs, IsBy, GoodScript;
      StepKeeps(w, steps[0], script);
      StaysAsLeft(w, steps[0], script, t);
      RunStaysAsLeft(Perform(w, steps[0], script), steps[1..], script, w', t);
    }
  }

  /** A thread that has found the flag clear and has written the deadline may link iff the deadline is still ahead, when
      nobody has started the timer meanwhile, however many other calls and ticks came between. */
  lemma UndisturbedStart(w: World, t: Thread, read: nat, steps: seq<Step>, script: Script, w': World)
    requires Good(w) && GoodScript(script, |w.sys.timers|) && Possible(w, Write(t, read)) && AsLeft(w, t)
    ensures Guard(w, Write(t, read)) && Good(Perform(w, Write(t, read), script))
    ensures var w1 := Perform(w, Write(t, read), script);
            |w1.sys.timers| == |w.sys.timers|
            && (Reaches(w1, steps, script, w') && Undisturbed(w1, steps, script, t) ==>
                  Possible(w', Link(t)) && (Guard(w', Link(t)) <==> w'.sys.now < Deadline(w, t, read)))
  {
    OffList(w, t);
    StepKeeps(w, Write(t, read), script);
    var w1 := Perform(w, Write(t, read), script);
    if Reaches(w1, steps, script, w') && Undisturbed(w1, steps, script, t) {
      RunStaysAsLeft(w1, steps, script, w', t);
      RunKeeps(w1, steps, script, w');
      OffList(w', t);
      assert Deadline(w, t, read) < w.sys.now + HALF;
    }
  }

  /** A thread that has unlinked the timer may clear its flag when nobody has started it meanwhile. */
  lemma UndisturbedStop(w: World, t: Thread, steps: seq<Step>, script: Script, w': World)
    requires Good(w) && GoodScript(script, |w.sys.timers|) && Possible(w, Unlink(t))
    ensures Guard(w, Unlink(t)) && Good(Perform(w, Unlink(t), script))
    ensures var w1 := Perform(w, Unlink(t), script);
            |w1.sys.timers| == |w.sys.timers|
            && (Reaches(w1, steps, script, w') && Undisturbed(w1, steps, script, t) ==>
                  Possible(w', Clear(t)) && Guard(w', Clear(t)))
  {
    UnlinkLeaves(w, t, script);
    var w1 := Perform(w, Unlink(t), script);
    hide Good, Perform, GoodScript;
    if Reaches(w1, steps, script, w') && Undisturbed(w1, steps, script, t) {
      RunStaysAsLeft(w1, steps, script, w', t);
    }
  }

  lemma UnlinkLeaves(w: World, t: Thread, script: Script)
    requires Good(w) && GoodScript(script, |w.sys.timers|) && Possible(w, Unlink(t))
    ensures var w1 := Perform(w, Unlink(t), script);
            && Good(w1) && |w1.sys.timers| == |w.sys.timers| && AsLeft(w1, t) && w1.open[t] == StopUnlinked(w.open[t].id)
  {
    UnlinkedKeeps(w.sys, w.open[t].id, w.sys.now + 1);
    hide Inv, Without, Checked, Execute, GoodScript;
    StepKeeps(w, Unlink(t), script);
  }

  // ---------------------------------------------------------------- disturbed calls

  /** A timer that an interrupt starts after a thread has tested its flag and before the thread links it: linking it finds it
      on the list, and puts it there a second time. */
  lemma StartedBetween(w: World, t: Thread, script: Script)
    requires Good(w) && GoodScript(script, |w.sys.timers|) && Possible(w, Link(t)) && AsLeft(w, t)
    ensures var id := w.open[t].id;
            && Possible(w, Call(Start(id))) && Good(Perform(w, Call(Start(id)), script))
            && var w1 := Perform(w, Call(Start(id)), script);
               Possible(w1, Link(t)) && !Guard(w1, Link(t)) && |w1.sys.timers| == |w.sys.timers|
               && !Distinct(Perform(w1, Link(t), script).sys.list) && !Good(Perform(w1, Link(t), script))
  {
    var id := w.open[t].id;
    StepKeeps(w, Call(Start(id)), script);
    var w1 := Perform(w, Call(Start(id)), script);
    ExecuteList(w.sys, Start(id), id, w.sys.now + 1);
    TwiceNotDistinct(w1.sys.list, Position(w1.sys.list, w1.sys.due, DueOf(w1.sys.due, id), 0), id);
    hide Inv, Distinct, Execute;
    StepKeeps(w1, Link(t), script);
  }

  /** Testing the flag of an idle timer and writing its deadline. */
  lemma TestAndWrite(w: World, t: Thread, id: Id, script: Script)
    requires Good(w) && GoodScript(script, |w.sys.timers|)
    requires t !in w.open && id < |w.sys.timers| && !w.sys.timers[id].activated
    ensures var w1 := Perform(w, BeginStart(t, id), script);
            && Good(w1) && |w1.sys.timers| == |w.sys.timers| && Possible(w1, Write(t, w.sys.now))
            && var w2 := Perform(w1, Write(t, w.sys.now), script);
               && Good(w2) && |w2.sys.timers| == |w.sys.timers| && Possible(w2, Link(t))
               && AsLeft(w2, t) && w2.open[t].id == id
  {
    StepKeeps(w, BeginStart(t, id), script);
    var w1 := Perform(w, BeginStart(t, id), script);
    OffList(w1, t);
    hide Good, Checked, Execute;
    StepKeeps(w1, Write(t, w.sys.now), script);
  }

  /** Such a run, from any state with an idle timer: it is sound up to the link, and not after it. */
  lemma DoubleLink(w: World, t: Thread, id: Id, script: Script)
    requires Good(w) && GoodScript(script, |w.sys.timers|)
    requires t !in w.open && id < |w.sys.timers| && !w.sys.timers[id].activated
    ensures var steps := [BeginStart(t, id), Write(t, w.sys.now), Call(Start(id))];
            Throughout(w, steps, script) && !Throughout(w, steps + [Link(t)], script)
  {
    hide Good, Guard, Perform, AsLeft, GoodScript, Throughout;
    var a, b, c, d := BeginStart(t, id), Write(t, w.sys.now), Call(Start(id)), Link(t);
    TestAndWrite(w, t, id, script);
    var w1 := Perform(w, a, script);
    var w2 := Perform(w1, b, script);
    StartedBetween(w2, t, script);
    var w3 := Perform(w2, c, script);
    LastStep(w3, d, script);
    ThroughoutStep(w2, c, [], script);
    ThroughoutStep(w2, c, [d], script);
    ThroughoutStep(w1, b, [c], script);
    ThroughoutStep(w1, b, [c, d], script);
    ThroughoutStep(w, a, [b, c], script);
    ThroughoutStep(w, a, [b, c, d], script);
    assert [c] + [] == [c] && [c] + [d] == [c, d] && [b] + [c] == [b, c] && [b] + [c, d] == [b, c, d];
    assert [a] + [b, c] == [a, b, c] && [a] + [b, c, d] == [a, b, c] + [d];
  }

  lemma LastStep(w: World, step: Step, script: Script)
    requires Good(w) && GoodScript(script, |w.sys.timers|)
    ensures Throughout(w, [], script)
    ensures Possible(w, step) && !Good(Perform(w, step, script)) ==> !Throughout(w, [step], script)
  {
  }

  lemma ThroughoutStep(w: World, step: Step, rest: seq<Step>, script: Script)
    requires Good(w) && GoodScript(script, |w.sys.timers|) && Possible(w, step) && Good(Perform(w, step, script))
    ensures |Perform(w, step, script).sys.timers| == |w.sys.timers|
    ensures Throughout(w, [step] + rest, script) <==> Throughout(Perform(w, step, script), rest, script)
  {
    StepKeeps(w, step, script);
    assert ([step] + rest)[1..] == rest;
    hide Good, Perform, GoodScript, Possible;
  }

  /** A start between the unlinking and the clearing of a stop is refused, because the flag is still set, and so is lost. */
  lemma StartIsLost(w: World, t: Thread, script: Script)
    requires Good(w) && GoodScript(script, |w.sys.timers|) && Possible(w, Clear(t))
    requires w.sys.timers[w.open[t].id].activated
    ensures var id := w.open[t].id;
            Possible(w, Call(Start(id))) && Perform(w, Call(Start(id)), script) == w
  {
  }
}
