/** Deadlines over whole runs: a timer on the list fires at its deadline and not before it or twice, unless it is stopped,
    and a periodic one fires at every multiple of its period and at no other tick. */
module TimerDeadlines {
  import opened Lists
  import opened TimerSpec
  import opened TimerRuns

  ghost predicate Pending(s: System, id: Id, d: nat) {
    id in s.list && id < |s.timers| && DueOf(s.due, id) == d
  }

  /** The ticks at which a timer has fired, in order. */
  function TimesOf(log: seq<Firing>, id: Id): seq<nat> {
    if log == [] then [] else (if log[0].id == id then [log[0].at] else []) + TimesOf(log[1..], id)
  }

  /** What was logged between two states. */
  function New(log: seq<Firing>, log': seq<Firing>): seq<Firing> {
    if |log| <= |log'| then log'[|log|..] else []
  }

  lemma {:induction false} TimesAppend(a: seq<Firing>, b: seq<Firing>, id: Id)
    ensures TimesOf(a + b, id) == TimesOf(a, id) + TimesOf(b, id)
  {
    if a == [] {
      assert a + b == b;
    } else {
      var first := if a[0].id == id then [a[0].at] else [];
      assert (a + b)[1..] == a[1..] + b && (a + b)[0] == a[0];
      TimesAppend(a[1..], b, id);
      Associative(first, TimesOf(a[1..], id), TimesOf(b, id));
    }
  }

  lemma Associative(a: seq<nat>, b: seq<nat>, c: seq<nat>)
    ensures (a + b) + c == a + (b + c)
  {
  }

  lemma TimesBetween(a: seq<Firing>, b: seq<Firing>, c: seq<Firing>, id: Id)
    requires a <= b <= c
    ensures TimesOf(New(a, c), id) == TimesOf(New(a, b), id) + TimesOf(New(b, c), id)
  {
    assert New(a, c) == New(a, b) + New(b, c);
    TimesAppend(New(a, b), New(b, c), id);
  }

  lemma TimesOfOne(a: seq<Firing>, f: Firing, id: Id)
    ensures TimesOf(New(a, a + [f]), id) == if f.id == id then [f.at] else []
  {
    assert New(a, a + [f]) == [f];
  }

  lemma TimesOfNone(a: seq<Firing>, id: Id)
    ensures TimesOf(New(a, a), id) == []
  {
  }

  // ---------------------------------------------------------------- one check

  /** One of the timeout functions called since the log had `from` entries stopped the timer before it fired. */
  ghost predicate StoppedBefore(script: Script, from: nat, log: seq<Firing>, id: Id) {
    exists k :: from <= k < |log| && Stop(id) in script(k, log[k].id) && forall j :: from <= j <= k ==> log[j].id != id
  }

  lemma StoppedLater(script: Script, from: nat, log: seq<Firing>, id: Id)
    requires from < |log| && !StoppedBefore(script, from, log, id) && log[from].id != id
    ensures Stop(id) !in script(from, log[from].id) && !StoppedBefore(script, from + 1, log, id)
  {
  }

  lemma ExecutePending(s: System, c: Cmd, id: Id, d: nat, lo: nat)
    requires Inv(s, lo) && Allowed([c], |s.timers|) && Pending(s, id, d) && c != Stop(id)
    ensures Pending(Execute(s, c), id, d)
  {
    ExecuteList(s, c, id, lo);
    hide Inv, Execute;
  }

  lemma {:induction false} ExecutedPending(s: System, cmds: seq<Cmd>, id: Id, d: nat, lo: nat)
    requires Inv(s, lo) && Allowed(cmds, |s.timers|) && s.now <= lo <= s.now + 1 && Pending(s, id, d) && Stop(id) !in cmds
    ensures Pending(Executed(s, cmds), id, d)
    decreases |cmds|
  {
    if cmds != [] {
      hide Inv, Allowed, Execute, Pending;
      FirstAllowed(cmds, |s.timers|);
      ExecutePending(s, cmds[0], id, d, lo);
      ExecuteKeeps(s, cmds[0], lo);
      ExecutedPending(Execute(s, cmds[0]), cmds[1..], id, d, lo);
    }
  }

  lemma RearmedPending(s: System, h: Id, id: Id, d: nat)
    requires Pending(s, id, d) && h != id
    ensures Pending(Rearmed(s, h), id, d)
  {
    if h < |s.timers| {
      var s1 := Written(Cleared(s, h), h, s.now + s.timers[h].init);
      InsertedIs(s1.list, Position(s1.list, s1.due, DueOf(s1.due, h), 0), h);
    }
  }

  /** A round of the check leaves the deadlines of other timers alone. */
  lemma FiredPending(s: System, script: Script, id: Id, d: nat)
    requires Inv(s, s.now) && GoodScript(script, |s.timers|)
    requires s.list != [] && DueOf(s.due, s.list[0]) <= s.now
    requires Pending(s, id, d) && s.list[0] != id && Stop(id) !in script(|s.fired|, s.list[0])
    ensures Pending(Fired(s, script), id, d)
  {
    var h, cmds := s.list[0], script(|s.fired|, s.list[0]);
    assert Allowed(cmds, |s.timers|);
    HeadPopped(s);
    assert Pending(Popped(s), id, d);
    hide Inv, Allowed, Executed, GoodScript, Pending, Popped, Rearmed;
    ExecutedPending(Popped(s), cmds, id, d, s.now);
    RearmedPending(Executed(Popped(s), cmds), h, id, d);
  }

  lemma FiredStep(s: System, script: Script)
    requires Inv(s, s.now) && GoodScript(script, |s.timers|) && s.list != [] && DueOf(s.due, s.list[0]) <= s.now
    ensures var s1 := Fired(s, script);
            && Inv(s1, s.now) && s1.now == s.now && |s1.timers| == |s.timers|
            && s1.fired == s.fired + [Firing(s.list[0], s.now, s.now)]
            && s.list[0] in Overdue(s) && s.list[0] !in Overdue(s1) && Overdue(s1) < Overdue(s)
            && Checked(s, script) == Checked(s1, script)
  {
    assert s.list[0] in Overdue(s);
    FiredKeeps(s, script);
    hide Inv, Fired, GoodScript, Overdue;
  }

  /** A timer that is not overdue does not fire in this check. */
  lemma {:induction false} CheckedSilent(s: System, script: Script, id: Id)
    requires Inv(s, s.now) && GoodScript(script, |s.timers|)
    ensures s.fired <= Checked(s, script).fired
    ensures id !in Overdue(s) ==> TimesOf(New(s.fired, Checked(s, script).fired), id) == []
    decreases Overdue(s)
  {
    if s.list != [] && DueOf(s.due, s.list[0]) <= s.now {
      hide Inv, Fired, GoodScript, TimesOf, New, Overdue, Checked;
      FiredStep(s, script);
      var s1 := Fired(s, script);
      CheckedSilent(s1, script, id);
      TimesOfOne(s.fired, Firing(s.list[0], s.now, s.now), id);
      TimesBetween(s.fired, s1.fired, Checked(s1, script).fired, id);
    } else {
      hide Inv, GoodScript, TimesOf, New, Overdue, Fired;
      TimesOfNone(s.fired, id);
    }
  }

  ghost predicate AllAfter(times: seq<nat>, t: nat) {
    forall k :: 0 <= k < |times| ==> times[k] > t
  }

  lemma AllAfterJoin(a: seq<nat>, b: seq<nat>, t: nat)
    ensures AllAfter(a + b, t) <==> AllAfter(a, t) && AllAfter(b, t)
  {
    assert forall k :: 0 <= k < |a| ==> (a + b)[k] == a[k];
    assert forall k :: 0 <= k < |b| ==> (a + b)[|a| + k] == b[k];
  }

  /** What fires in a check fires at the tick of the check. */
  lemma {:induction false} CheckedAfter(s: System, script: Script, id: Id, t: nat)
    requires Inv(s, s.now) && GoodScript(script, |s.timers|) && t < s.now
    ensures AllAfter(TimesOf(New(s.fired, Checked(s, script).fired), id), t)
    decreases Overdue(s)
  {
    if s.list != [] && DueOf(s.due, s.list[0]) <= s.now {
      hide Inv, Fired, GoodScript, TimesOf, New, Overdue, Checked;
      FiredLast(s, script, id);
      CheckedAfter(Fired(s, script), script, id, t);
      var one := if s.list[0] == id then [s.now] else [];
      AllAfterJoin(one, TimesOf(New(Fired(s, script).fired, Checked(s, script).fired), id), t);
    } else {
      hide Inv, GoodScript, TimesOf, New, Overdue, Fired;
      TimesOfNone(s.fired, id);
    }
  }

  lemma FiredLast(s: System, script: Script, id: Id)
    requires Inv(s, s.now) && GoodScript(script, |s.timers|) && s.list != [] && DueOf(s.due, s.list[0]) <= s.now
    ensures var s1 := Fired(s, script);
            && Inv(s1, s.now) && s1.now == s.now && |s1.timers| == |s.timers|
            && s1.fired == s.fired + [Firing(s.list[0], s.now, s.now)]
            && s.list[0] !in Overdue(s1) && Overdue(s1) < Overdue(s) && Checked(s, script) == Checked(s1, script)
    ensures var s1, s2 := Fired(s, script), Checked(s, script);
            && s1.fired <= s2.fired && |s.fired| < |s2.fired| && s2.fired[|s.fired|].id == s.list[0]
            && TimesOf(New(s.fired, s2.fired), id)
                 == (if s.list[0] == id then [s.now] else []) + TimesOf(New(s1.fired, s2.fired), id)
  {
    hide Inv, Fired, GoodScript, Overdue, TimesOf, New, Checked;
    FiredStep(s, script);
    var s1 := Fired(s, script);
    CheckedSilent(s1, script, id);
    TimesOfOne(s.fired, Firing(s.list[0], s.now, s.now), id);
    TimesBetween(s.fired, s1.fired, Checked(s1, script).fired, id);
  }

  lemma DueNow(s: System, id: Id, d: nat)
    requires Inv(s, s.now) && Pending(s, id, d) && s.list != [] && s.list[0] == id && d <= s.now
    ensures d == s.now
  {
  }

  /** A timer that nothing stops before its turn fires once in the check of its deadline, and stays as it is before that. */
  lemma {:induction false} CheckedExact(s: System, script: Script, id: Id, d: nat)
    requires Inv(s, s.now) && GoodScript(script, |s.timers|) && Pending(s, id, d)
    requires !StoppedBefore(script, |s.fired|, Checked(s, script).fired, id)
    ensures var s' := Checked(s, script);
            if d <= s.now then TimesOf(New(s.fired, s'.fired), id) == [d]
            else TimesOf(New(s.fired, s'.fired), id) == [] && Pending(s', id, d)
    decreases Overdue(s)
  {
    if s.list == [] || DueOf(s.due, s.list[0]) > s.now {
      CheckedNothing(s, script, id, d);
    } else {
      hide Inv, Fired, GoodScript, TimesOf, New, Overdue, Pending, StoppedBefore, Checked;
      FiredLast(s, script, id);
      var s1 := Fired(s, script);
      if s.list[0] == id {
        DueNow(s, id, d);
        CheckedSilent(s1, script, id);
      } else {
        StoppedLater(script, |s.fired|, Checked(s, script).fired, id);
        FiredPending(s, script, id, d);
        CheckedExact(s1, script, id, d);
      }
    }
  }

  lemma CheckedNothing(s: System, script: Script, id: Id, d: nat)
    requires Inv(s, s.now) && GoodScript(script, |s.timers|) && Pending(s, id, d)
    requires s.list == [] || DueOf(s.due, s.list[0]) > s.now
    ensures Checked(s, script) == s && d > s.now && TimesOf(New(s.fired, s.fired), id) == []
  {
    AllLater(s);
    TimesOfNone(s.fired, id);
  }

  // ---------------------------------------------------------------- deadlines over runs

  /** The step neither stops the timer nor writes its deadline. */
  ghost predicate StepSpares(w: World, step: Step, script: Script, id: Id)
    requires Good(w) && GoodScript(script, |w.sys.timers|) && Possible(w, step)
  {
    match step
    case Tick => !StoppedBefore(script, |w.sys.fired|, Perform(w, Tick, script).sys.fired, id)
    case Call(c) => c != Stop(id)
    case Write(t, _) => w.open[t].id != id
    case Unlink(t) => w.open[t].id != id
    case _ => true
  }

  lemma TickExact(w: World, script: Script, id: Id, d: nat)
    requires Good(w) && GoodScript(script, |w.sys.timers|) && StepSpares(w, Tick, script, id) && Pending(w.sys, id, d)
    ensures var w' := Perform(w, Tick, script);
            if d <= w'.sys.now then TimesOf(New(w.sys.fired, w'.sys.fired), id) == [d]
            else TimesOf(New(w.sys.fired, w'.sys.fired), id) == [] && Pending(w'.sys, id, d)
  {
    hide Good, Inv, Perform, Checked, TimesOf, New, GoodScript, StoppedBefore;
    TickIs(w, script);
    CheckedExact(w.sys.(now := w.sys.now + 1), script, id, d);
  }

  lemma LinkPending(s: System, x: Id, id: Id, d: nat)
    requires x < |s.timers| && Pending(s, id, d)
    ensures Pending(Linked(s, x), id, d)
  {
    InsertedIs(s.list, Position(s.list, s.due, DueOf(s.due, x), 0), x);
  }

  lemma StepExact(w: World, step: Step, script: Script, id: Id, d: nat)
    requires Good(w) && GoodScript(script, |w.sys.timers|) && Possible(w, step) && Guard(w, step)
    requires StepSpares(w, step, script, id) && Pending(w.sys, id, d)
    ensures var w' := Perform(w, step, script);
            if d <= w'.sys.now then TimesOf(New(w.sys.fired, w'.sys.fired), id) == [d]
            else TimesOf(New(w.sys.fired, w'.sys.fired), id) == [] && Pending(w'.sys, id, d)
  {
    if step.Tick? {
      TickExact(w, script, id, d);
    } else {
      QuietStep(w, step, script, id, d);
      PendingAhead(w.sys, id, d);
      hide Good, Inv, Perform, TimesOf, New, GoodScript, Pending, StepSpares;
      TimesOfNone(w.sys.fired, id);
    }
  }

  lemma QuietStep(w: World, step: Step, script: Script, id: Id, d: nat)
    requires Good(w) && GoodScript(script, |w.sys.timers|) && Possible(w, step) && Guard(w, step) && !step.Tick?
    requires StepSpares(w, step, script, id) && Pending(w.sys, id, d)
    ensures var s' := Perform(w, step, script).sys;
            s'.now == w.sys.now && s'.fired == w.sys.fired && Pending(s', id, d)
  {
    hide Checked, Execute, Linked, Without, GoodScript, Guard, Sorted, Distinct;
    match step {
      case Call(c) => ExecutePending(w.sys, c, id, d, w.sys.now + 1);
      case Link(t) => LinkPending(w.sys, w.open[t].id, id, d);
      case Unlink(t) => UnlinkedKeeps(w.sys, w.open[t].id, w.sys.now + 1);
      case _ =>
    }
  }

  lemma PendingAhead(s: System, id: Id, d: nat)
    requires Inv(s, s.now + 1) && Pending(s, id, d)
    ensures s.now < d
  {
  }

  /** Until the timer fires, no step stops it or writes its deadline. */
  ghost predicate Spared(w: World, steps: seq<Step>, script: Script, id: Id)
    requires Good(w) && GoodScript(script, |w.sys.timers|)
    decreases |steps|
  {
    steps == []
    || (Possible(w, steps[0]) && Guard(w, steps[0]) && StepSpares(w, steps[0], script, id)
        && (StepKeeps(w, steps[0], script);
            var w1 := Perform(w, steps[0], script);
            TimesOf(New(w.sys.fired, w1.sys.fired), id) != [] || Spared(w1, steps[1..], script, id)))
  }

  /** What fires in a run fires after the tick it started at. */
  lemma {:induction false} RunLater(w: World, steps: seq<Step>, script: Script, w': World, id: Id)
    requires Good(w) && GoodScript(script, |w.sys.timers|) && Reaches(w, steps, script, w')
    ensures w.sys.fired <= w'.sys.fired && AllAfter(TimesOf(New(w.sys.fired, w'.sys.fired), id), w.sys.now)
    decreases |steps|
  {
    if steps == [] {
      TimesOfNone(w.sys.fired, id);
    } else {
      hide Good, Perform, Possible, Guard, GoodScript, TimesOf, New, AllAfter;
      StepKeeps(w, steps[0], script);
      var w1 := Perform(w, steps[0], script);
      RunLater(w1, steps[1..], script, w', id);
      StepLater(w, steps[0], script, id);
      TimesBetween(w.sys.fired, w1.sys.fired, w'.sys.fired, id);
      AllAfterJoin(TimesOf(New(w.sys.fired, w1.sys.fired), id), TimesOf(New(w1.sys.fired, w'.sys.fired), id), w.sys.now);
      AllAfterLess(TimesOf(New(w1.sys.fired, w'.sys.fired), id), w1.sys.now, w.sys.now);
    }
  }

  lemma AllAfterLess(times: seq<nat>, t: nat, u: nat)
    requires AllAfter(times, t) && u <= t
    ensures AllAfter(times, u)
  {
  }

  lemma StepLater(w: World, step: Step, script: Script, id: Id)
    requires Good(w) && GoodScript(script, |w.sys.timers|) && Possible(w, step)
    ensures AllAfter(TimesOf(New(w.sys.fired, Perform(w, step, script).sys.fired), id), w.sys.now)
  {
    if step.Tick? {
      hide Good, Inv, Perform, Checked, TimesOf, New, GoodScript;
      TickIs(w, script);
      CheckedAfter(w.sys.(now := w.sys.now + 1), script, id, w.sys.now);
    } else {
      TimesOfNone(w.sys.fired, id);
    }
  }

  /** Exact deadlines: a timer on the list, due at tick d, that nothing stops before it fires does not fire before d; when
      the clock has reached d it has fired once up to then, at d. */
  lemma {:induction false} ExactDeadline(w: World, steps: seq<Step>, script: Script, w': World, id: Id, d: nat)
    requires Good(w) && GoodScript(script, |w.sys.timers|) && Reaches(w, steps, script, w')
    requires Pending(w.sys, id, d) && Spared(w, steps, script, id)
    ensures w.sys.fired <= w'.sys.fired
    ensures var times := TimesOf(New(w.sys.fired, w'.sys.fired), id);
            if w'.sys.now < d then times == [] && Pending(w'.sys, id, d)
            else times != [] && times[0] == d && AllAfter(times[1..], d)
    decreases |steps|
  {
    if steps == [] {
      TimesOfNone(w.sys.fired, id);
      hide Inv, Pending;
      PendingAhead(w.sys, id, d);
    } else {
      hide Good, Perform, Possible, Guard, GoodScript, TimesOf, New, Pending, StepSpares;
      StepKeeps(w, steps[0], script);
      var w1 := Perform(w, steps[0], script);
      RunKeeps(w1, steps[1..], script, w');
      StepExact(w, steps[0], script, id, d);
      TimesBetween(w.sys.fired, w1.sys.fired, w'.sys.fired, id);
      if d <= w1.sys.now {
        RunLater(w1, steps[1..], script, w', id);
        AllAfterLess(TimesOf(New(w1.sys.fired, w'.sys.fired), id), w1.sys.now, d);
      } else {
        ExactDeadline(w1, steps[1..], script, w', id, d);
      }
    }
  }

  /** rt_timer_start puts an idle timer on the list, due `init` ticks after the tick it read. */
  lemma StartIsPending(w: World, t: Thread, script: Script)
    requires Good(w) && GoodScript(script, |w.sys.timers|) && Possible(w, Link(t))
    ensures Pending(Perform(w, Link(t), script).sys, w.open[t].id, DueOf(w.sys.due, w.open[t].id))
    ensures forall id: Id :: id < |w.sys.timers| && !w.sys.timers[id].activated ==>
              Pending(Started(w.sys, id), id, w.sys.now + w.sys.timers[id].init)
  {
    var x := w.open[t].id;
    InsertedIs(w.sys.list, Position(w.sys.list, w.sys.due, DueOf(w.sys.due, x), 0), x);
    forall id: Id | id < |w.sys.timers| && !w.sys.timers[id].activated
      ensures Pending(Started(w.sys, id), id, w.sys.now + w.sys.timers[id].init)
    {
      StartedPending(w.sys, id);
    }
  }

  lemma StartedPending(s: System, id: Id)
    requires id < |s.timers| && !s.timers[id].activated
    ensures Pending(Started(s, id), id, s.now + s.timers[id].init)
  {
    var s1 := Written(s, id, s.now + s.timers[id].init);
    InsertedIs(s1.list, Position(s1.list, s1.due, DueOf(s1.due, id), 0), id);
  }

  // ---------------------------------------------------------------- periodic timers

  /** Nothing is done to the timer but starting it, which has no effect while it is active. */
  ghost predicate LeavesAlone(cmds: seq<Cmd>, id: Id) {
    forall c :: c in cmds && c.id == id ==> c.Start?
  }

  /** No timeout function called since the log had `from` entries does anything to the timer. */
  ghost predicate AllLeaveAlone(script: Script, from: nat, log: seq<Firing>, id: Id) {
    forall k :: from <= k < |log| ==> LeavesAlone(script(k, log[k].id), id)
  }

  ghost predicate Cycle(s: System, id: Id, d: nat, p: nat) {
    Pending(s, id, d) && s.timers[id].periodic && s.timers[id].init == p
  }

  lemma {:induction false} ExecutedAlone(s: System, cmds: seq<Cmd>, id: Id)
    requires id < |s.timers| && s.timers[id].activated && LeavesAlone(cmds, id)
    ensures Executed(s, cmds).timers[id] == s.timers[id]
    decreases |cmds|
  {
    if cmds != [] {
      hide Position, Inserted, Without;
      assert cmds[0] in cmds;
      assert forall x :: x in cmds[1..] ==> x in cmds;
      ExecutedAlone(Execute(s, cmds[0]), cmds[1..], id);
    }
  }

  lemma RearmedAlone(s: System, h: Id, id: Id)
    requires h < |s.timers| && id < |s.timers| && h != id
    ensures |Rearmed(s, h).timers| == |s.timers| && Rearmed(s, h).timers[id] == s.timers[id]
  {
  }

  /** Firing a periodic timer schedules it one period later. */
  lemma RearmedCycle(s: System, id: Id, p: nat)
    requires id < |s.timers| && s.timers[id].activated && s.timers[id].periodic && s.timers[id].init == p
    ensures Cycle(Rearmed(s, id), id, s.now + p, p)
  {
    StartedPending(Cleared(s, id), id);
  }

  lemma FiredCycle(s: System, script: Script, id: Id, d: nat, p: nat)
    requires Inv(s, s.now) && GoodScript(script, |s.timers|)
    requires s.list != [] && DueOf(s.due, s.list[0]) <= s.now
    requires Cycle(s, id, d, p) && LeavesAlone(script(|s.fired|, s.list[0]), id)
    ensures Cycle(Fired(s, script), id, if s.list[0] == id then d + p else d, p)
  {
    var h, cmds := s.list[0], script(|s.fired|, s.list[0]);
    HeadPopped(s);
    assert s.timers[id].activated;
    assert Stop(id) !in cmds;
    if h != id {
      FiredPending(s, script, id, d);
    }
    hide Inv, GoodScript, Executed, Pending, LeavesAlone, Rearmed, Popped;
    assert Popped(s).timers == s.timers && Popped(s).now == s.now by { PoppedIs(s); }
    ExecutedAlone(Popped(s), cmds, id);
    if h == id {
      RearmedCycle(Executed(Popped(s), cmds), id, p);
      assert d == s.now by { PendingIs(s, id, d); }
    } else {
      RearmedAlone(Executed(Popped(s), cmds), h, id);
    }
  }

  lemma PoppedIs(s: System)
    requires s.list != []
    ensures Popped(s).timers == s.timers && Popped(s).now == s.now
  {
  }

  lemma PendingIs(s: System, id: Id, d: nat)
    requires Pending(s, id, d)
    ensures DueOf(s.due, id) == d
  {
  }

  lemma AloneStep(script: Script, from: nat, log: seq<Firing>, id: Id)
    requires from < |log| && AllLeaveAlone(script, from, log, id)
    ensures LeavesAlone(script(from, log[from].id), id) && AllLeaveAlone(script, from + 1, log, id)
  {
  }

  lemma {:induction false} CheckedCycle(s: System, script: Script, id: Id, d: nat, p: nat)
    requires Inv(s, s.now) && GoodScript(script, |s.timers|) && Cycle(s, id, d, p) && p >= 1
    requires AllLeaveAlone(script, |s.fired|, Checked(s, script).fired, id)
    ensures var s' := Checked(s, script);
            && TimesOf(New(s.fired, s'.fired), id) == (if d <= s.now then [d] else [])
            && Cycle(s', id, if d <= s.now then d + p else d, p)
    decreases Overdue(s)
  {
    CyclePending(s, id, d, p);
    if s.list == [] || DueOf(s.due, s.list[0]) > s.now {
      CheckedNothing(s, script, id, d);
    } else {
      hide Inv, Fired, GoodScript, TimesOf, New, Overdue, Cycle, AllLeaveAlone, LeavesAlone, Checked, Pending;
      FiredLast(s, script, id);
      if s.list[0] == id {
        DueNow(s, id, d);
      }
      AloneStep(script, |s.fired|, Checked(s, script).fired, id);
      FiredCycle(s, script, id, d, p);
      CheckedCycle(Fired(s, script), script, id, if s.list[0] == id then d + p else d, p);
    }
  }

  lemma CyclePending(s: System, id: Id, d: nat, p: nat)
    requires Cycle(s, id, d, p)
    ensures Pending(s, id, d)
  {
  }

  ghost predicate StepLeavesAlone(w: World, step: Step, script: Script, id: Id)
    requires Good(w) && GoodScript(script, |w.sys.timers|) && Possible(w, step)
  {
    match step
    case Tick => AllLeaveAlone(script, |w.sys.fired|, Perform(w, Tick, script).sys.fired, id)
    case Call(c) => c.id == id ==> c.Start?
    case Write(t, _) => w.open[t].id != id
    case Unlink(t) => w.open[t].id != id
    case _ => true
  }

  lemma TickCycle(w: World, script: Script, id: Id, d: nat, p: nat)
    requires Good(w) && GoodScript(script, |w.sys.timers|) && StepLeavesAlone(w, Tick, script, id)
    requires Cycle(w.sys, id, d, p) && p >= 1
    ensures var w' := Perform(w, Tick, script);
            && TimesOf(New(w.sys.fired, w'.sys.fired), id) == (if d <= w'.sys.now then [d] else [])
            && Cycle(w'.sys, id, if d <= w'.sys.now then d + p else d, p)
  {
    hide Good, Inv, Perform, Checked, TimesOf, New, GoodScript, AllLeaveAlone;
    TickIs(w, script);
    CheckedCycle(w.sys.(now := w.sys.now + 1), script, id, d, p);
  }

  lemma StepCycle(w: World, step: Step, script: Script, id: Id, d: nat, p: nat)
    requires Good(w) && GoodScript(script, |w.sys.timers|) && Possible(w, step) && Guard(w, step)
    requires StepLeavesAlone(w, step, script, id) && Cycle(w.sys, id, d, p) && p >= 1
    ensures var w' := Perform(w, step, script);
            && TimesOf(New(w.sys.fired, w'.sys.fired), id) == (if d <= w'.sys.now then [d] else [])
            && Cycle(w'.sys, id, if d <= w'.sys.now then d + p else d, p)
  {
    if step.Tick? {
      TickCycle(w, script, id, d, p);
    } else {
      StepExact(w, step, script, id, d);
      StepKeeps(w, step, script);
      PendingAhead(w.sys, id, d);
      StepAlone(w, step, script, id);
      hide Good, GoodScript, Perform, Guard, TimesOf, New, StepLeavesAlone;
    }
  }

  lemma StepAlone(w: World, step: Step, script: Script, id: Id)
    requires Good(w) && GoodScript(script, |w.sys.timers|) && Possible(w, step) && Guard(w, step) && !step.Tick?
    requires StepLeavesAlone(w, step, script, id) && id in w.sys.list && id < |w.sys.timers|
    ensures var s' := Perform(w, step, script).sys; |s'.timers| == |w.sys.timers| && s'.timers[id] == w.sys.timers[id]
  {
    hide Sorted, Distinct, Position, Inserted, Without, Fields;
  }

  /** The deadlines d, d + p, d + 2p, ... that the clock has reached. */
  function Ticks(d: nat, p: nat, now: nat): seq<nat>
    requires p >= 1
    decreases now + 1 - d
  {
    if d > now then [] else [d] + Ticks(d + p, p, now)
  }

  /** Nothing is done to the timer in the whole run. */
  ghost predicate LeftAlone(w: World, steps: seq<Step>, script: Script, id: Id)
    requires Good(w) && GoodScript(script, |w.sys.timers|)
    decreases |steps|
  {
    steps == []
    || (Possible(w, steps[0]) && Guard(w, steps[0]) && StepLeavesAlone(w, steps[0], script, id)
        && (StepKeeps(w, steps[0], script); LeftAlone(Perform(w, steps[0], script), steps[1..], script, id)))
  }

  /** The period of a timer on the list is at least one tick. */
  lemma PeriodPositive(w: World, id: Id, d: nat, p: nat)
    requires Good(w) && Cycle(w.sys, id, d, p)
    ensures p >= 1
  {
  }

  /** Periodic deadlines: a periodic timer that is left alone has fired exactly at those of d, d + p, d + 2p, ... that the
      clock has reached. */
  lemma {:induction false} PeriodicDeadlines(w: World, steps: seq<Step>, script: Script, w': World,
                                             id: Id, d: nat, p: nat)
    requires Good(w) && GoodScript(script, |w.sys.timers|) && Reaches(w, steps, script, w')
    requires Cycle(w.sys, id, d, p) && LeftAlone(w, steps, script, id)
    ensures p >= 1 && w.sys.fired <= w'.sys.fired
    ensures TimesOf(New(w.sys.fired, w'.sys.fired), id) == Ticks(d, p, w'.sys.now)
    decreases |steps|
  {
    hide Good, Perform, Possible, Guard, GoodScript, TimesOf, New, Cycle, StepLeavesAlone, Ticks;
    PeriodPositive(w, id, d, p);
    CycleAhead(w, id, d, p);
    if steps == [] {
      TimesOfNone(w.sys.fired, id);
      TicksStep(d, p, w.sys.now);
    } else {
      StepKeeps(w, steps[0], script);
      var w1 := Perform(w, steps[0], script);
      RunKeeps(w1, steps[1..], script, w');
      StepCycle(w, steps[0], script, id, d, p);
      TimesBetween(w.sys.fired, w1.sys.fired, w'.sys.fired, id);
      TicksStep(d, p, w'.sys.now);
      PeriodicDeadlines(w1, steps[1..], script, w', id, if d <= w1.sys.now then d + p else d, p);
    }
  }

  lemma CycleAhead(w: World, id: Id, d: nat, p: nat)
    requires Good(w) && Cycle(w.sys, id, d, p)
    ensures w.sys.now < d
  {
    PendingAhead(w.sys, id, d);
  }

  lemma TicksStep(d: nat, p: nat, now: nat)
    requires p >= 1
    ensures Ticks(d, p, now) == if d > now then [] else [d] + Ticks(d + p, p, now)
  {
  }

  // ---------------------------------------------------------------- where the conditions matter

  /** A timer that is started with deadline d goes behind every timer of the list with that deadline iff there is at most
      one. */
  lemma EqualDeadlineOrder(s: System, d: nat)
    requires Inv(s, s.now + 1)
    ensures (forall k :: 0 <= k < |s.list| && DueOf(s.due, s.list[k]) == d ==> k < Position(s.list, s.due, d, 0))
       <==> forall i, j :: 0 <= i < j < |s.list| ==> !(DueOf(s.due, s.list[i]) == d && DueOf(s.due, s.list[j]) == d)
  {
    if k :| 0 <= k < |s.list| && DueOf(s.due, s.list[k]) == d {
      assert s.list[k] in s.list;
      AheadNear(s, d, s.now + 1);
      PositionNear(s.list, s.due, d, 0);
      FirstEqual(s.list, s.due, d, 0);
      hide Position;
    }
  }

  /** The place is just behind the first timer with the same deadline. */
  lemma {:induction false} FirstEqual(list: seq<Id>, due: map<Id, nat>, d: nat, i: nat)
    requires i <= |list| && Sorted(list, due) && forall k :: 0 <= k < i ==> DueOf(due, list[k]) < d
    ensures var p := TruePosition(list, due, d, i);
            && (forall k :: 0 <= k < p - 1 ==> DueOf(due, list[k]) < d)
            && (p > 0 ==> DueOf(due, list[p - 1]) <= d)
            && (p > 0 && DueOf(due, list[p - 1]) < d ==> forall k :: p <= k < |list| ==> DueOf(due, list[k]) > d)
            && (p == 0 ==> forall k :: 0 <= k < |list| ==> DueOf(due, list[k]) > d)
    decreases |list| - i
  {
    if i < |list| && DueOf(due, list[i]) < d {
      FirstEqual(list, due, d, i + 1);
    }
  }

  /** Timers with the same deadline are not first in, first out: a third one goes between the first two. */
  lemma EqualDeadlinesNotInOrder(d: nat)
    requires d >= 1
    ensures var t := Timer(5, (d + 5) % WRAP, false, true);
            var s := System(d, [0, 1], [t, t, Timer(5, 0, false, false)], map[0 := d + 5, 1 := d + 5], []);
            Started(s, 2).list == [0, 2, 1]
  {
  }

  /** Deadlines half the tick range or more after d seem to be before it. */
  lemma {:induction false} PositionBehind(list: seq<Id>, due: map<Id, nat>, d: nat, i: nat)
    requires i <= |list| && forall k :: 0 <= k < |list| ==> d + HALF <= DueOf(due, list[k]) < d + WRAP
    ensures Position(list, due, d, i) == |list|
    decreases |list| - i
  {
    if i < |list| {
      SubMod(DueOf(due, list[i]), d);
      PositionBehind(list, due, d, i + 1);
    }
  }

  /** The place of a timer whose deadline has passed: the head iff the first deadline is less than half the tick range after
      its own, and else the end. */
  lemma LatePosition(s: System, d: nat)
    requires Inv(s, s.now + 1) && d <= s.now < d + HALF
    ensures Position(s.list, s.due, d, 0)
         == if s.list == [] || DueOf(s.due, s.list[0]) < d + HALF then 0 else |s.list|
  {
    assert forall k :: 0 <= k < |s.list| ==> s.list[k] in s.list;
    if s.list != [] {
      if DueOf(s.due, s.list[0]) < d + HALF {
        SubMod(DueOf(s.due, s.list[0]), d);
      } else {
        PositionBehind(s.list, s.due, d, 0);
      }
    }
  }

  /** Delays are in range, and the deadline of the timer does not seem to be reached. */
  ghost predicate Unreached(s: System, id: Id) {
    && (forall x :: 0 <= x < |s.timers| ==> 1 <= s.timers[x].init < HALF)
    && !Reached(s.now, DueOf(s.due, id))
  }

  lemma NewDeadlineUnreached(now: nat, n: nat)
    requires 1 <= n < HALF
    ensures !Reached(now, now + n)
  {
    SubMod(now, now + n);
    assert (now - (now + n)) % WRAP == WRAP - n;
  }

  lemma StartedUnreached(s: System, x: Id, id: Id)
    requires Unreached(s, id) && x < |s.timers|
    ensures Unreached(Started(s, x), id)
  {
    NewDeadlineUnreached(s.now, s.timers[x].init);
    hide Reached, Position, Inserted;
  }

  lemma ExecuteUnreached(s: System, c: Cmd, id: Id)
    requires Unreached(s, id) && Allowed([c], |s.timers|)
    ensures Unreached(Execute(s, c), id)
  {
    assert c in [c];
    hide Reached, Started, Without;
    match c
    case Start(x) => StartedUnreached(s, x, id);
    case _ =>
  }

  lemma {:induction false} ExecutedUnreached(s: System, cmds: seq<Cmd>, id: Id)
    requires Unreached(s, id) && Allowed(cmds, |s.timers|)
    ensures Unreached(Executed(s, cmds), id)
    decreases |cmds|
  {
    if cmds != [] {
      hide Unreached, Execute, Allowed;
      FirstAllowed(cmds, |s.timers|);
      ExecuteUnreached(s, cmds[0], id);
      ExecutedUnreached(Execute(s, cmds[0]), cmds[1..], id);
    }
  }

  lemma RearmedUnreached(s: System, h: Id, id: Id)
    requires Unreached(s, id)
    ensures Unreached(Rearmed(s, h), id) && |Rearmed(s, h).timers| == |s.timers|
  {
    hide Reached, Started;
    if h < |s.timers| {
      assert Unreached(Cleared(s, h), id);
      StartedUnreached(Cleared(s, h), h, id);
    }
  }

  lemma FiredUnreached(s: System, script: Script, id: Id)
    requires Unreached(s, id) && s.list != [] && Allowed(script(|s.fired|, s.list[0]), |s.timers|)
    ensures Unreached(Fired(s, script), id) && |Fired(s, script).timers| == |s.timers|
  {
    var h, cmds := s.list[0], script(|s.fired|, s.list[0]);
    assert Unreached(Popped(s), id) && |Popped(s).timers| == |s.timers|;
    hide Unreached, Executed, Rearmed, Popped, Allowed;
    ExecutedUnreached(Popped(s), cmds, id);
    RearmedUnreached(Executed(Popped(s), cmds), h, id);
  }

  /** A timer whose deadline does not seem to be reached does not fire in a check, whatever state the list is in and whatever
      the timeout functions do. */
  lemma {:induction false} RoundsSkip(s: System, script: Script, n: nat, id: Id)
    requires Unreached(s, id) && forall k: nat, x: Id :: Allowed(script(k, x), |s.timers|)
    ensures s.fired <= Rounds(s, script, n).fired && TimesOf(New(s.fired, Rounds(s, script, n).fired), id) == []
    decreases n
  {
    if n == 0 || s.list == [] || !Reached(s.now, DueOf(s.due, s.list[0])) {
      TimesOfNone(s.fired, id);
    } else {
      var f := Firing(s.list[0], DueOf(s.due, s.list[0]), s.now);
      FiredHead(s, script);
      FiredUnreached(s, script, id);
      var s1 := Fired(s, script);
      assert s.list[0] != id;
      hide Unreached, Fired, Allowed, TimesOf, New, Reached;
      RoundsSkip(s1, script, n - 1, id);
      TimesOfOne(s.fired, f, id);
      TimesBetween(s.fired, s1.fired, Rounds(s1, script, n - 1).fired, id);
    }
  }

  /** A deadline that has passed, by less than half the tick range, before the timer is linked. The invariant fails. If the
      first deadline of the list is less than half the tick range after that of the timer, the timer goes to the head, and
      the next tick fires it first, late; otherwise it goes behind everybody, and the next tick does not fire it. */
  lemma LateLink(s: System, id: Id, script: Script, n: nat)
    requires Inv(s, s.now + 1) && id < |s.timers| && id !in s.list && DueOf(s.due, id) <= s.now < DueOf(s.due, id) + HALF
    requires forall k: nat, x: Id :: Allowed(script(k, x), |s.timers|)
    ensures var d, s1 := DueOf(s.due, id), Linked(s, id).(now := s.now + 1);
            var first := s.list == [] || DueOf(s.due, s.list[0]) < d + HALF;
            && !Inv(Linked(s, id), s.now + 1)
            && s1.list == (if first then [id] + s.list else s.list + [id])
            && (if first && s.now + 1 < d + HALF then
                  Reached(s1.now, d) && Fired(s1, script).fired == s.fired + [Firing(id, d, s.now + 1)]
                else TimesOf(New(s.fired, Rounds(s1, script, n).fired), id) == [])
  {
    hide Inv, Fired, Linked, Rounds, Position, Reached;
    LinkedKeeps(s, id, s.now + 1);
    LatePosition(s, DueOf(s.due, id));
    LateList(s, id);
    FirstAhead(s);
    if s.now + 1 >= DueOf(s.due, id) + HALF {
      LateTooLong(s, id, script, n);
    } else if s.list == [] || DueOf(s.due, s.list[0]) < DueOf(s.due, id) + HALF {
      LateReached(s.now + 1, DueOf(s.due, id));
      FiredHead(Linked(s, id).(now := s.now + 1), script);
    } else {
      LateBehind(s, id, script, n);
    }
  }

  lemma LateReached(now: nat, d: nat)
    requires d <= now
    ensures now < d + HALF ==> Reached(now, d)
    ensures now == d + HALF ==> !Reached(now, d)
  {
    SubMod(now, d);
  }

  /** At the next tick the timer is late by half the tick range. */
  lemma LateTooLong(s: System, id: Id, script: Script, n: nat)
    requires Inv(s, s.now + 1) && id < |s.timers| && s.now + 1 == DueOf(s.due, id) + HALF
    requires forall k: nat, x: Id :: Allowed(script(k, x), |s.timers|)
    ensures TimesOf(New(s.fired, Rounds(Linked(s, id).(now := s.now + 1), script, n).fired), id) == []
  {
    LinkedDelays(s, id);
    LateList(s, id);
    LateReached(s.now + 1, DueOf(s.due, id));
    hide Inv, Linked, Rounds, TimesOf, New, Reached;
    RoundsSkip(Linked(s, id).(now := s.now + 1), script, n, id);
  }

  /** At the next tick the first timer is not due, and the check ends. */
  lemma LateBehind(s: System, id: Id, script: Script, n: nat)
    requires Inv(s, s.now + 1) && id < |s.timers| && s.list != []
    requires s.now + 1 < DueOf(s.due, id) + HALF <= DueOf(s.due, s.list[0]) && Linked(s, id).list == s.list + [id]
    ensures TimesOf(New(s.fired, Rounds(Linked(s, id).(now := s.now + 1), script, n).fired), id) == []
  {
    FirstAhead(s);
    LateList(s, id);
    NotYetReached(s.now + 1, DueOf(s.due, s.list[0]));
    hide Inv, Linked, Fired, TimesOf, New, Reached;
    TimesOfNone(s.fired, id);
  }

  lemma NotYetReached(now: nat, d: nat)
    requires now < d < now + HALF
    ensures !Reached(now, d)
  {
    NewDeadlineUnreached(now, d - now);
  }

  lemma FirstAhead(s: System)
    requires Inv(s, s.now + 1)
    ensures s.list != [] ==> s.now < DueOf(s.due, s.list[0]) < s.now + HALF
  {
    assert s.list != [] ==> s.list[0] in s.list;
  }

  lemma LateList(s: System, id: Id)
    requires id < |s.timers|
    ensures Linked(s, id).due == s.due && Linked(s, id).fired == s.fired
    ensures var p := Position(s.list, s.due, DueOf(s.due, id), 0);
            && (p == 0 ==> Linked(s, id).list == [id] + s.list)
            && (p == |s.list| ==> Linked(s, id).list == s.list + [id])
  {
    hide Position;
  }

  lemma LinkedDelays(s: System, id: Id)
    requires Inv(s, s.now + 1) && id < |s.timers|
    ensures forall x :: 0 <= x < |s.timers| ==> 1 <= Linked(s, id).timers[x].init < HALF
  {
    hide Position;
  }

  /** Such a timer: linked at tick 100 with the deadline 99, while the only other one is due at the largest delay from now, it
      goes behind that one, and the next tick does not fire it. */
  lemma LateLinkIsLost(script: Script, n: nat)
    requires forall k: nat, x: Id :: Allowed(script(k, x), 2)
    ensures var s := System(100, [0], [Timer(HALF - 1, 100 + HALF - 1, false, true), Timer(1, 99, false, false)],
                            map[0 := 100 + HALF - 1, 1 := 99], []);
            && Inv(s, 101) && Linked(s, 1).list == [0, 1]
            && TimesOf(New(s.fired, Rounds(Linked(s, 1).(now := 101), script, n).fired), 1) == []
  {
    var s := System(100, [0], [Timer(HALF - 1, 100 + HALF - 1, false, true), Timer(1, 99, false, false)],
                    map[0 := 100 + HALF - 1, 1 := 99], []);
    assert DueOf(s.due, 0) == 100 + HALF - 1 && DueOf(s.due, 1) == 99;
    assert Inv(s, 101);
    hide Inv, Linked, Rounds, TimesOf, New, Position;
    LateLink(s, 1, script, n);
  }

  lemma FiredHead(s: System, script: Script)
    requires s.list != []
    ensures Fired(s, script).fired == s.fired + [Firing(s.list[0], DueOf(s.due, s.list[0]), s.now)]
  {
    hide Executed, Rearmed;
    RearmedLog(Executed(Popped(s), script(|s.fired|, s.list[0])), s.list[0]);
  }

  lemma RearmedLog(s: System, id: Id)
    ensures Rearmed(s, id).fired == s.fired
  {
  }

  /** A delay is kept iff it is at least one tick, on every list: a timer started with a delay of zero fires one tick later
      than its deadline. */
  lemma ZeroDelayIsLate(s: System, id: Id, n: nat, script: Script)
    requires Inv(s, s.now + 1) && id < |s.timers| && !s.timers[id].activated && n < HALF
    ensures var s0 := s.(timers := s.timers[id := s.timers[id].(init := n)]);
            var s1 := Started(s0, id).(now := s.now + 1);
            && (Ahead(Started(s0, id), s.now + 1) <==> n >= 1)
            && (n == 0 ==> s1.list != [] && Fired(s1, script).fired == s.fired + [Firing(id, s.now, s.now + 1)])
  {
    var s0 := s.(timers := s.timers[id := s.timers[id].(init := n)]);
    hide Inv, Ahead, Started, Fired;
    if n == 0 {
      LateStart(s, s0, id, script);
    } else {
      OnTime(s, s0, id, n);
    }
  }

  lemma OnTime(s: System, s0: System, id: Id, n: nat)
    requires Inv(s, s.now + 1) && id < |s.timers| && !s.timers[id].activated && 1 <= n < HALF
    requires s0 == s.(timers := s.timers[id := s.timers[id].(init := n)])
    ensures Ahead(Started(s0, id), s.now + 1)
  {
    hide Inv, Started, Ahead;
    ExecuteKeeps(s, SetTime(id, n), s.now + 1);
    assert Execute(s, SetTime(id, n)) == s0;
    ExecuteKeeps(s0, Start(id), s.now + 1);
    StartIs(s0, id);
    InvAhead(Started(s0, id), s.now + 1);
  }

  lemma InvAhead(s: System, lo: nat)
    requires Inv(s, lo)
    ensures Ahead(s, lo)
  {
  }

  lemma LateStart(s: System, s0: System, id: Id, script: Script)
    requires Inv(s, s.now + 1) && id < |s.timers| && !s.timers[id].activated
    requires s0 == s.(timers := s.timers[id := s.timers[id].(init := 0)])
    ensures var s1 := Started(s0, id).(now := s.now + 1);
            && !Ahead(Started(s0, id), s.now + 1)
            && s1.list != [] && Fired(s1, script).fired == s.fired + [Firing(id, s.now, s.now + 1)]
  {
    assert id !in s.list;
    hide Inv, Fired, Linked, Position, Written, Started;
    var w, w0 := Written(s, id, s.now), Written(s0, id, s.now);
    WrittenIs(s, id, s.now);
    WrittenIs(s0, id, s.now);
    WrittenKeeps(s, id, s.now, s.now + 1);
    LatePosition(w, s.now);
    FirstAhead(w);
    StartedIs(s0, id);
    LateList(w0, id);
    LateFirst(Linked(w0, id), s.now, id, script);
  }

  lemma WrittenIs(s: System, id: Id, d: nat)
    requires id < |s.timers|
    ensures var w := Written(s, id, d); w.list == s.list && w.due == s.due[id := d] && DueOf(w.due, id) == d
  {
  }

  lemma StartedIs(s: System, id: Id)
    requires id < |s.timers| && !s.timers[id].activated
    ensures Started(s, id) == Linked(Written(s, id, s.now + s.timers[id].init), id)
  {
    hide Linked, Written;
  }

  lemma LateFirst(s: System, now: nat, id: Id, script: Script)
    requires s.list != [] && s.list[0] == id && s.now == now == DueOf(s.due, id)
    ensures !Ahead(s, now + 1)
    ensures Fired(s.(now := now + 1), script).fired == s.fired + [Firing(id, now, now + 1)]
  {
    FiredHead(s.(now := now + 1), script);
    assert s.list[0] in s.list;
    hide Fired;
  }

  /** A timeout function that stops its own timer and starts it again, in every state: afterwards a one-shot timer is on the
      list with its flag clear, and a periodic one is on the list twice. */
  lemma SelfRestart(s: System, script: Script)
    requires Inv(s, s.now) && s.list != [] && DueOf(s.due, s.list[0]) <= s.now
    requires script(|s.fired|, s.list[0]) == [Stop(s.list[0]), Start(s.list[0])]
    ensures var id, s' := s.list[0], Fired(s, script);
            && id < |s.timers| == |s'.timers| && id in s'.list && !Inv(s', s.now)
            && (if s.timers[id].periodic then !Distinct(s'.list) else !s'.timers[id].activated)
  {
    var id := s.list[0];
    var cmds := [Stop(id), Start(id)];
    HeadPopped(s);
    var a := Execute(Popped(s), Stop(id));
    var b := Execute(a, Start(id));
    UnlinkedKeeps(Popped(s), id, s.now);
    assert cmds[1..] == [Start(id)] && cmds[1..][1..] == [];
    assert Executed(Popped(s), cmds) == Executed(a, cmds[1..]) == Executed(b, []) == b;
    assert !a.timers[id].activated && a.timers[id].periodic == s.timers[id].periodic;
    StartedPending(a, id);
    assert b.timers[id].activated && b.timers[id].periodic == s.timers[id].periodic && id in b.list;
    hide Inv, Executed, Execute, Started, Popped;
    RestartTwice(b, id);
  }

  lemma RestartTwice(b: System, id: Id)
    requires id < |b.timers| && b.timers[id].activated && id in b.list
    ensures var s' := Rearmed(b, id);
            && id in s'.list && !Inv(s', b.now) && |s'.timers| == |b.timers|
            && (if b.timers[id].periodic then !Distinct(s'.list) else !s'.timers[id].activated)
  {
    var c := Cleared(b, id);
    if b.timers[id].periodic {
      var s1 := Written(c, id, c.now + c.timers[id].init);
      var p := Position(s1.list, s1.due, DueOf(s1.due, id), 0);
      TwiceNotDistinct(s1.list, p, id);
      InsertedIs(s1.list, p, id);
    }
  }
}
