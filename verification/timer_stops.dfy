/** A timer that is off the list, because it was stopped or never started, does not fire until somebody starts it. */
module TimerStops {
  import opened Lists
  import opened TimerSpec
  import opened TimerRuns
  import opened TimerDeadlines

  lemma {:induction false} ExecutedOff(s: System, cmds: seq<Cmd>, id: Id, lo: nat)
    requires Inv(s, lo) && Allowed(cmds, |s.timers|) && s.now <= lo <= s.now + 1 && id !in s.list && Start(id) !in cmds
    ensures id !in Executed(s, cmds).list
    decreases |cmds|
  {
    if cmds != [] {
      hide Inv, Allowed, Execute;
      FirstAllowed(cmds, |s.timers|);
      ExecuteList(s, cmds[0], id, lo);
      ExecuteKeeps(s, cmds[0], lo);
      ExecutedOff(Execute(s, cmds[0]), cmds[1..], id, lo);
    }
  }

  lemma RearmedOff(s: System, h: Id, id: Id)
    requires id !in s.list && h != id
    ensures id !in Rearmed(s, h).list
  {
    if h < |s.timers| {
      var s1 := Written(Cleared(s, h), h, s.now + s.timers[h].init);
      InsertedIs(s1.list, Position(s1.list, s1.due, DueOf(s1.due, h), 0), h);
    }
  }

  lemma FiredOff(s: System, script: Script, id: Id)
    requires Inv(s, s.now) && GoodScript(script, |s.timers|)
    requires s.list != [] && DueOf(s.due, s.list[0]) <= s.now
    requires id !in s.list && Start(id) !in script(|s.fired|, s.list[0])
    ensures id !in Fired(s, script).list
  {
    var h, cmds := s.list[0], script(|s.fired|, s.list[0]);
    assert Allowed(cmds, |s.timers|);
    HeadPopped(s);
    assert id !in Popped(s).list && Popped(s).now == s.now && |Popped(s).timers| == |s.timers|;
    hide Inv, Allowed, Executed, GoodScript, Popped, Rearmed;
    ExecutedOff(Popped(s), cmds, id, s.now);
    RearmedOff(Executed(Popped(s), cmds), h, id);
  }

  /** No timeout function starts the timer. */
  ghost predicate NeverStarts(script: Script, id: Id) {
    forall k: nat, x: Id :: Start(id) !in script(k, x)
  }

  lemma {:induction false} CheckedOff(s: System, script: Script, id: Id)
    requires Inv(s, s.now) && GoodScript(script, |s.timers|) && id !in s.list && NeverStarts(script, id)
    ensures id !in Checked(s, script).list && TimesOf(New(s.fired, Checked(s, script).fired), id) == []
    decreases Overdue(s)
  {
    assert id !in Overdue(s);
    CheckedSilent(s, script, id);
    if s.list != [] && DueOf(s.due, s.list[0]) <= s.now {
      FiredOff(s, script, id);
      hide Inv, Fired, GoodScript, TimesOf, New, Overdue, NeverStarts;
      FiredStep(s, script);
      CheckedOff(Fired(s, script), script, id);
    }
  }

  /** The step does not start the timer. */
  ghost predicate NoStart(w: World, step: Step, id: Id) {
    && step != Call(Start(id))
    && (step.Link? ==> !(step.t in w.open && w.open[step.t].id == id))
  }

  lemma StepOff(w: World, step: Step, script: Script, id: Id)
    requires Good(w) && GoodScript(script, |w.sys.timers|) && Possible(w, step)
    requires id !in w.sys.list && NoStart(w, step, id) && NeverStarts(script, id)
    ensures var w' := Perform(w, step, script);
            id !in w'.sys.list && w.sys.fired <= w'.sys.fired && TimesOf(New(w.sys.fired, w'.sys.fired), id) == []
  {
    hide Checked, Execute, Without, GoodScript, Sorted, Distinct, NeverStarts, TimesOf, New;
    TimesOfNone(w.sys.fired, id);
    match step {
      case Tick => TickOff(w, script, id);
      case Call(c) => ExecuteList(w.sys, c, id, w.sys.now + 1);
      case Link(t) =>
        InsertedIs(w.sys.list, Position(w.sys.list, w.sys.due, DueOf(w.sys.due, w.open[t].id), 0), w.open[t].id);
      case Unlink(t) => UnlinkedKeeps(w.sys, w.open[t].id, w.sys.now + 1);
      case _ =>
    }
  }

  lemma TickOff(w: World, script: Script, id: Id)
    requires Good(w) && GoodScript(script, |w.sys.timers|) && id !in w.sys.list && NeverStarts(script, id)
    ensures var w' := Perform(w, Tick, script);
            id !in w'.sys.list && w.sys.fired <= w'.sys.fired && TimesOf(New(w.sys.fired, w'.sys.fired), id) == []
  {
    TickIs(w, script);
    hide Good, Inv, Perform, Checked, TimesOf, New, GoodScript, NeverStarts;
    CheckedOff(w.sys.(now := w.sys.now + 1), script, id);
    CheckedSilent(w.sys.(now := w.sys.now + 1), script, id);
  }

  /** A run in which nobody starts the timer. */
  ghost predicate Unstarted(w: World, steps: seq<Step>, script: Script, id: Id)
    requires Good(w) && GoodScript(script, |w.sys.timers|)
    decreases |steps|
  {
    steps == []
    || (Possible(w, steps[0]) && Guard(w, steps[0]) && NoStart(w, steps[0], id)
        && (StepKeeps(w, steps[0], script); Unstarted(Perform(w, steps[0], script), steps[1..], script, id)))
  }

  /** A timer off the list stays off it, and does not fire, however threads, calls and ticks interleave, until it is
      started. */
  lemma {:induction false} IdleIsSilent(w: World, steps: seq<Step>, script: Script, w': World, id: Id)
    requires Good(w) && GoodScript(script, |w.sys.timers|) && Reaches(w, steps, script, w')
    requires id !in w.sys.list && NeverStarts(script, id) && Unstarted(w, steps, script, id)
    ensures id !in w'.sys.list && w.sys.fired <= w'.sys.fired && TimesOf(New(w.sys.fired, w'.sys.fired), id) == []
    decreases |steps|
  {
    if steps == [] {
      TimesOfNone(w.sys.fired, id);
    } else {
      hide Good, Perform, Possible, Guard, GoodScript, TimesOf, New, NoStart, NeverStarts;
      StepKeeps(w, steps[0], script);
      var w1 := Perform(w, steps[0], script);
      StepOff(w, steps[0], script, id);
      IdleIsSilent(w1, steps[1..], script, w', id);
      TimesBetween(w.sys.fired, w1.sys.fired, w'.sys.fired, id);
    }
  }

  /** After a stop, in one piece or when its unlinking is done, the timer is off the list. */
  lemma StopIsIdle(w: World, script: Script, id: Id)
    requires Good(w) && GoodScript(script, |w.sys.timers|) && id < |w.sys.timers|
    ensures Possible(w, Call(Stop(id))) && id !in Perform(w, Call(Stop(id)), script).sys.list
    ensures forall t :: Possible(w, Unlink(t)) && w.open[t].id == id ==> id !in Perform(w, Unlink(t), script).sys.list
    ensures !w.sys.timers[id].activated ==> id !in w.sys.list
  {
    assert Allowed([Stop(id)], |w.sys.timers|);
    ExecuteList(w.sys, Stop(id), id, w.sys.now + 1);
    UnlinkedKeeps(w.sys, id, w.sys.now + 1);
    hide Execute, Without, Sorted, Distinct, GoodScript;
  }
}
