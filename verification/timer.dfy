/** The timer list of timer.c as it computes: 32-bit ticks, compared by the size of their difference modulo 2^32. */
module TimerList {
  import opened Lists
  import opened TimerSpec
  import opened TimerRuns

  class List {
    var tick: nat
    var list: seq<Id>
    var timers: seq<Timer>
    var calls: nat              // timeout functions called so far
    ghost var now: nat
    ghost var due: map<Id, nat>
    ghost var fired: seq<Firing>

    ghost function State(): System
      reads this
    {
      System(now, list, timers, due, fired)
    }

    ghost predicate Valid(lo: nat)
      reads this
    {
      tick == now % WRAP && calls == |fired| && Inv(State(), lo)
    }

    /** The first test of rt_timer_start and of rt_timer_stop, with interrupts still enabled. */
    method IsActivated(id: Id) returns (activated: bool)
      requires id < |timers|
      ensures activated == timers[id].activated
    {
      return timers[id].activated;
    }

    /** The deadline, still with interrupts enabled. `read` is what rt_tick_get returned at tick `since`. */
    method WriteTimeout(id: Id, read: nat, ghost since: nat)
      requires id < |timers| && read == since % WRAP
      modifies this
      ensures State() == Written(old(State()), id, since + old(timers[id].init))
      ensures list == old(list) && now == old(now) && due == old(due)[id := since + old(timers[id].init)]
      ensures tick == old(tick) && calls == old(calls)
    {
      AddMod(since, timers[id].init);
      due := due[id := since + timers[id].init];
      timers := timers[id := timers[id].(timeout := (read + timers[id].init) % WRAP)];
    }

    /** timeout_tick of every timer is its deadline modulo 2^32; the list may be in any order. */
    ghost predicate Words()
      reads this
    {
      Fields(State()) && forall i :: 0 <= i < |list| ==> list[i] < |timers|
    }

    /** The loop of rt_timer_start over the list. */
    method Search(timeout: nat, ghost d: nat) returns (n: nat)
      requires Words() && timeout == d % WRAP
      ensures n == Position(list, due, d, 0)
    {
      hide Sub;
      n := 0;
      while n < |list|
        invariant n <= |list| && Position(list, due, d, 0) == Position(list, due, d, n)
      {
        var t := timers[list[n]];
        assert t.timeout == DueOf(due, list[n]) % WRAP;
        if Sub(t.timeout, timeout) == 0 {
          return n + 1;
        } else if Sub(t.timeout, timeout) < HALF {
          return n;
        }
        n := n + 1;
      }
    }

    /** The part of rt_timer_start with interrupts disabled: the timer is linked by its timeout_tick, whether or not that has
        passed, and becomes active. */
    method LinkSection(id: Id, ghost lo: nat)
      requires Words() && id < |timers| && id !in list
      modifies this
      ensures State() == Linked(old(State()), id) && tick == old(tick) && calls == old(calls)
      ensures old(Valid(lo)) && old(now <= lo <= DueOf(due, id) < now + HALF) ==> Valid(lo)
    {
      if Valid(lo) && now <= lo {
        LinkedKeeps(State(), id, lo);
      }
      hide Inv, Position;
      assert timers[id].timeout == DueOf(due, id) % WRAP;
      var n := Search(timers[id].timeout, DueOf(due, id));
      list := list[..n] + [id] + list[n..];
      timers := timers[id := timers[id].(activated := true)];
    }

    /** rt_timer_start called with interrupts disabled. */
    method Start(id: Id, ghost lo: nat) returns (ok: bool)
      requires Valid(lo) && id < |timers| && now <= lo <= now + 1
      modifies this
      ensures ok <==> !old(timers[id].activated)
      ensures State() == Started(old(State()), id) && Valid(lo) && tick == old(tick) && calls == old(calls)
    {
      DelayInRange(State(), id, lo);
      hide Inv, Linked, Fields, Position, Written;
      var activated := IsActivated(id);
      if activated {
        return false;
      }
      assert id !in list by { IdleUnlisted(State(), id, lo); }
      WrittenKeeps(State(), id, now + timers[id].init, lo);
      WriteTimeout(id, tick, now);
      WordsOf(State(), lo);
      LinkSection(id, lo);
      return true;
    }

    /** The part of rt_timer_stop with interrupts disabled. Unlinking a timer that is off the list does nothing: it is linked
        to itself. */
    method UnlinkSection(id: Id, ghost lo: nat)
      requires Valid(lo)
      modifies this
      ensures State() == Unlinked(old(State()), id) && Valid(lo) && tick == old(tick) && calls == old(calls)
    {
      UnlinkedKeeps(State(), id, lo);
      hide Inv;
      list := Without(list, id);
    }

    /** The last statement of rt_timer_stop, with interrupts enabled again. */
    method ClearFlag(id: Id)
      requires id < |timers|
      modifies this
      ensures State() == Cleared(old(State()), id) && tick == old(tick) && calls == old(calls)
    {
      timers := timers[id := timers[id].(activated := false)];
    }

    /** rt_timer_stop called with interrupts disabled. */
    method Stop(id: Id, ghost lo: nat) returns (ok: bool)
      requires Valid(lo) && id < |timers|
      modifies this
      ensures ok <==> old(timers[id].activated)
      ensures State() == Stopped(old(State()), id) && Valid(lo) && tick == old(tick) && calls == old(calls)
    {
      UnlinkedKeeps(State(), id, lo);
      ClearedKeeps(Unlinked(State(), id), id, lo);
      hide Inv, Without;
      var activated := IsActivated(id);
      if !activated {
        return false;
      }
      UnlinkSection(id, lo);
      ClearFlag(id);
      return true;
    }

    /** rt_timer_control, for the commands that set something. */
    method Control(c: Cmd, ghost lo: nat)
      requires Valid(lo) && Allowed([c], |timers|) && (c.SetTime? || c.SetPeriodic?)
      modifies this
      ensures State() == Execute(old(State()), c) && Valid(lo) && tick == old(tick) && calls == old(calls)
    {
      assert c in [c];
      match c
      case SetTime(id, t) => timers := timers[id := timers[id].(init := t)];
      case SetPeriodic(id, on) => timers := timers[id := timers[id].(periodic := on)];
    }

    /** A timeout function: its commands, one after the other, with interrupts disabled. */
    method Timeout(cmds: seq<Cmd>)
      requires Valid(now) && Allowed(cmds, |timers|)
      modifies this
      ensures Valid(now) && State() == Executed(old(State()), cmds) && tick == old(tick) && calls == old(calls)
    {
      hide Inv, Started, Stopped, Allowed;
      ghost var s0 := State();
      var i := 0;
      while i < |cmds|
        invariant 0 <= i <= |cmds| && now == s0.now && Valid(now) && |timers| == |s0.timers|
        invariant tick == old(tick) && calls == old(calls)
        invariant Executed(s0, cmds) == Executed(State(), cmds[i..]) && Allowed(cmds[i..], |timers|)
      {
        var c := cmds[i];
        assert cmds[i..][1..] == cmds[i + 1..] && cmds[i..][0] == c;
        FirstAllowed(cmds[i..], |timers|);
        AllowedId(c, |timers|);
        match c {
          case Start(id) =>
            var _ := Start(id, now);
          case Stop(id) =>
            var _ := Stop(id, now);
          case _ =>
            Control(c, now);
        }
        i := i + 1;
      }
      assert cmds[i..] == [];
    }

    /** One round of the loop of rt_timer_check, for the timer at the head of the list. */
    method Fire(script: Script)
      requires Valid(now) && GoodScript(script, |timers|) && list != [] && DueOf(due, list[0]) <= now
      modifies this
      ensures now == old(now) && tick == old(tick) && |timers| == old(|timers|)
      ensures State() == Fired(old(State()), script) && Valid(now)
    {
      hide Inv, Overdue, Executed, Started, EndsUnlinked, Allowed, Cleared;
      ghost var s := State();
      AfterCall(s, script);
      HeadPopped(s);
      var t := list[0];
      fired := fired + [Firing(t, DueOf(due, t), now)];
      list := list[1..];
      assert Allowed(script(calls, t), |timers|);
      var cmds := script(calls, t);
      calls := calls + 1;
      Timeout(cmds);
      ghost var s2 := State();
      ClearedKeeps(s2, t, now);
      var restart := timers[t].periodic && timers[t].activated;
      ClearFlag(t);
      ClearedRest(s2, t);
      if restart {
        var _ := Start(t, now);
      }
    }

    /** rt_timer_check. */
    method Check(script: Script)
      requires Valid(now) && GoodScript(script, |timers|)
      modifies this
      ensures State() == Checked(old(State()), script) && Valid(now + 1) && now == old(now) && tick == old(tick)
    {
      ghost var s0 := State();
      CheckedKeeps(s0, script, {});
      while list != []
        invariant Valid(now) && now == s0.now && |timers| == |s0.timers| && tick == old(tick)
        invariant Checked(State(), script) == Checked(s0, script)
        invariant list == [] ==> State() == Checked(s0, script)
        decreases Overdue(State())
      {
        hide Fired, Sorted, Distinct, GoodScript;
        ghost var s := State();
        assert list[0] in list;
        var t := timers[list[0]];
        ModularOrder(now, DueOf(due, list[0]));
        if Sub(tick, t.timeout) < HALF {
          FiredKeeps(s, script);
          assert list[0] in Overdue(s);
          Fire(script);
        } else {
          break;
        }
      }
    }

    /** The tick interrupt: the tick wraps at 2^32, then the timers are checked. */
    method TickIncrease(script: Script, ghost open: map<Thread, Open>)
      requires tick == now % WRAP && calls == |fired| && Good(World(State(), open)) && GoodScript(script, |timers|)
      modifies this
      ensures World(State(), open) == Perform(World(old(State()), open), Tick, script)
      ensures now == old(now) + 1 && tick == (old(tick) + 1) % WRAP && Valid(now + 1)
    {
      hide Inv, Checked, GoodScript;
      TickedInv(State());
      AddMod(now, 1);
      tick := (tick + 1) % WRAP;
      now := now + 1;
      Check(script);
    }
  }

  /** Adding to a wrapped tick. */
  lemma AddMod(a: nat, b: nat)
    ensures (a % WRAP + b) % WRAP == (a + b) % WRAP
  {
    assert a % WRAP + b == (a + b) + (-(a / WRAP)) * WRAP;
    ModShift(a + b, -(a / WRAP));
  }

  /** When the function of the first timer has returned, the timer is off the list. */
  lemma AfterCall(s: System, script: Script)
    requires Inv(s, s.now) && GoodScript(script, |s.timers|) && s.list != [] && DueOf(s.due, s.list[0]) <= s.now
    ensures var s2 := Executed(Popped(s), script(|s.fired|, s.list[0])); Inv(s2, s.now) && s.list[0] !in s2.list
  {
    var id, cmds := s.list[0], script(|s.fired|, s.list[0]);
    assert Allowed(cmds, |s.timers|) && EndsUnlinked(cmds, id);
    HeadPopped(s);
    hide Inv, Executed, EndsUnlinked, Allowed, GoodScript;
    ListedAfter(Popped(s), cmds, id, s.now);
    ExecutedKeeps(Popped(s), cmds, s.now, {});
  }

  lemma AllowedId(c: Cmd, n: nat)
    requires Allowed([c], n)
    ensures c.id < n
  {
    assert c in [c];
  }

  lemma ClearedRest(s: System, id: Id)
    requires id < |s.timers|
    ensures var s' := Cleared(s, id);
            |s'.timers| == |s.timers| && s'.now == s.now && s'.fired == s.fired && !s'.timers[id].activated
  {
  }

  lemma WordsOf(s: System, lo: nat)
    requires Inv(s, lo)
    ensures Fields(s) && forall i :: 0 <= i < |s.list| ==> s.list[i] < |s.timers|
  {
    assert forall i :: 0 <= i < |s.list| ==> s.list[i] in s.list;
  }

  lemma IdleUnlisted(s: System, id: Id, lo: nat)
    requires Inv(s, lo) && id < |s.timers| && !s.timers[id].activated
    ensures id !in s.list
  {
  }

  lemma DelayInRange(s: System, id: Id, lo: nat)
    requires Inv(s, lo) && id < |s.timers|
    ensures 1 <= s.timers[id].init < HALF
  {
  }
}
