/** A mutex with priority inheritance, for threads that hold no other mutex and whose base priorities are fixed; one atomic
    step for every section of rt_mutex_take and rt_mutex_release (ipc.c). A smaller number is a better priority. */
module MutexSpec {
  import opened Prelude
  import opened Lists
  import opened IpcList

  /** `Granted` is resumed as the owner, but not yet running. A failed thread returns RT_ETIMEOUT. */
  datatype Pc = Idle | Waiting(time: int) | Granted | Failed

  /** `current` and `base` are the priorities of the threads; `taken` counts the takes a thread has returned from minus
      its releases, and `asked` logs the priorities of the threads that began to wait for the present owner. */
  datatype Mutex = Mutex(value: nat, owner: Option<Thread>, hold: nat, original: nat, flag: Flag, waiters: seq<Thread>,
                         current: map<Thread, nat>, base: map<Thread, nat>, pc: map<Thread, Pc>,
                         taken: map<Thread, int>, asked: seq<nat>)

  function At(m: Mutex, t: Thread): Pc { if t in m.pc then m.pc[t] else Idle }

  function Taken(m: Mutex, t: Thread): int { if t in m.taken then m.taken[t] else 0 }

  /** `hold` is an 8-bit field. */
  function Inc(hold: nat): nat { (hold + 1) % 256 }

  function Dec(hold: nat): nat { (hold + 255) % 256 }

  /** rt_mutex_take up to the call of the scheduler. */
  function Take(m: Mutex, t: Thread, time: int): Mutex {
    if m.owner == Some(t) then m.(hold := Inc(m.hold), taken := m.taken[t := Taken(m, t) + 1])
    else if m.value > 0 then
      m.(value := m.value - 1, owner := Some(t), original := Priority(m.current, t), hold := Inc(m.hold),
         taken := m.taken[t := Taken(m, t) + 1], asked := [])
    else if time == 0 || m.owner.None? then m
    else
      var p, o := Priority(m.current, t), m.owner.value;
      var current := if p < Priority(m.current, o) then m.current[o := p] else m.current;
      m.(current := current, waiters := Suspended(m.waiters, t, m.flag, current), pc := m.pc[t := Waiting(time)],
         asked := m.asked + [p])
  }

  /** rt_mutex_release. */
  function Release(m: Mutex, t: Thread): Mutex {
    if m.owner != Some(t) then m
    else
      var m1 := m.(hold := Dec(m.hold), taken := m.taken[t := Taken(m, t) - 1]);
      if m1.hold != 0 then m1 else HandOver(m1, Restored(m1, t))
  }

  /** The priorities with the owner's put back. */
  function Restored(m: Mutex, t: Thread): map<Thread, nat> {
    if m.original != Priority(m.current, t) then m.current[t := m.original] else m.current
  }

  /** The last release of the owner, whose priority is `original` again: the first waiter is the next owner. */
  function HandOver(m: Mutex, current: map<Thread, nat>): Mutex {
    if m.waiters != [] then
      var w := m.waiters[0];
      m.(owner := Some(w), original := Priority(current, w), hold := Inc(m.hold), waiters := m.waiters[1..],
         current := current, pc := m.pc[w := Granted], asked := [])
    else m.(value := m.value + 1, owner := None, original := 0xff, current := current, asked := [])
  }

  datatype Step =
    | CallTake(t: Thread, time: int)
    | CallRelease(t: Thread)
    | Return(t: Thread)
    | Expire(t: Thread)

  /** An owner whose hold count is at the limit of its 8 bits must not take the mutex again. */
  ghost predicate Enabled(m: Mutex, s: Step) {
    match s
    case CallTake(t, _) => At(m, t) == Idle && !(m.owner == Some(t) && m.hold == 255)
    case CallRelease(t) => At(m, t) == Idle
    case Return(t) => At(m, t) == Granted || At(m, t) == Failed
    case Expire(t) => At(m, t).Waiting? && At(m, t).time > 0
  }

  function Perform(m: Mutex, s: Step): Mutex {
    match s
    case CallTake(t, time) => Take(m, t, time)
    case CallRelease(t) => Release(m, t)
    case Return(t) =>
      if At(m, t) == Granted then m.(pc := m.pc[t := Idle], taken := m.taken[t := Taken(m, t) + 1])
      else m.(pc := m.pc[t := Idle])
    case Expire(t) => m.(waiters := Without(m.waiters, t), pc := m.pc[t := Failed])
  }

  // ---------------------------------------------------------------- invariant

  /** The best of p and the priorities asked for. */
  function Best(p: nat, asked: seq<nat>): nat
    decreases |asked|
  {
    if asked == [] then p
    else
      var q := Best(p, asked[..|asked| - 1]);
      if asked[|asked| - 1] < q then asked[|asked| - 1] else q
  }

  /** An owner exists iff the value is 0 iff the mutex is held; nobody waits without an owner. */
  ghost predicate OwnerOk(m: Mutex) {
    && m.value <= 1 && m.hold <= 255
    && (m.owner.Some? <==> m.value == 0) && (m.owner.Some? <==> m.hold >= 1)
    && (m.owner.None? ==> m.waiters == [] && m.original == 0xff)
    && (m.owner.Some? ==> !At(m, m.owner.value).Waiting? && At(m, m.owner.value) != Failed)
    && (forall t: Thread :: At(m, t) == Granted ==> m.owner == Some(t))
    && (m.owner.Some? && At(m, m.owner.value) == Granted ==> m.hold == 1)
  }

  ghost predicate ListOk(m: Mutex) {
    && Distinct(m.waiters)
    && (forall t: Thread :: t in m.waiters <==> At(m, t).Waiting?)
    && (m.flag == Prio ==> Ordered(m.waiters, m.current))
  }

  /** Everybody runs at the base priority, but the owner at the best of its own and those that waited for it. */
  ghost predicate PrioritiesOk(m: Mutex) {
    && (forall t: Thread :: m.owner != Some(t) ==> Priority(m.current, t) == Priority(m.base, t))
    && (m.owner.Some? ==>
          && m.original == Priority(m.base, m.owner.value)
          && Priority(m.current, m.owner.value) == Best(m.original, m.asked))
  }

  /** No inversion: no waiting thread has a better priority than the owner. */
  ghost predicate NoInversion(m: Mutex) {
    m.owner.Some? ==> forall w :: w in m.waiters ==> Priority(m.current, m.owner.value) <= Priority(m.current, w)
  }

  /** The owner's takes and releases balance to the hold count; nobody else is inside. */
  ghost predicate TakenOk(m: Mutex) {
    forall t: Thread :: Taken(m, t) ==
      if m.owner == Some(t) then (if At(m, t) == Granted then m.hold - 1 else m.hold) else 0
  }

  /** Nobody who called with time 0 waits. */
  ghost predicate Timed(m: Mutex) {
    forall t: Thread :: At(m, t).Waiting? ==> At(m, t).time != 0
  }

  ghost predicate Sound(m: Mutex) { OwnerOk(m) && ListOk(m) && PrioritiesOk(m) && TakenOk(m) }

  ghost predicate Inv(m: Mutex) { Sound(m) && NoInversion(m) }

  // ---------------------------------------------------------------- every step keeps it

  lemma BestAppend(p: nat, asked: seq<nat>, q: nat)
    ensures Best(p, asked + [q]) == if q < Best(p, asked) then q else Best(p, asked)
  {
    assert (asked + [q])[..|asked|] == asked;
  }

  /** The priority of a thread outside the list does not matter for its order. */
  lemma OrderedElsewhere(list: seq<Thread>, current: map<Thread, nat>, t: Thread, p: nat)
    requires t !in list && Ordered(list, current)
    ensures Ordered(list, current[t := p])
  {
  }

  /** A thread that begins to wait. */
  lemma WaitKeepsList(m: Mutex, t: Thread, time: int)
    requires ListOk(m) && At(m, t) == Idle && m.owner.Some? && m.owner != Some(t) && m.value == 0 && time != 0
    requires !At(m, m.owner.value).Waiting?
    ensures ListOk(Take(m, t, time))
    ensures forall w :: w in Take(m, t, time).waiters <==> w in m.waiters || w == t
  {
    hide Distinct, Ordered, Suspended;
    var m', o, p := Take(m, t, time), m.owner.value, Priority(m.current, t);
    if m.flag == Prio && p < Priority(m.current, o) {
      OrderedElsewhere(m.waiters, m.current, o, p);
    }
    SuspendedIs(m.waiters, t, m.flag, m'.current);
  }

  lemma WaitKeepsPriorities(m: Mutex, t: Thread, time: int)
    requires PrioritiesOk(m) && m.owner.Some? && m.owner != Some(t) && m.value == 0 && time != 0
    ensures PrioritiesOk(Take(m, t, time))
  {
    hide Suspended;
    BestAppend(m.original, m.asked, Priority(m.current, t));
  }

  lemma WaitKeeps(m: Mutex, t: Thread, time: int)
    requires Sound(m) && At(m, t) == Idle && m.owner.Some? && m.owner != Some(t) && time != 0
    ensures Sound(Take(m, t, time)) && (NoInversion(m) ==> NoInversion(Take(m, t, time)))
  {
    WaitKeepsList(m, t, time);
    WaitKeepsPriorities(m, t, time);
    hide ListOk, PrioritiesOk, Suspended;
  }

  /** A take keeps everything, unless it overflows the owner's hold count; then it leaves a held mutex that counts as
      free. */
  lemma TakeKeeps(m: Mutex, t: Thread, time: int)
    requires Sound(m) && At(m, t) == Idle
    ensures Sound(Take(m, t, time)) <==> !(m.owner == Some(t) && m.hold == 255)
    ensures NoInversion(m) ==> NoInversion(Take(m, t, time))
  {
    if m.owner != Some(t) && m.value == 0 && time != 0 {
      WaitKeeps(m, t, time);
    } else {
      hide Distinct, Ordered, Suspended;
    }
  }

  /** What a take comes to. A mutex nobody else owns is taken at once. One that another thread owns stays exactly as it is
      for a take with time 0; any other take waits on the list, and the owner then runs at no worse a priority. */
  lemma TakeOutcome(m: Mutex, t: Thread, time: int)
    requires Sound(m) && At(m, t) == Idle
    ensures var m' := Take(m, t, time);
            if m.owner.None? || m.owner == Some(t) then
              m'.owner == Some(t) && m'.waiters == m.waiters && m'.pc == m.pc && Taken(m', t) == Taken(m, t) + 1
            else if time == 0 then m' == m
            else
              && At(m', t) == Waiting(time) && m'.owner == m.owner && m'.taken == m.taken
              && Queued(m.waiters, m'.waiters, t, m.flag, m'.current)
              && Priority(m'.current, m.owner.value) <= Priority(m'.current, t)
              && Priority(m'.current, m.owner.value) <= Priority(m.current, m.owner.value)
  {
    hide Distinct, Ordered, Suspended, Queued;
    QueuedIs(m.waiters, t, m.flag, Take(m, t, time).current);
  }

  /** What a release comes to. Nothing for a thread that is not the owner; the owner keeps the mutex until its last
      release, which gives it to the first waiting thread, or leaves it free if there is none. */
  lemma ReleaseOutcome(m: Mutex, t: Thread)
    requires Sound(m) && At(m, t) == Idle
    ensures var m' := Release(m, t);
            if m.owner != Some(t) then m' == m
            else
              && Taken(m', t) == Taken(m, t) - 1
              && if m.hold > 1 then
                m'.owner == m.owner && m'.waiters == m.waiters && m'.pc == m.pc && m'.current == m.current
              else if m.waiters != [] then
                m'.owner == Some(m.waiters[0]) && At(m', m.waiters[0]) == Granted && m'.waiters == m.waiters[1..]
              else m'.owner == None && m'.value == 1 && m'.pc == m.pc
  {
    hide Distinct, Ordered;
    if m.owner == Some(t) && m.waiters != [] {
      assert m.waiters[0] in m.waiters;
    }
  }

  /** The head of the list becomes the owner, at its own priority. */
  lemma HandOverKeeps(m: Mutex, m': Mutex)
    requires ListOk(m) && m.waiters != [] && m'.flag == m.flag
    requires m'.waiters == m.waiters[1..] && m'.pc == m.pc[m.waiters[0] := Granted]
    requires forall t: Thread :: t in m.waiters ==> Priority(m'.current, t) == Priority(m.current, t)
    ensures ListOk(m')
    ensures m.flag == Prio ==>
      forall w :: w in m'.waiters ==> Priority(m'.current, m.waiters[0]) <= Priority(m'.current, w)
  {
    hide Distinct;
    TailKeeps(m.waiters, m.current);
    assert m.flag == Prio ==> Ordered(m'.waiters, m.current);
  }

  lemma LastReleaseKeeps(m: Mutex, t: Thread)
    requires Sound(m) && At(m, t) == Idle && m.owner == Some(t) && m.hold == 1
    ensures Sound(Release(m, t))
    ensures m.flag == Prio ==> NoInversion(Release(m, t))
    ensures Priority(Release(m, t).current, t) == Priority(m.base, t)
  {
    var m' := Release(m, t);
    if m.waiters != [] {
      assert m.waiters[0] in m.waiters;
      assert forall w :: w in m.waiters ==> w != t;
      HandOverKeeps(m, m');
      hide Distinct, Ordered, ListOk;
      assert At(m, m.waiters[0]).Waiting? by { assert m.waiters[0] in m.waiters && At(m, t) == Idle; WaitersWait(m); }
    }
  }

  lemma ReleaseKeeps(m: Mutex, t: Thread)
    requires Sound(m) && At(m, t) == Idle
    ensures Sound(Release(m, t))
    ensures m.flag == Prio && NoInversion(m) ==> NoInversion(Release(m, t))
  {
    if m.owner == Some(t) && m.hold == 1 {
      LastReleaseKeeps(m, t);
    }
  }

  lemma WaitersWait(m: Mutex)
    requires ListOk(m)
    ensures forall t: Thread :: t in m.waiters ==> At(m, t).Waiting?
  {
  }

  lemma ExpireKeeps(m: Mutex, t: Thread)
    requires Sound(m) && At(m, t).Waiting?
    ensures Sound(Perform(m, Expire(t)))
    ensures NoInversion(m) ==> NoInversion(Perform(m, Expire(t)))
  {
    hide Distinct, Ordered;
    WithoutKeeps(m.waiters, t, m.current);
  }

  lemma ReturnKeeps(m: Mutex, t: Thread)
    requires Sound(m) && (At(m, t) == Granted || At(m, t) == Failed)
    ensures Sound(Perform(m, Return(t)))
    ensures NoInversion(m) ==> NoInversion(Perform(m, Return(t)))
  {
    hide Distinct, Ordered;
  }

  lemma TimedKeeps(m: Mutex, s: Step)
    requires Timed(m)
    ensures Timed(Perform(m, s))
  {
    hide Suspended, Without;
    var m' := Perform(m, s);
    forall t: Thread | At(m', t).Waiting?
      ensures At(m', t).time != 0
    {
      assert At(m', t) == At(m, t) || s == CallTake(t, At(m', t).time);
    }
  }

  lemma PerformKeeps(m: Mutex, s: Step)
    requires Sound(m) && Enabled(m, s)
    ensures Sound(Perform(m, s)) && Perform(m, s).flag == m.flag && Perform(m, s).base == m.base
    ensures m.flag == Prio && NoInversion(m) ==> NoInversion(Perform(m, s))
  {
    hide Sound, NoInversion, Suspended, Without;
    match s
    case CallTake(t, time) => TakeKeeps(m, t, time);
    case CallRelease(t) => ReleaseKeeps(m, t);
    case Return(t) => ReturnKeeps(m, t);
    case Expire(t) => ExpireKeeps(m, t);
  }

  // ---------------------------------------------------------------- runs

  ghost predicate Reaches(m: Mutex, steps: seq<Step>, m': Mutex)
    decreases |steps|
  {
    if steps == [] then m' == m else Enabled(m, steps[0]) && Reaches(Perform(m, steps[0]), steps[1..], m')
  }

  /** rt_mutex_init. */
  function Initial(flag: Flag, base: map<Thread, nat>): Mutex {
    Mutex(1, None, 0, 0xff, flag, [], base, base, map[], map[], [])
  }

  lemma {:induction false} RunKeeps(m: Mutex, steps: seq<Step>, m': Mutex)
    requires Sound(m) && Reaches(m, steps, m')
    ensures Sound(m') && m'.flag == m.flag && m'.base == m.base
    ensures Timed(m) ==> Timed(m')
    ensures m.flag == Prio && NoInversion(m) ==> NoInversion(m')
    decreases |steps|
  {
    if steps != [] {
      hide Sound, NoInversion, Timed, Perform, Enabled;
      PerformKeeps(m, steps[0]);
      if Timed(m) {
        TimedKeeps(m, steps[0]);
      }
      RunKeeps(Perform(m, steps[0]), steps[1..], m');
    }
  }

  /** In every state that threads reach with a new mutex, whatever its flag: at most one thread is inside, which is the
      owner; an owner exists iff the value is 0 iff the mutex is held; only the owner's priority differs from its base,
      being the best of its own and those that waited for it; and the last release puts it back. */
  lemma MutualExclusion(flag: Flag, base: map<Thread, nat>, steps: seq<Step>, m: Mutex)
    requires Reaches(Initial(flag, base), steps, m)
    ensures forall t: Thread, u: Thread :: Taken(m, t) > 0 && Taken(m, u) > 0 ==> t == u
    ensures forall t: Thread :: Taken(m, t) >= 0 && (Taken(m, t) > 0 ==> m.owner == Some(t) && m.hold == Taken(m, t))
    ensures (m.owner.Some? <==> m.value == 0) && (m.owner.Some? <==> m.hold >= 1) && (m.waiters != [] ==> m.owner.Some?)
    ensures forall t: Thread :: (t in m.waiters <==> At(m, t).Waiting?) && (At(m, t).Waiting? ==> At(m, t).time != 0)
    ensures forall t: Thread :: m.owner != Some(t) ==> Priority(m.current, t) == Priority(base, t)
    ensures m.owner.Some? ==>
      Priority(m.current, m.owner.value) == Best(Priority(base, m.owner.value), m.asked)
    ensures forall t: Thread :: At(m, t) == Idle && m.owner == Some(t) && m.hold == 1 ==>
      Priority(Release(m, t).current, t) == Priority(base, t)
  {
    assert Sound(Initial(flag, base));
    RunKeeps(Initial(flag, base), steps, m);
    forall t: Thread | At(m, t) == Idle && m.owner == Some(t) && m.hold == 1
      ensures Priority(Release(m, t).current, t) == Priority(base, t)
    {
      LastReleaseKeeps(m, t);
    }
  }

  /** With RT_IPC_FLAG_PRIO the owner has a priority no worse than any waiting thread, and the list is ordered. */
  lemma PriorityInheritance(base: map<Thread, nat>, steps: seq<Step>, m: Mutex)
    requires Reaches(Initial(Prio, base), steps, m)
    ensures NoInversion(m) && Ordered(m.waiters, m.current)
  {
    assert Sound(Initial(Prio, base));
    RunKeeps(Initial(Prio, base), steps, m);
  }

  /** With RT_IPC_FLAG_FIFO only one step can bring about an inversion, a last release, and it does iff the first waiter
      has a worse priority than one behind it. */
  lemma FifoInversion(m: Mutex, t: Thread)
    requires Sound(m) && At(m, t) == Idle && m.owner == Some(t) && m.hold == 1
    ensures NoInversion(Release(m, t)) <==>
      forall i :: 0 < i < |m.waiters| ==> Priority(m.current, m.waiters[0]) <= Priority(m.current, m.waiters[i])
  {
    LastReleaseKeeps(m, t);
    var m' := Release(m, t);
    assert forall w :: w in m.waiters ==> w != t;
    if m.waiters != [] {
      assert m.waiters[0] in m.waiters;
      forall i | 0 < i < |m.waiters|
        ensures m.waiters[i] in m'.waiters && Priority(m'.current, m.waiters[i]) == Priority(m.current, m.waiters[i])
      {
        assert m'.waiters[i - 1] == m.waiters[i] && m.waiters[i] in m.waiters;
      }
      forall w | w in m'.waiters
        ensures exists i :: 0 < i < |m.waiters| && m.waiters[i] == w
      {
        var j :| 0 <= j < |m'.waiters| && m'.waiters[j] == w;
        assert m.waiters[j + 1] == w;
      }
    }
  }

  lemma OtherStepsKeepOrder(m: Mutex, s: Step)
    requires Sound(m) && NoInversion(m) && Enabled(m, s)
    requires s.CallRelease? ==> m.owner != Some(s.t) || m.hold > 1
    ensures NoInversion(Perform(m, s))
  {
    hide Sound, Suspended, Without;
    match s
    case CallTake(t, time) => TakeKeeps(m, t, time);
    case CallRelease(t) => HeldOn(m, t);
    case Return(t) => ReturnKeeps(m, t);
    case Expire(t) => ExpireKeeps(m, t);
  }

  lemma HeldOn(m: Mutex, t: Thread)
    requires Sound(m) && NoInversion(m) && (m.owner != Some(t) || m.hold > 1)
    ensures NoInversion(Release(m, t))
  {
  }

  /** Such a run: 2 and then 3 wait for 1; 2 gets the mutex at priority 20 while 3 waits at priority 5. */
  lemma FifoCounterexample()
    ensures var base := map[1 := 10, 2 := 20, 3 := 5];
            exists m :: Reaches(Initial(Fifo, base), [CallTake(1, -1), CallTake(2, -1), CallTake(3, -1), CallRelease(1)], m)
                        && !NoInversion(m)
  {
    var base := map[1 := 10, 2 := 20, 3 := 5];
    var m2 := Take(Take(Initial(Fifo, base), 1, -1), 2, -1);
    assert m2.waiters == [2] && m2.owner == Some(1) && m2.original == 10 && m2.hold == 1 && m2.current == base
           && m2.pc == map[2 := Waiting(-1)];
    LastSteps(m2, base);
    var m4 := Release(Take(m2, 3, -1), 1);
    var s2 := [CallTake(3, -1), CallRelease(1)];
    var s1 := [CallTake(2, -1)] + s2;
    var s0 := [CallTake(1, -1), CallTake(2, -1), CallTake(3, -1), CallRelease(1)];
    assert s0[1..] == s1 && s1[1..] == s2;
    assert Reaches(Take(Initial(Fifo, base), 1, -1), s1, m4);
  }

  lemma LastSteps(m: Mutex, base: map<Thread, nat>)
    requires base == map[1 := 10, 2 := 20, 3 := 5] && m.current == base && m.flag == Fifo && m.value == 0
    requires m.waiters == [2] && m.owner == Some(1) && m.original == 10 && m.hold == 1 && m.pc == map[2 := Waiting(-1)]
    ensures var m' := Release(Take(m, 3, -1), 1);
            Reaches(m, [CallTake(3, -1), CallRelease(1)], m') && !NoInversion(m')
  {
    var m3 := Take(m, 3, -1);
    var m' := Release(m3, 1);
    assert m3.waiters == [2, 3] && m'.waiters == [3] && m'.owner == Some(2) && 3 in m'.waiters;
    assert !NoInversion(m');
    assert Enabled(m, CallTake(3, -1)) && Enabled(m3, CallRelease(1));
    hide Take, Release, Enabled, NoInversion;
    assert [CallTake(3, -1), CallRelease(1)][1..] == [CallRelease(1)] && [CallRelease(1)][1..] == [];
    assert Reaches(m', [], m');
    assert Reaches(m3, [CallRelease(1)], m');
  }
}
