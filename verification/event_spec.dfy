/** An event object: 32 flags, threads that wait for some or all of a set of them, and one atomic step for every section of
    rt_event_send, rt_event_recv and rt_event_control (ipc.c). */
module EventSpec {
  import opened Prelude
  import opened Lists
  import opened IpcList

  type Bits = bv32

  /** RT_EVENT_FLAG_AND, RT_EVENT_FLAG_OR and RT_EVENT_FLAG_CLEAR. */
  datatype Want = Want(bits: Bits, all: bool, any: bool, clear: bool)

  /** `Granted` is resumed with these flags, but not yet running; `Failed` returns an error. */
  datatype Pc = Idle | Waiting(want: Want, timeout: int) | Granted(received: Bits) | Failed

  datatype Event = Event(bits: Bits, flag: Flag, prio: map<Thread, nat>, waiters: seq<Thread>, pc: map<Thread, Pc>)

  function At(pc: map<Thread, Pc>, t: Thread): Pc { if t in pc then pc[t] else Idle }

  function Both(a: Bits, b: Bits): Bits { a & b }

  function Or(a: Bits, b: Bits): Bits { a | b }

  function Minus(a: Bits, b: Bits): Bits { a & !b }

  /** The condition of a receiver; with both options the AND counts, with neither nothing does. */
  predicate Satisfied(now: Bits, w: Want) {
    if w.all then Both(now, w.bits) == w.bits else w.any && Both(now, w.bits) != 0
  }

  /** What a receive without waiting gets, and the flags it leaves. */
  function Receive(now: Bits, w: Want): (Option<Bits>, Bits) {
    if Satisfied(now, w) then (Some(Both(now, w.bits)), if w.clear then Minus(now, w.bits) else now) else (None, now)
  }

  /** rt_event_recv up to the call of the scheduler, for a set that is not empty. */
  function Recv(e: Event, t: Thread, w: Want, timeout: int): Event {
    if Satisfied(e.bits, w) then e.(bits := Receive(e.bits, w).1)
    else if timeout == 0 then e
    else e.(waiters := Suspended(e.waiters, t, e.flag, e.prio), pc := e.pc[t := Waiting(w, timeout)])
  }

  /** What rt_event_send stores for a waiter it resumes: the whole set, or for an OR the part that is there. */
  function Stored(now: Bits, w: Want): Bits { if w.all then w.bits else Both(now, w.bits) }

  /** Its walk over the waiting threads: the flags and the threads that are left, and the states of all threads. */
  function Walk(now: Bits, list: seq<Thread>, pc: map<Thread, Pc>): (Bits, seq<Thread>, map<Thread, Pc>)
    decreases |list|
  {
    if list == [] then (now, [], pc)
    else
      var t := list[0];
      match At(pc, t)
      case Waiting(w, _) =>
        if Satisfied(now, w) then
          Walk(if w.clear then Minus(now, Stored(now, w)) else now, list[1..], pc[t := Granted(Stored(now, w))])
        else
          var (now', list', pc') := Walk(now, list[1..], pc);
          (now', [t] + list', pc')
      case _ => Walk(now, list[1..], pc)
  }

  function Send(e: Event, bits: Bits): Event {
    if bits == 0 then e
    else
      var (now, list, pc) := Walk(Or(e.bits, bits), e.waiters, e.pc);
      e.(bits := now, waiters := list, pc := pc)
  }

  /** RT_IPC_CMD_RESET. */
  function Cleared(e: Event): Event {
    e.(bits := 0, waiters := [], pc := map t | t in e.pc :: if e.pc[t].Waiting? then Failed else e.pc[t])
  }

  datatype Step =
    | CallSend(bits: Bits)
    | CallRecv(t: Thread, want: Want, timeout: int)
    | Return(t: Thread)
    | Expire(t: Thread)
    | Clear

  ghost predicate Enabled(e: Event, s: Step) {
    match s
    case CallSend(_) => true
    case CallRecv(t, want, _) => At(e.pc, t) == Idle
    case Return(t) => At(e.pc, t).Granted? || At(e.pc, t) == Failed
    case Expire(t) => At(e.pc, t).Waiting? && At(e.pc, t).timeout > 0
    case Clear => true
  }

  function Perform(e: Event, s: Step): Event {
    match s
    case CallSend(bits) => Send(e, bits)
    case CallRecv(t, want, timeout) => if want.bits == 0 then e else Recv(e, t, want, timeout)
    case Return(t) => e.(pc := e.pc[t := Idle])
    case Expire(t) => e.(waiters := Without(e.waiters, t), pc := e.pc[t := Failed])
    case Clear => Cleared(e)
  }

  /** Exactly the waiting threads are on the list, none of them could receive what it waits for, and none called with a
      timeout of 0. */
  ghost predicate Inv(e: Event) {
    && ListOk(e.waiters, e.pc, e.flag, e.prio)
    && (forall t: Thread :: At(e.pc, t).Waiting? ==> At(e.pc, t).want.bits != 0 && !Satisfied(e.bits, At(e.pc, t).want))
    && (forall t: Thread :: At(e.pc, t).Waiting? ==> At(e.pc, t).timeout != 0)
  }

  ghost predicate ListOk(list: seq<Thread>, pc: map<Thread, Pc>, flag: Flag, prio: map<Thread, nat>) {
    && Distinct(list)
    && (forall t: Thread :: t in list <==> At(pc, t).Waiting?)
    && (flag == Prio ==> Ordered(list, prio))
  }

  // ---------------------------------------------------------------- the walk

  lemma BitsShrink(less: Bits, now: Bits, bits: Bits)
    requires Both(less, now) == less
    ensures Both(less, bits) == bits ==> Both(now, bits) == bits
    ensures Both(less, bits) != 0 ==> Both(now, bits) != 0
  {
    assert Both(less, bits) == less & bits && Both(now, bits) == now & bits;
  }

  lemma BitsCleared(now: Bits, bits: Bits)
    ensures Both(Minus(now, bits), now) == Minus(now, bits)
    ensures Minus(now, Both(now, bits)) == Minus(now, bits)
    ensures Both(now, now) == now
  {
  }

  lemma BitsTransitive(a: Bits, b: Bits, c: Bits)
    requires Both(a, b) == a && Both(b, c) == b
    ensures Both(a, c) == a
  {
  }

  /** Fewer flags satisfy no more. */
  lemma FewerBits(now: Bits, less: Bits, w: Want)
    requires Both(less, now) == less && Satisfied(less, w)
    ensures Satisfied(now, w)
  {
    BitsShrink(less, now, w.bits);
    hide Both;
  }

  /** Granting a waiting thread in the walk is the receive without waiting that it would do at that point. */
  lemma GrantIsReceive(now: Bits, w: Want)
    requires Satisfied(now, w)
    ensures Receive(now, w) == (Some(Stored(now, w)), if w.clear then Minus(now, Stored(now, w)) else now)
  {
    BitsCleared(now, w.bits);
    hide Both, Minus;
  }

  /** What a receive leaves is part of what was there. */
  lemma ReceiveShrinks(now: Bits, w: Want)
    ensures Both(Receive(now, w).1, now) == Receive(now, w).1
  {
    BitsCleared(now, w.bits);
    hide Both, Minus;
  }

  ghost predicate AllWait(list: seq<Thread>, pc: map<Thread, Pc>) {
    forall t :: t in list ==> At(pc, t).Waiting?
  }

  /** Receives without waiting by the waiting threads one after the other. */
  ghost function Receives(now: Bits, list: seq<Thread>, pc: map<Thread, Pc>): (Bits, seq<Option<Bits>>)
    requires AllWait(list, pc)
    decreases |list|
  {
    if list == [] then (now, [])
    else
      assert forall t :: t in list[1..] ==> t in list;
      var (got, left) := Receive(now, At(pc, list[0]).want);
      var (now', rest) := Receives(left, list[1..], pc);
      (now', [got] + rest)
  }

  /** A thread that got nothing waits on, a thread that got something has it. */
  ghost predicate Got(before: Pc, after: Pc, got: Option<Bits>) {
    after == match got { case None => before case Some(b) => Granted(b) }
  }

  /** Receives does not depend on other threads. */
  lemma {:induction false} ReceivesElsewhere(now: Bits, list: seq<Thread>, pc: map<Thread, Pc>, pc': map<Thread, Pc>)
    requires AllWait(list, pc) && forall t :: t in list ==> At(pc', t) == At(pc, t)
    ensures AllWait(list, pc') && Receives(now, list, pc') == Receives(now, list, pc)
    decreases |list|
  {
    if list != [] {
      assert forall t :: t in list[1..] ==> t in list;
      ReceivesElsewhere(Receive(now, At(pc, list[0]).want).1, list[1..], pc, pc');
    }
  }

  /** One send gives its waiters what receives without waiting in the order of the list would give them, clears what they
      would clear, and leaves the others on the list. */
  lemma {:induction false} WalkReceives(now: Bits, list: seq<Thread>, pc: map<Thread, Pc>)
    requires Distinct(list) && AllWait(list, pc)
    ensures var (now', list', pc') := Walk(now, list, pc);
            var (left, gots) := Receives(now, list, pc);
            && now' == left && |gots| == |list|
            && (forall i :: 0 <= i < |list| ==> Got(At(pc, list[i]), At(pc', list[i]), gots[i]))
            && (forall t: Thread :: t !in list ==> At(pc', t) == At(pc, t))
    decreases |list|
  {
    if list != [] {
      hide Satisfied, Both, Minus, Stored, Receive;
      var t, rest := list[0], list[1..];
      assert list == [t] + rest;
      assert t !in rest;
      var w := At(pc, t).want;
      ReceiveIs(now, w);
      if Satisfied(now, w) {
        var pc1 := pc[t := Granted(Stored(now, w))];
        ReceivesElsewhere(Receive(now, w).1, rest, pc, pc1);
        WalkReceives(Receive(now, w).1, rest, pc1);
        assert At(Walk(now, list, pc).2, t) == Granted(Stored(now, w));
      } else {
        WalkReceives(now, rest, pc);
        assert At(Walk(now, list, pc).2, t) == At(pc, t);
      }
    }
  }

  lemma ReceiveIs(now: Bits, w: Want)
    ensures Satisfied(now, w) ==>
      Receive(now, w) == (Some(Stored(now, w)), if w.clear then Minus(now, Stored(now, w)) else now)
    ensures !Satisfied(now, w) ==> Receive(now, w) == (None, now)
  {
    hide Both, Minus;
    if Satisfied(now, w) {
      GrantIsReceive(now, w);
    }
  }

  /** Whoever is left on the list after the walk is not satisfied by the flags left: they only became fewer since. */
  lemma {:induction false} WalkLeavesUnsatisfied(now: Bits, list: seq<Thread>, pc: map<Thread, Pc>)
    requires Distinct(list) && AllWait(list, pc)
    ensures var (now', list', pc') := Walk(now, list, pc);
            && Both(now', now) == now'
            && (forall t :: t in list' ==> t in list && At(pc, t).Waiting? && !Satisfied(now', At(pc, t).want))
            && (forall t: Thread :: t in list' <==> t in list && At(pc', t).Waiting?)
            && (forall t: Thread :: t !in list ==> At(pc', t) == At(pc, t))
    decreases |list|
  {
    hide Satisfied, Both, Minus, Stored;
    BitsCleared(now, 0);
    if list != [] {
      var t, rest := list[0], list[1..];
      assert list == [t] + rest;
      assert t !in rest;
      var w := At(pc, t).want;
      if Satisfied(now, w) {
        var now1, pc1 := if w.clear then Minus(now, Stored(now, w)) else now, pc[t := Granted(Stored(now, w))];
        forall u | u in rest
          ensures At(pc1, u).Waiting?
        {
          assert u in list;
        }
        WalkLeavesUnsatisfied(now1, rest, pc1);
        BitsCleared(now, Stored(now, w));
        BitsTransitive(Walk(now1, rest, pc1).0, now1, now);
      } else {
        assert AllWait(rest, pc);
        WalkLeavesUnsatisfied(now, rest, pc);
        if Satisfied(Walk(now, rest, pc).0, w) {
          FewerBits(now, Walk(now, rest, pc).0, w);
        }
      }
    }
  }

  lemma ConsOrder(t: Thread, rest: seq<Thread>, list': seq<Thread>, prio: map<Thread, nat>)
    requires Distinct(list') && forall u :: u in list' ==> u in rest
    requires t !in rest && (Ordered([t] + rest, prio) ==> Ordered(list', prio))
    ensures Distinct([t] + list') && (Ordered([t] + rest, prio) ==> Ordered([t] + list', prio))
  {
    if Ordered([t] + rest, prio) {
      forall u | u in rest
        ensures Priority(prio, t) <= Priority(prio, u)
      {
        var i :| 0 <= i < |rest| && rest[i] == u;
        assert ([t] + rest)[i + 1] == u && ([t] + rest)[0] == t;
      }
      assert forall i :: 0 <= i < |list'| ==> list'[i] in rest;
    }
  }

  /** The walk keeps the order of the threads it leaves. */
  lemma {:induction false} WalkKeepsOrder(now: Bits, list: seq<Thread>, pc: map<Thread, Pc>, prio: map<Thread, nat>)
    requires Distinct(list)
    ensures var list' := Walk(now, list, pc).1;
            && Distinct(list') && (forall t :: t in list' ==> t in list)
            && (Ordered(list, prio) ==> Ordered(list', prio))
    decreases |list|
  {
    hide Satisfied, Both, Minus, Stored;
    if list != [] {
      var t, rest := list[0], list[1..];
      TailKeeps(list, prio);
      assert [t] + rest == list;
      match At(pc, t)
      case Waiting(w, _) =>
        if Satisfied(now, w) {
          WalkKeepsOrder(if w.clear then Minus(now, Stored(now, w)) else now, rest, pc[t := Granted(Stored(now, w))],
                         prio);
        } else {
          WalkKeepsOrder(now, rest, pc, prio);
          ConsOrder(t, rest, Walk(now, rest, pc).1, prio);
        }
      case _ => WalkKeepsOrder(now, rest, pc, prio);
    }
  }

  // ---------------------------------------------------------------- every step keeps the invariant

  lemma WalkKeepsList(e: Event, now: Bits)
    requires Inv(e)
    ensures ListOk(Walk(now, e.waiters, e.pc).1, Walk(now, e.waiters, e.pc).2, e.flag, e.prio)
  {
    hide Distinct, Ordered, Satisfied, Walk;
    WalkLeavesUnsatisfied(now, e.waiters, e.pc);
    WalkKeepsOrder(now, e.waiters, e.pc, e.prio);
  }

  /** Whoever waits after the walk waited for the same before it, and is not satisfied by the flags left. */
  lemma LeftWaiting(now: Bits, list: seq<Thread>, pc: map<Thread, Pc>, t: Thread)
    requires Distinct(list) && AllWait(list, pc) && (t in list <==> At(pc, t).Waiting?)
    ensures var (now', _, pc') := Walk(now, list, pc);
            At(pc', t).Waiting? ==> At(pc', t) == At(pc, t) && !Satisfied(now', At(pc, t).want)
  {
    hide Distinct, Satisfied, Walk, AllWait;
    WalkLeavesUnsatisfied(now, list, pc);
    StillWaiting(now, list, pc);
    var pc' := Walk(now, list, pc).2;
    if t !in list {
      assert At(pc', t) == At(pc, t);
    }
  }

  lemma WalkKeeps(e: Event, now: Bits)
    requires Inv(e)
    ensures var (now', list', pc') := Walk(now, e.waiters, e.pc); Inv(e.(bits := now', waiters := list', pc := pc'))
  {
    InList(e);
    WalkKeepsList(e, now);
    assert forall t: Thread :: At(e.pc, t).Waiting? ==> At(e.pc, t).want.bits != 0 && At(e.pc, t).timeout != 0;
    hide Distinct, Ordered, Satisfied, Walk, ListOk;
    var (now', list', pc') := Walk(now, e.waiters, e.pc);
    forall t: Thread | At(pc', t).Waiting?
      ensures At(pc', t).want.bits != 0 && !Satisfied(now', At(pc', t).want) && At(pc', t).timeout != 0
    {
      LeftWaiting(now, e.waiters, e.pc, t);
    }
  }

  lemma SendKeeps(e: Event, bits: Bits)
    requires Inv(e)
    ensures Inv(Send(e, bits))
  {
    hide Inv, Walk, Or;
    if bits != 0 {
      WalkKeeps(e, Or(e.bits, bits));
    }
  }

  lemma InList(e: Event)
    requires Inv(e)
    ensures Distinct(e.waiters) && forall t: Thread :: t in e.waiters <==> At(e.pc, t).Waiting?
  {
    hide Distinct, Ordered, Satisfied;
  }

  /** A thread that still waits after the walk waits for the same. */
  lemma StillWaiting(now: Bits, list: seq<Thread>, pc: map<Thread, Pc>)
    requires Distinct(list) && AllWait(list, pc)
    ensures forall t :: t in list && At(Walk(now, list, pc).2, t).Waiting? ==> At(Walk(now, list, pc).2, t) == At(pc, t)
  {
    hide Distinct, Satisfied, Walk;
    WalkReceives(now, list, pc);
    forall t | t in list && At(Walk(now, list, pc).2, t).Waiting?
      ensures At(Walk(now, list, pc).2, t) == At(pc, t)
    {
      var i :| 0 <= i < |list| && list[i] == t;
      assert Got(At(pc, t), At(Walk(now, list, pc).2, t), Receives(now, list, pc).1[i]);
    }
  }

  lemma RecvKeeps(e: Event, t: Thread, w: Want, timeout: int)
    requires Inv(e) && At(e.pc, t) == Idle && w.bits != 0
    ensures Inv(Recv(e, t, w, timeout))
  {
    hide Distinct, Ordered, Satisfied, Receive;
    InList(e);
    if Satisfied(e.bits, w) {
      var less := Receive(e.bits, w).1;
      ReceiveShrinks(e.bits, w);
      forall u: Thread | At(e.pc, u).Waiting?
        ensures !Satisfied(less, At(e.pc, u).want)
      {
        if Satisfied(less, At(e.pc, u).want) {
          FewerBits(e.bits, less, At(e.pc, u).want);
        }
      }
    } else if timeout != 0 {
      hide Suspended;
      SuspendedIs(e.waiters, t, e.flag, e.prio);
      var e' := Recv(e, t, w, timeout);
      forall u: Thread
        ensures u in e'.waiters <==> At(e'.pc, u).Waiting?
      {
        assert u in e'.waiters <==> u in e.waiters || u == t;
      }
    }
  }

  lemma ExpireKeeps(e: Event, t: Thread)
    requires Inv(e) && At(e.pc, t).Waiting?
    ensures Inv(Perform(e, Expire(t)))
  {
    hide Distinct, Ordered, Satisfied, Without;
    InList(e);
    WithoutKeeps(e.waiters, t, e.prio);
    var e' := Perform(e, Expire(t));
    forall u: Thread
      ensures u in e'.waiters <==> At(e'.pc, u).Waiting?
    {
      assert u in e'.waiters <==> u in e.waiters && u != t;
    }
  }

  lemma ReturnKeeps(e: Event, t: Thread)
    requires Inv(e) && !At(e.pc, t).Waiting?
    ensures Inv(Perform(e, Return(t)))
  {
    hide Distinct, Ordered, Satisfied;
  }

  lemma ClearedKeeps(e: Event)
    requires Inv(e)
    ensures Inv(Cleared(e))
  {
    hide Satisfied;
    assert forall t: Thread :: At(Cleared(e).pc, t).Waiting? ==> false;
  }

  lemma PerformKeeps(e: Event, s: Step)
    requires Inv(e) && Enabled(e, s)
    ensures Inv(Perform(e, s))
  {
    hide Inv, Send, Recv, Cleared;
    match s
    case CallSend(bits) => SendKeeps(e, bits);
    case CallRecv(t, want, timeout) => if want.bits != 0 { RecvKeeps(e, t, want, timeout); }
    case Return(t) => ReturnKeeps(e, t);
    case Expire(t) => ExpireKeeps(e, t);
    case Clear => ClearedKeeps(e);
  }

  // ---------------------------------------------------------------- runs

  ghost predicate Reaches(e: Event, steps: seq<Step>, e': Event)
    decreases |steps|
  {
    if steps == [] then e' == e else Enabled(e, steps[0]) && Reaches(Perform(e, steps[0]), steps[1..], e')
  }

  /** rt_event_init. */
  function Initial(flag: Flag, prio: map<Thread, nat>): Event { Event(0, flag, prio, [], map[]) }

  lemma {:induction false} RunKeeps(e: Event, steps: seq<Step>, e': Event)
    requires Inv(e) && Reaches(e, steps, e')
    ensures Inv(e')
    decreases |steps|
  {
    if steps != [] {
      hide Inv, Perform, Enabled;
      PerformKeeps(e, steps[0]);
      RunKeeps(Perform(e, steps[0]), steps[1..], e');
    }
  }

  /** In every state that is reached from a new event object no waiting thread could receive what it waits for. */
  lemma NobodyWaitsForNothing(flag: Flag, prio: map<Thread, nat>, steps: seq<Step>, e: Event)
    requires Reaches(Initial(flag, prio), steps, e)
    ensures forall t :: t in e.waiters ==>
      At(e.pc, t).Waiting? && At(e.pc, t).want.bits != 0 && At(e.pc, t).timeout != 0
      && Receive(e.bits, At(e.pc, t).want) == (None, e.bits)
  {
    hide Satisfied;
    RunKeeps(Initial(flag, prio), steps, e);
  }
}
