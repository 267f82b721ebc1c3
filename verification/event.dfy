/** The event object of ipc.c in place, with the fields event_set and event_info of the waiting threads. */
module Events {
  import Prelude
  import opened Lists
  import opened IpcList
  import opened EventSpec
  import opened EventBits

  datatype Options = Options(all: bool, any: bool, clear: bool)

  datatype Status = Received | NoEvent | Blocked | BadSet

  /** The fields of a thread while it waits, and after it has been resumed. */
  ghost predicate Fields(p: Pc, eventSet: Bits, info: Options) {
    && (p.Waiting? ==> p.want == Want(eventSet, info.all, info.any, info.clear))
    && (p.Granted? ==> p.received == eventSet)
  }

  ghost predicate AllFields(pc: map<Thread, Pc>, eventSet: map<Thread, Bits>, eventInfo: map<Thread, Options>) {
    forall t: Thread :: At(pc, t).Waiting? || At(pc, t).Granted? ==>
      t in eventSet && t in eventInfo && Fields(At(pc, t), eventSet[t], eventInfo[t])
  }

  /** One thread of the walk. */
  lemma WalkStep(now: Bits, list: seq<Thread>, pc: map<Thread, Pc>)
    requires list != [] && At(pc, list[0]).Waiting?
    ensures var t, w := list[0], At(pc, list[0]).want;
            Walk(now, list, pc) ==
              if Satisfied(now, w) then
                Walk(if w.clear then Minus(now, Stored(now, w)) else now, list[1..], pc[t := Granted(Stored(now, w))])
              else
                Behind([t], Walk(now, list[1..], pc))
  {
  }

  lemma WalkEnds(now: Bits, pc: map<Thread, Pc>)
    ensures Walk(now, [], pc) == (now, [], pc)
  {
  }

  /** The result of a walk with these threads in front of the list. */
  function Behind(front: seq<Thread>, walk: (Bits, seq<Thread>, map<Thread, Pc>)): (Bits, seq<Thread>, map<Thread, Pc>) {
    (walk.0, front + walk.1, walk.2)
  }

  lemma WaitingList(e: Event)
    requires Inv(e)
    ensures AllWait(e.waiters, e.pc) && Distinct(e.waiters)
  {
    InList(e);
  }

  lemma SendIs(e: Event, more: Bits, walk: (Bits, seq<Thread>, map<Thread, Pc>))
    requires more != 0 && walk == Walk(Or(e.bits, more), e.waiters, e.pc)
    ensures Send(e, more) == e.(bits := walk.0, waiters := walk.1, pc := walk.2)
  {
  }

  /** The first of the list waits, and the others still wait whatever becomes of it. */
  lemma WaitsNext(list: seq<Thread>, pc: map<Thread, Pc>)
    requires list != [] && AllWait(list, pc) && Distinct(list)
    ensures At(pc, list[0]).Waiting? && Distinct(list[1..])
    ensures AllWait(list[1..], pc)
  {
    assert list == [list[0]] + list[1..];
    assert list[0] !in list[1..];
  }

  lemma WaitsStill(list: seq<Thread>, pc: map<Thread, Pc>, p: Pc)
    requires list != [] && AllWait(list, pc) && Distinct(list)
    ensures AllWait(list[1..], pc[list[0] := p])
  {
    WaitsNext(list, pc);
  }

  lemma FieldsOf(pc: map<Thread, Pc>, eventSet: map<Thread, Bits>, eventInfo: map<Thread, Options>, t: Thread, b: Bits)
    requires AllFields(pc, eventSet, eventInfo) && At(pc, t).Waiting?
    ensures t in eventSet && t in eventInfo && Fields(At(pc, t), eventSet[t], eventInfo[t])
    ensures AllFields(pc[t := Granted(b)], eventSet[t := b], eventInfo)
  {
  }

  lemma BehindNobody(walk: (Bits, seq<Thread>, map<Thread, Pc>))
    ensures Behind([], walk) == walk
  {
    assert [] + walk.1 == walk.1;
  }

  lemma BehindTwo(a: seq<Thread>, b: seq<Thread>, walk: (Bits, seq<Thread>, map<Thread, Pc>))
    ensures Behind(a, Behind(b, walk)) == Behind(a + b, walk)
  {
    assert a + (b + walk.1) == a + b + walk.1;
  }

  lemma FailedFields(pc: map<Thread, Pc>, eventSet: map<Thread, Bits>, eventInfo: map<Thread, Options>, t: Thread)
    requires AllFields(pc, eventSet, eventInfo)
    ensures AllFields(pc[t := Failed], eventSet, eventInfo)
  {
  }

  lemma WaitsInList(e: Event, t: Thread, k: nat)
    requires Inv(e) && k < |e.waiters| && t == e.waiters[k]
    ensures t in e.pc
  {
    InList(e);
    assert t in e.waiters;
  }

  /** When everybody on the list has failed, the object is cleared. */
  lemma ClearedIs(e: Event, pc: map<Thread, Pc>)
    requires Inv(e) && pc.Keys == e.pc.Keys
    requires forall t: Thread :: t in e.pc ==> pc[t] == if t in e.waiters then Failed else e.pc[t]
    ensures Cleared(e) == e.(bits := 0, waiters := [], pc := pc)
  {
    InList(e);
    hide Inv;
    forall t | t in e.pc
      ensures pc[t] == Cleared(e).pc[t]
    {
      assert At(e.pc, t) == e.pc[t];
    }
    assert pc == Cleared(e).pc;
  }

  /** What a waiting thread is given, flag by flag. */
  lemma StoredBits(now: Bits, w: Want)
    ensures Satisfied(now, w) <==> Fulfilled(now, w)
    ensures Satisfied(now, w) ==> forall p: nat :: Has(Stored(now, w), p) <==> Has(w.bits, p) && Has(now, p)
  {
    SatisfiedIs(now, w);
    forall p: nat
      ensures Has(Both(now, w.bits), p) <==> Has(w.bits, p) && Has(now, p)
    {
      BothBit(now, w.bits, p);
    }
    hide Has, Both;
  }

  class EventObject {
    const flag: Flag
    var bits: Bits
    var prio: map<Thread, nat>
    var waiters: seq<Thread>
    var eventSet: map<Thread, Bits>
    var eventInfo: map<Thread, Options>
    ghost var pc: map<Thread, Pc>

    ghost predicate Valid()
      reads this
    {
      AllFields(pc, eventSet, eventInfo)
    }

    ghost function State(): Event
      reads this
    {
      Event(bits, flag, prio, waiters, pc)
    }

    /** rt_event_init. */
    constructor (flag: Flag, prio: map<Thread, nat>)
      ensures Valid() && State() == Initial(flag, prio)
    {
      this.flag, this.prio := flag, prio;
      bits, waiters, eventSet, eventInfo, pc := 0, [], map[], map[], map[];
    }

    /** The check of one waiting thread in rt_event_send: is its condition satisfied? An OR condition keeps the flags it
        received. */
    method Check(t: Thread) returns (ok: bool)
      requires Valid() && At(pc, t).Waiting?
      modifies `eventSet
      ensures ok == Satisfied(bits, At(pc, t).want)
      ensures ok <==> Fulfilled(bits, At(pc, t).want)
      ensures ok ==> t in eventSet && forall p: nat :: Has(eventSet[t], p) <==> Has(At(pc, t).want.bits, p) && Has(bits, p)
      ensures eventSet == if ok then old(eventSet)[t := Stored(bits, At(pc, t).want)] else old(eventSet)
    {
      StoredBits(bits, At(pc, t).want);
      hide Both, Has, Fulfilled;
      ok := false;
      if eventInfo[t].all {
        if Both(bits, eventSet[t]) == eventSet[t] {
          ok := true;
        }
      } else if eventInfo[t].any {
        if Both(bits, eventSet[t]) != 0 {
          eventSet := eventSet[t := Both(bits, eventSet[t])];
          ok := true;
        }
      }
    }

    /** The loop of rt_event_send. */
    method WalkWaiters()
      requires Valid() && Distinct(waiters) && AllWait(waiters, pc)
      modifies `bits, `waiters, `eventSet, `pc
      ensures Valid() && (bits, waiters, pc) == Walk(old(bits), old(waiters), old(pc))
    {
      hide Satisfied, Both, Minus, Stored, Walk, AllFields, AllWait, Distinct;
      ghost var list, result := waiters, Walk(bits, waiters, pc);
      assert list[0..] == list;
      BehindNobody(result);
      var n := 0;
      ghost var k := 0;
      while n < |waiters|
        invariant n <= |waiters| && k <= |list| && waiters[n..] == list[k..]
        invariant Valid()
        invariant AllWait(list[k..], pc) && Distinct(list[k..])
        invariant result == Behind(waiters[..n], Walk(bits, list[k..], pc))
        decreases |list| - k
      {
        var t := waiters[n];
        assert t == list[k..][0] && list[k..][1..] == list[k + 1..];
        WaitsNext(list[k..], pc);
        WaitsStill(list[k..], pc, Granted(Stored(bits, At(pc, t).want)));
        WalkStep(bits, list[k..], pc);
        FieldsOf(pc, eventSet, eventInfo, t, Stored(bits, At(pc, t).want));
        var ok := Check(t);
        if ok {
          if eventInfo[t].clear {
            bits := Minus(bits, eventSet[t]);
          }
          pc := pc[t := Granted(eventSet[t])];
          waiters := waiters[..n] + waiters[n + 1..];
        } else {
          BehindTwo(waiters[..n], [t], Walk(bits, list[k + 1..], pc));
          n := n + 1;
          assert waiters[..n] == waiters[..n - 1] + [t];
        }
        k := k + 1;
      }
      WalkEnds(bits, pc);
      assert waiters[..n] + [] == waiters && list[k..] == [];
    }

    /** rt_event_send. */
    method Send(more: Bits) returns (ok: bool)
      requires Valid() && Inv(State())
      modifies this
      ensures Valid() && State() == EventSpec.Send(old(State()), more)
      ensures ok == (more != 0)
    {
      if more == 0 {
        return false;
      }
      hide Walk, Inv, AllFields;
      WaitingList(State());
      SendIs(State(), more, Walk(Or(bits, more), waiters, pc));
      bits := Or(bits, more);
      WalkWaiters();
      return true;
    }

    /** rt_event_control with RT_IPC_CMD_RESET: everybody on the list fails, and the flags are gone. */
    method ResetSection()
      requires Valid() && Inv(State())
      modifies this
      ensures Valid() && State() == Cleared(old(State()))
    {
      hide Satisfied, Inv, AllFields, Cleared;
      ghost var e := State();
      ghost var list, pc0, k := waiters, pc, 0;
      while waiters != []
        invariant k <= |list| && waiters == list[k..] && Valid()
        invariant pc.Keys == pc0.Keys
        invariant forall t: Thread :: t in pc0 ==> pc[t] == if t in list[..k] then Failed else pc0[t]
        modifies `pc, `waiters
        decreases |waiters|
      {
        FailedFields(pc, eventSet, eventInfo, waiters[0]);
        WaitsInList(e, waiters[0], k);
        assert waiters[0] in list && list[..k + 1] == list[..k] + [waiters[0]];
        pc := pc[waiters[0] := Failed];
        waiters := waiters[1..];
        k := k + 1;
      }
      bits := 0;
      assert list[..k] == list;
      ClearedIs(e, pc);
    }

    /** rt_event_recv up to the call of the scheduler. */
    method RecvSection(t: Thread, w: Want, timeout: int) returns (status: Status, received: Bits)
      requires Valid() && At(pc, t) == Idle
      modifies this
      ensures Valid() && State() == Perform(old(State()), CallRecv(t, w, timeout))
      ensures status == if w.bits == 0 then BadSet else if Satisfied(old(bits), w) then Received
                        else if timeout == 0 then NoEvent else Blocked
      ensures status == Received ==> Receive(old(bits), w).0 == Prelude.Some(received)
      ensures status == Received <==> w.bits != 0 && Fulfilled(old(bits), w)
      ensures status == Received ==> Takes(old(bits), w, received, bits)
      ensures status in {NoEvent, BadSet} ==> State() == old(State())
      ensures status != Blocked ==> waiters == old(waiters)
      ensures status == Blocked ==> timeout != 0 && t in waiters
    {
      SatisfiedIs(bits, w);
      TakesBits(bits, w);
      hide Both, Minus, Satisfied, Suspended, Fulfilled, Takes;
      received := 0;
      if w.bits == 0 {
        return BadSet, received;
      }
      if Satisfied(bits, w) {
        received := Both(bits, w.bits);
        if w.clear {
          bits := Minus(bits, w.bits);
        }
        return Received, received;
      } else if timeout == 0 {
        return NoEvent, received;
      }
      Suspend(t, w, timeout);
      return Blocked, received;
    }

    /** The thread is put on the list, with its condition in its own fields. */
    method Suspend(t: Thread, w: Want, ghost timeout: int)
      requires Valid() && At(pc, t) == Idle
      modifies `waiters, `eventSet, `eventInfo, `pc
      ensures Valid() && t in waiters
      ensures waiters == Suspended(old(waiters), t, flag, prio) && pc == old(pc)[t := Waiting(w, timeout)]
    {
      hide Suspended;
      eventSet, eventInfo := eventSet[t := w.bits], eventInfo[t := Options(w.all, w.any, w.clear)];
      SuspendedHas(waiters, t, flag, prio);
      waiters := Insert(waiters, t, flag, prio);
      pc := pc[t := Waiting(w, timeout)];
    }

    /** The end of rt_event_recv of a thread that was resumed by a send. */
    method ResumedSection(t: Thread) returns (received: Bits)
      requires Valid() && At(pc, t).Granted?
      modifies this
      ensures Valid() && State() == Perform(old(State()), Return(t)) && received == old(pc[t].received)
    {
      received := eventSet[t];
      pc := pc[t := Idle];
    }
  }
}
