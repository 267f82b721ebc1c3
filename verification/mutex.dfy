/** The mutex of ipc.c in place. */
module Mutexes {
  import opened Prelude
  import opened Lists
  import opened IpcList
  import opened MutexSpec

  datatype Status = Taken | TimedOut | Blocked

  class MutexObject {
    const flag: Flag
    var value: nat
    var owner: Option<Thread>
    var hold: nat
    var originalPriority: nat
    var waiters: seq<Thread>
    var current: map<Thread, nat>
    ghost const base: map<Thread, nat>
    ghost var pc: map<Thread, Pc>
    ghost var taken: map<Thread, int>
    ghost var asked: seq<nat>

    ghost function State(): Mutex
      reads this
    {
      Mutex(value, owner, hold, originalPriority, flag, waiters, current, base, pc, taken, asked)
    }

    /** rt_mutex_init. */
    constructor (flag: Flag, base: map<Thread, nat>)
      ensures State() == Initial(flag, base)
    {
      this.flag, this.base, current := flag, base, base;
      value, owner, originalPriority, hold := 1, None, 0xff, 0;
      waiters, pc, taken, asked := [], map[], map[], [];
    }

    /** rt_mutex_take up to the call of the scheduler. */
    method TakeSection(t: Thread, time: int) returns (status: Status)
      requires value == 0 ==> owner.Some?
      modifies this
      ensures State() == Take(old(State()), t, time)
      ensures status == if old(owner) == Some(t) || old(value) > 0 then Status.Taken
                        else if time == 0 then TimedOut else Blocked
      ensures status == TimedOut ==> State() == old(State())
      ensures status != Blocked ==> waiters == old(waiters) && pc == old(pc)
      ensures status == Blocked ==> time != 0 && t in waiters
      ensures status == Status.Taken <==> owner == Some(t) && MutexSpec.Taken(State(), t) == old(MutexSpec.Taken(State(), t)) + 1
    {
      if owner == Some(t) {
        hold := Inc(hold);
      } else if value > 0 {
        value := value - 1;
        owner, originalPriority := Some(t), Priority(current, t);
        hold := Inc(hold);
        asked := [];
      } else if time == 0 {
        return TimedOut;
      } else {
        asked := asked + [Priority(current, t)];
        if Priority(current, t) < Priority(current, owner.value) {
          current := current[owner.value := Priority(current, t)];
        }
        SuspendedHas(waiters, t, flag, current);
        waiters := Insert(waiters, t, flag, current);
        pc := pc[t := Waiting(time)];
        return Blocked;
      }
      taken := taken[t := MutexSpec.Taken(old(State()), t) + 1];
      return Status.Taken;
    }

    /** rt_mutex_release; `reschedule` says that a thread has been resumed. */
    method ReleaseSection(t: Thread) returns (ok: bool, reschedule: bool)
      modifies this
      ensures State() == Release(old(State()), t)
      ensures ok == (old(owner) == Some(t))
      ensures reschedule == (ok && Dec(old(hold)) == 0 && old(waiters) != [])
    {
      reschedule := false;
      if owner != Some(t) {
        return false, false;
      }
      taken := taken[t := MutexSpec.Taken(State(), t) - 1];
      hold := Dec(hold);
      if hold == 0 {
        hide HandOver, Restored;
        reschedule := waiters != [];
        HandOverSection(t);
      }
      return true, reschedule;
    }

    /** The last release: the owner's priority is put back, and the first waiting thread becomes the owner. */
    method HandOverSection(t: Thread)
      modifies this
      ensures State() == HandOver(old(State()), Restored(old(State()), t))
    {
      if originalPriority != Priority(current, t) {
        current := current[t := originalPriority];
      }
      if waiters != [] {
        var w := waiters[0];
        owner, originalPriority := Some(w), Priority(current, w);
        hold := Inc(hold);
        waiters := waiters[1..];
        pc := pc[w := Granted];
      } else {
        value := value + 1;
        owner, originalPriority := None, 0xff;
      }
      asked := [];
    }
  }
}
