/** The mailbox of ipc.c in place: a ring of mails with two offsets and a count, and the two lists of waiting threads. */
module Mailboxes {
  import opened Lists
  import opened IpcList
  import opened MailboxSpec

  /** The mails of the ring, oldest first. */
  function Ring(pool: seq<Mail>, out: nat, entry: nat): seq<Mail>
    requires entry <= |pool| && out <= |pool|
  {
    if out + entry <= |pool| then pool[out..out + entry] else pool[out..] + pool[..out + entry - |pool|]
  }

  /** Storing at the input offset adds the newest mail. */
  lemma RingPush(pool: seq<Mail>, out: nat, entry: nat, mail: Mail)
    requires entry < |pool| && out < |pool|
    ensures var i := if out + entry < |pool| then out + entry else out + entry - |pool|;
            Ring(pool[i := mail], out, entry + 1) == Ring(pool, out, entry) + [mail]
  {
  }

  /** The mail at the output offset is the oldest. */
  lemma RingPop(pool: seq<Mail>, out: nat, entry: nat)
    requires 0 < entry <= |pool| && out < |pool|
    ensures Ring(pool, out, entry) == [pool[out]] + Ring(pool, if out + 1 == |pool| then 0 else out + 1, entry - 1)
  {
    var out' := if out + 1 == |pool| then 0 else out + 1;
    var before, after := Ring(pool, out, entry), Ring(pool, out', entry - 1);
    RingAt(pool, out, entry);
    RingAt(pool, out', entry - 1);
    hide Ring;
    assert forall i :: 0 <= i < |after| ==> after[i] == before[i + 1];
  }

  /** The i-th oldest mail. */
  lemma RingAt(pool: seq<Mail>, out: nat, entry: nat)
    requires entry <= |pool| && out <= |pool|
    ensures var r := Ring(pool, out, entry);
            |r| == entry && forall i :: 0 <= i < |r| ==> r[i] == pool[if out + i < |pool| then out + i else out + i - |pool|]
  {
  }

  /** Return values of the calls: RT_EOK, RT_EFULL or RT_ETIMEOUT at once, or the thread has been suspended. */
  datatype Status = Done | NoRoom | NoMail | Blocked

  class Mailbox {
    const pool: array<Mail>
    const flag: Flag
    var entry: nat
    var inOffset: nat
    var outOffset: nat
    var prio: map<Thread, nat>
    var receivers: seq<Thread>
    var senders: seq<Thread>
    var pc: map<Thread, Pc>
    ghost var sent: seq<Mail>
    ghost var received: seq<Mail>

    ghost predicate Valid()
      reads this, pool
    {
      && entry <= pool.Length
      && (if pool.Length == 0 then inOffset == outOffset == 0 else inOffset < pool.Length && outOffset < pool.Length)
      && inOffset == (if outOffset + entry < pool.Length || pool.Length == 0 then outOffset + entry
                      else outOffset + entry - pool.Length)
    }

    ghost function State(): Box
      reads this, pool
      requires Valid()
    {
      Box(pool.Length, flag, prio, Ring(pool[..], outOffset, entry), receivers, senders, pc, sent, received)
    }

    /** rt_mb_init. */
    constructor (size: nat, flag: Flag, prio: map<Thread, nat>)
      ensures Valid() && State() == Initial(size, flag, prio) && fresh(pool)
    {
      pool := new Mail[size](_ => 0);
      this.flag, this.prio := flag, prio;
      entry, inOffset, outOffset := 0, 0, 0;
      receivers, senders, pc := [], [], map[];
      sent, received := [], [];
    }

    /** rt_ipc_list_resume on the list of receivers. */
    method ResumeReceiver()
      requires Valid() && receivers != []
      modifies this
      ensures Valid() && State() == WakeReceiver(old(State()))
    {
      var t := receivers[0];
      pc := pc[t := RecvWoken(if t in pc && pc[t].RecvWait? then pc[t].timeout else 0)];
      receivers := receivers[1..];
    }

    method ResumeSender()
      requires Valid() && senders != []
      modifies this
      ensures Valid() && State() == WakeSender(old(State()))
    {
      var t := senders[0];
      pc := pc[t := if t in pc && pc[t].SendWait? then SendWoken(pc[t].mail, pc[t].timeout) else Idle];
      senders := senders[1..];
    }

    /** rt_mb_send_wait from one point where interrupts are disabled to the next where they are enabled. */
    method SendSection(t: Thread, mail: Mail, timeout: int) returns (status: Status)
      requires Valid()
      modifies this, pool
      ensures Valid() && State() == Send(old(State()), t, mail, timeout)
      ensures status == if old(entry) < pool.Length then Done else if timeout == 0 then NoRoom else Blocked
      ensures status == NoRoom ==> State() == old(State()).(pc := old(pc)[t := Idle])
      ensures status == Blocked ==> timeout != 0 && At(State(), t) == SendWait(mail, timeout)
    {
      if entry == pool.Length {
        status := WaitForRoom(t, mail, timeout);
        return status;
      }
      hide Ring, WakeReceiver;
      RingPush(pool[..], outOffset, entry, mail);
      pool[inOffset] := mail;
      inOffset := inOffset + 1;
      if inOffset >= pool.Length {
        inOffset := 0;
      }
      entry := entry + 1;
      pc := pc[t := Idle];
      sent := sent + [mail];
      ghost var b0 := old(State());
      ghost var b := b0.(queue := b0.queue + [mail], sent := b0.sent + [mail], pc := b0.pc[t := Idle]);
      assert State() == b;
      if receivers != [] {
        ResumeReceiver();
      } else {
        NobodyToWake(b);
      }
      assert State() == WakeReceiver(b);
      return Done;
    }

    /** The body of the waiting loop of rt_mb_send_wait, up to the call of the scheduler. */
    method WaitForRoom(t: Thread, mail: Mail, timeout: int) returns (status: Status)
      requires Valid() && entry == pool.Length
      modifies `senders, `pc
      ensures Valid() && State() == Send(old(State()), t, mail, timeout)
      ensures status == if timeout == 0 then NoRoom else Blocked
      ensures pc == old(pc)[t := if timeout == 0 then Idle else SendWait(mail, timeout)]
      ensures timeout == 0 ==> senders == old(senders)
    {
      hide Suspended;
      if timeout == 0 {
        pc := pc[t := Idle];
        return NoRoom;
      }
      senders := Insert(senders, t, flag, prio);
      pc := pc[t := SendWait(mail, timeout)];
      return Blocked;
    }

    /** rt_mb_recv between the same points; `mail` is the result when the status is Done. */
    method RecvSection(t: Thread, timeout: int) returns (status: Status, mail: Mail)
      requires Valid()
      modifies this
      ensures Valid() && State() == Recv(old(State()), t, timeout)
      ensures status == if old(entry) > 0 then Done else if timeout == 0 then NoMail else Blocked
      ensures status == Done ==> old(State()).queue != [] && mail == old(State()).queue[0]
      ensures status == NoMail ==> State() == old(State()).(pc := old(pc)[t := Idle])
      ensures status == Blocked ==> timeout != 0 && At(State(), t) == RecvWait(timeout)
    {
      hide Ring, WakeSender, Suspended;
      mail := 0;
      if entry == 0 {
        status := WaitForMail(t, timeout);
        return status, mail;
      }
      ghost var b := State();
      mail := Fetch();
      pc := pc[t := Idle];
      received := received + [mail];
      b := b.(queue := b.queue[1..], received := b.received + [b.queue[0]], pc := b.pc[t := Idle]);
      assert State() == b;
      if senders != [] {
        ResumeSender();
      } else {
        NobodyToWake(b);
      }
      return Done, mail;
    }

    /** The body of the waiting loop of rt_mb_recv, up to the call of the scheduler. */
    method WaitForMail(t: Thread, timeout: int) returns (status: Status)
      requires Valid() && entry == 0
      modifies `receivers, `pc
      ensures Valid() && State() == Recv(old(State()), t, timeout)
      ensures status == if timeout == 0 then NoMail else Blocked
      ensures pc == old(pc)[t := if timeout == 0 then Idle else RecvWait(timeout)]
      ensures timeout == 0 ==> receivers == old(receivers)
    {
      hide Suspended;
      if timeout == 0 {
        pc := pc[t := Idle];
        return NoMail;
      }
      receivers := Insert(receivers, t, flag, prio);
      pc := pc[t := RecvWait(timeout)];
      return Blocked;
    }

    /** Move the output offset past the oldest mail. */
    method Fetch() returns (mail: Mail)
      requires Valid() && entry > 0
      modifies `outOffset, `entry
      ensures Valid() && [mail] + State().queue == old(State()).queue
    {
      hide Ring;
      RingPop(pool[..], outOffset, entry);
      mail := pool[outOffset];
      outOffset := outOffset + 1;
      if outOffset >= pool.Length {
        outOffset := 0;
      }
      entry := entry - 1;
    }

    /** The thread runs again after it has been resumed: it works out what is left of its timeout and looks again. */
    method ContinueSection(t: Thread, delta: nat) returns (status: Status, mail: Mail)
      requires Valid() && Enabled(State(), Continue(t, delta))
      modifies this, pool
      ensures Valid() && State() == Perform(old(State()), Continue(t, delta))
      ensures status == Blocked ==> At(State(), t).SendWait? || At(State(), t).RecvWait?
      ensures status == Done && old(At(State(), t)).RecvWoken? ==> old(State()).queue != [] && mail == old(State()).queue[0]
    {
      mail := 0;
      match pc[t]
      case SendWoken(m, timeout) => status := SendSection(t, m, Remaining(timeout, delta));
      case RecvWoken(timeout) => status, mail := RecvSection(t, Remaining(timeout, delta));
    }

    /** rt_ipc_list_resume_all on the list of receivers. */
    method FailReceivers()
      requires Valid() && ListsOk(State())
      modifies `receivers, `pc
      ensures Valid() && receivers == [] && Failing(old(pc), pc, old(receivers))
    {
      hide Distinct, Ordered, Ring;
      ghost var b, k := State(), 0;
      while receivers != []
        invariant k <= |b.receivers| && receivers == b.receivers[k..]
        invariant Failing(b.pc, pc, b.receivers[..k])
        decreases |receivers|
      {
        assert At(b, receivers[0]).RecvWait? by { assert receivers[0] in b.receivers; }
        assert b.receivers[..k + 1] == b.receivers[..k] + [receivers[0]];
        pc := pc[receivers[0] := Failed(Reset)];
        receivers := receivers[1..];
        k := k + 1;
      }
      assert b.receivers[..k] == b.receivers;
    }

    /** rt_ipc_list_resume_all on the list of senders. */
    method FailSenders()
      requires Valid() && forall t :: t in senders ==> t in pc
      modifies `senders, `pc
      ensures Valid() && senders == [] && Failing(old(pc), pc, old(senders))
    {
      ghost var pc0, list, k := pc, senders, 0;
      while senders != []
        invariant k <= |list| && senders == list[k..]
        invariant Failing(pc0, pc, list[..k])
        decreases |senders|
      {
        assert senders[0] in list;
        assert list[..k + 1] == list[..k] + [senders[0]];
        pc := pc[senders[0] := Failed(Reset)];
        senders := senders[1..];
        k := k + 1;
      }
      assert list[..k] == list;
    }

    /** rt_mb_control with RT_IPC_CMD_RESET. */
    method ResetSection()
      requires Valid() && ListsOk(State())
      modifies this
      ensures Valid() && State() == Cleared(old(State()))
    {
      hide ListsOk, Ring, Cleared;
      ghost var b := State();
      SendersWait(b);
      FailReceivers();
      ghost var pc1 := pc;
      FailSenders();
      entry, inOffset, outOffset := 0, 0, 0;
      sent, received := [], [];
      RingEmpty(pool[..]);
      FailedAll(b, pc1, pc);
      ClearedIs(b, pc);
    }
  }

  lemma SendersWait(b: Box)
    requires ListsOk(b)
    ensures forall t :: t in b.senders ==> t in b.pc
  {
    hide Distinct, Ordered;
    assert forall t :: t in b.senders ==> At(b, t).SendWait?;
  }

  lemma ClearedIs(b: Box, pc: map<Thread, Pc>)
    requires pc == Cleared(b).pc
    ensures Cleared(b) == b.(queue := [], receivers := [], senders := [], sent := [], received := [], pc := pc)
  {
  }

  lemma RingEmpty(pool: seq<Mail>)
    ensures Ring(pool, 0, 0) == []
  {
  }

  lemma FailedAll(b: Box, pc1: map<Thread, Pc>, pc2: map<Thread, Pc>)
    requires ListsOk(b) && Failing(b.pc, pc1, b.receivers) && Failing(pc1, pc2, b.senders)
    ensures pc2 == Cleared(b).pc
  {
    hide Distinct, Ordered;
    forall t | t in b.pc
      ensures pc2[t] == Cleared(b).pc[t]
    {
      assert At(b, t) == b.pc[t];
    }
  }

  lemma NobodyToWake(b: Box)
    ensures b.receivers == [] ==> WakeReceiver(b) == b
    ensures b.senders == [] ==> WakeSender(b) == b
  {
  }

  /** The threads of `done` have failed with the reset error; the others are where they were. */
  ghost predicate Failing(before: map<Thread, Pc>, after: map<Thread, Pc>, done: seq<Thread>) {
    after.Keys == before.Keys
    && forall t :: t in before ==> after[t] == if t in done then Failed(Reset) else before[t]
  }
}
