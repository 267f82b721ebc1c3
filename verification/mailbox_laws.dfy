/** What the calls on a mailbox come to: when they fail, when they wait, whom they resume, and in which order waiting
    senders and receivers are served (ipc.c). */
module MailboxLaws {
  import opened Lists
  import opened IpcList
  import opened MailboxSpec

  /** A section of a send. With room the mail is the last one, the call is over, and the first receiver on the list is
      resumed with its time, nobody else being touched. Without room it returns at once when no time is left, with
      nothing changed, and waits on the list of senders, with its mail, when some is. */
  lemma SendOutcome(b: Box, t: Thread, mail: Mail, timeout: int)
    requires Inv(b) && (At(b, t).Idle? || At(b, t).SendWoken?)
    ensures var b' := Send(b, t, mail, timeout);
            if |b.queue| < b.size then
              && b'.queue == b.queue + [mail] && b'.sent == b.sent + [mail] && b'.senders == b.senders
              && if b.receivers == [] then b'.receivers == [] && b'.pc == b.pc[t := Idle]
                 else
                   var r := b.receivers[0];
                   && At(b, r).RecvWait? && b'.receivers == b.receivers[1..]
                   && b'.pc == b.pc[t := Idle][r := RecvWoken(At(b, r).timeout)]
            else if timeout == 0 then b' == b.(pc := b.pc[t := Idle])
            else
              && b' == b.(senders := b'.senders, pc := b.pc[t := SendWait(mail, timeout)])
              && Queued(b.senders, b'.senders, t, b.flag, b.prio)
  {
    hide Distinct, Ordered, Suspended, Queued, WokenReceivers, WokenSenders;
    QueuedIs(b.senders, t, b.flag, b.prio);
    if b.receivers != [] {
      assert b.receivers[0] in b.receivers;
    }
  }

  /** A section of a receive, the same way: it fetches the oldest mail and resumes the first sender, or waits. */
  lemma RecvOutcome(b: Box, t: Thread, timeout: int)
    requires Inv(b) && (At(b, t).Idle? || At(b, t).RecvWoken?)
    ensures var b' := Recv(b, t, timeout);
            if b.queue != [] then
              && b'.queue == b.queue[1..] && b'.received == b.received + [b.queue[0]] && b'.receivers == b.receivers
              && if b.senders == [] then b'.senders == [] && b'.pc == b.pc[t := Idle]
                 else
                   var r := b.senders[0];
                   && At(b, r).SendWait? && b'.senders == b.senders[1..]
                   && b'.pc == b.pc[t := Idle][r := SendWoken(At(b, r).mail, At(b, r).timeout)]
            else if timeout == 0 then b' == b.(pc := b.pc[t := Idle])
            else
              && b' == b.(receivers := b'.receivers, pc := b.pc[t := RecvWait(timeout)])
              && Queued(b.receivers, b'.receivers, t, b.flag, b.prio)
  {
    hide Distinct, Ordered, Suspended, Queued, WokenReceivers, WokenSenders;
    QueuedIs(b.receivers, t, b.flag, b.prio);
    if b.senders != [] {
      assert b.senders[0] in b.senders;
    }
  }

  /** A reset fails exactly the threads that wait, and empties the mailbox. */
  lemma ClearOutcome(b: Box, t: Thread)
    ensures var b' := Cleared(b);
            && b'.queue == [] && b'.receivers == [] && b'.senders == []
            && At(b', t) == if At(b, t).RecvWait? || At(b, t).SendWait? then Failed(Reset) else At(b, t)
  {
  }

  // ---------------------------------------------------------------- no overtaking

  /** The order of two threads in front of each other on a list after a step: as before if both still wait. */
  ghost predicate Kept(list: seq<Thread>, list': seq<Thread>, a: Thread, b: Thread) {
    InFront(list, a, b) && a in list' && b in list' ==> InFront(list', a, b)
  }

  /** Senders and receivers that wait on keep their order, and whoever is resumed was the first of its list. */
  lemma WaitersInOrder(b: Box, s: Step, x: Thread, y: Thread)
    requires Inv(b) && Enabled(b, s)
    ensures var b' := Perform(b, s);
            && Kept(b.receivers, b'.receivers, x, y) && Kept(b.senders, b'.senders, x, y)
            && (InFront(b.receivers, x, y) ==> !At(b', y).RecvWoken?)
            && (InFront(b.senders, x, y) ==> !At(b', y).SendWoken?)
  {
    WaitersOf(b, x, y);
    match s
    case CallSend(t, mail, timeout) => SendInOrder(b, t, mail, timeout, x, y);
    case CallRecv(t, timeout) => RecvInOrder(b, t, timeout, x, y);
    case Continue(t, delta) =>
      if At(b, t).SendWoken? {
        SendInOrder(b, t, At(b, t).mail, Remaining(At(b, t).timeout, delta), x, y);
      } else {
        RecvInOrder(b, t, Remaining(At(b, t).timeout, delta), x, y);
      }
    case Expire(t) => ExpireInOrder(b, t, x, y);
    case Return(t) => hide Inv, InFront;
    case Clear => hide Inv, InFront;
  }

  lemma WaitersOf(b: Box, x: Thread, y: Thread)
    requires Inv(b)
    ensures InFront(b.receivers, x, y) ==> At(b, x).RecvWait? && At(b, y).RecvWait?
    ensures InFront(b.senders, x, y) ==> At(b, x).SendWait? && At(b, y).SendWait?
    ensures Distinct(b.receivers) && Distinct(b.senders)
  {
    hide Ordered, NoLostWakeup, Distinct;
  }

  lemma QueuedInFront(list: seq<Thread>, list': seq<Thread>, t: Thread, flag: Flag, prio: map<Thread, nat>, x: Thread, y: Thread)
    requires Queued(list, list', t, flag, prio)
    ensures Kept(list, list', x, y)
  {
    hide Ordered, InFront;
    var i :| 0 <= i <= |list| && QueuedAt(list, list', t, flag, prio, i);
    if InFront(list, x, y) {
      InsertedInFront(list, i, t, x, y);
    }
  }

  lemma SendInOrder(b: Box, t: Thread, mail: Mail, timeout: int, x: Thread, y: Thread)
    requires Inv(b) && (At(b, t).Idle? || At(b, t).SendWoken?)
    ensures var b' := Send(b, t, mail, timeout);
            && Kept(b.receivers, b'.receivers, x, y) && Kept(b.senders, b'.senders, x, y)
            && (InFront(b.receivers, x, y) ==> !At(b', y).RecvWoken?)
            && (InFront(b.senders, x, y) ==> !At(b', y).SendWoken?)
  {
    SendOutcome(b, t, mail, timeout);
    WaitersOf(b, x, y);
    var b' := Send(b, t, mail, timeout);
    hide Inv, Send, Queued, InFront, Distinct;
    if |b.queue| >= b.size {
      if timeout != 0 {
        QueuedInFront(b.senders, b'.senders, t, b.flag, b.prio, x, y);
      }
    } else if InFront(b.receivers, x, y) {
      TailInFront(b.receivers, x, y);
    }
  }

  lemma RecvInOrder(b: Box, t: Thread, timeout: int, x: Thread, y: Thread)
    requires Inv(b) && (At(b, t).Idle? || At(b, t).RecvWoken?)
    ensures var b' := Recv(b, t, timeout);
            && Kept(b.receivers, b'.receivers, x, y) && Kept(b.senders, b'.senders, x, y)
            && (InFront(b.receivers, x, y) ==> !At(b', y).RecvWoken?)
            && (InFront(b.senders, x, y) ==> !At(b', y).SendWoken?)
  {
    RecvOutcome(b, t, timeout);
    WaitersOf(b, x, y);
    var b' := Recv(b, t, timeout);
    hide Inv, Recv, Queued, InFront, Distinct;
    if b.queue == [] {
      if timeout != 0 {
        QueuedInFront(b.receivers, b'.receivers, t, b.flag, b.prio, x, y);
      }
    } else if InFront(b.senders, x, y) {
      TailInFront(b.senders, x, y);
    }
  }

  lemma ExpireInOrder(b: Box, t: Thread, x: Thread, y: Thread)
    requires Inv(b) && (At(b, t).SendWait? || At(b, t).RecvWait?)
    ensures var b' := Expired(b, t);
            && Kept(b.receivers, b'.receivers, x, y) && Kept(b.senders, b'.senders, x, y)
            && (InFront(b.receivers, x, y) ==> !At(b', y).RecvWoken?)
            && (InFront(b.senders, x, y) ==> !At(b', y).SendWoken?)
  {
    WaitersOf(b, x, y);
    assert At(b, t).RecvWait? <==> t in b.receivers;
    assert At(b, t).SendWait? <==> t in b.senders;
    hide Inv, InFront, Distinct, Without;
    if At(b, t).RecvWait? && InFront(b.receivers, x, y) {
      WithoutInFront<nat>(b.receivers, t, x, y);
    } else if At(b, t).SendWait? && InFront(b.senders, x, y) {
      WithoutInFront<nat>(b.senders, t, x, y);
    }
  }
}
