/** What the calls on a message queue come to: when they fail, when they wait, whom they resume, and in which order
    waiting receivers are served (ipc.c). */
module MessageQueueLaws {
  import opened Lists
  import opened IpcList
  import opened MessageQueueSpec

  /** A send fails, changing nothing, iff no node is free; otherwise it takes a free one to write to, and nothing is
      posted yet. */
  lemma SendOutcome(q: Queue, t: Thread, bytes: Bytes, urgent: bool)
    requires Inv(q) && At(q, t) == Idle
    ensures var q' := Perform(q, StartSend(t, bytes, urgent));
            if q.free == [] then q' == q
            else
              && At(q', t).Writing? && At(q', t).bytes == bytes && At(q', t).urgent == urgent
              && At(q', t).node in q.free && At(q', t).node !in q'.free
              && q' == q.(free := q'.free, pc := q.pc[t := At(q', t)])
  {
    if q.free != [] {
      DistinctTail(q.free);
    }
    hide Distinct;
  }

  /** Linking posts the message: an urgent one in front of all others, any other behind them. It resumes the first
      receiver on the list, if there is one, with what is left of its call; no other thread is touched. */
  lemma LinkOutcome(q: Queue, t: Thread)
    requires Inv(q) && At(q, t).Filled?
    ensures var q', p := Perform(q, DoLink(t)), At(q, t);
            && q'.posted == q.posted + [Post(p.bytes, p.urgent)] && q'.free == q.free && q'.data == q.data
            && q'.messages == (if p.urgent then [p.bytes] + q.messages else q.messages + [p.bytes])
            && q'.queue == (if p.urgent then [p.node] + q.queue else q.queue + [p.node])
            && At(q', t) == Idle
            && if q.receivers == [] then q'.receivers == [] && q'.pc == q.pc[t := Idle]
               else
                 var r := q.receivers[0];
                 && At(q, r).RecvWait? && q'.receivers == q.receivers[1..]
                 && q'.pc == q.pc[t := Idle][r := RecvWoken(At(q, r).timeout, At(q, r).size)]
  {
    hide Partition, Contents, Logs, Distinct;
    if q.receivers != [] {
      assert q.receivers[0] in q.receivers;
    }
  }

  /** A receive takes the first message, if there is one, and touches no other thread. Otherwise it returns at once when
      no time is left, with nothing changed, and waits on the list when some is. */
  lemma RecvOutcome(q: Queue, t: Thread, timeout: int, size: nat)
    requires Inv(q) && (At(q, t) == Idle || At(q, t).RecvWoken?)
    ensures var q' := Recv(q, t, timeout, size);
            if q.queue != [] then
              && q.messages != [] && q'.pc == q.pc[t := Reading(q.queue[0], size, q.messages[0])]
              && q'.queue == q.queue[1..] && q'.messages == q.messages[1..] && q'.receivers == q.receivers
            else if timeout == 0 then q' == q.(pc := q.pc[t := Idle])
            else
              && q' == q.(receivers := q'.receivers, pc := q.pc[t := RecvWait(timeout, size)])
              && Queued(q.receivers, q'.receivers, t, q.flag, q.prio)
  {
    hide Partition, Logs, Waiting, Distinct, Suspended, Queued;
    QueuedIs(q.receivers, t, q.flag, q.prio);
  }

  /** A reset fails exactly the threads that wait; every queued node is free again, and no message is left. */
  lemma ClearOutcome(q: Queue, t: Thread)
    requires Inv(q)
    ensures var q' := Perform(q, Clear);
            && q'.queue == [] && q'.messages == [] && q'.receivers == []
            && At(q', t) == (if At(q, t).RecvWait? then Failed else At(q, t))
            && forall n :: n in q'.free <==> n in q.free || n in q.queue
  {
    hide Inv, Reversed;
    ReversedHas(q.queue);
  }

  lemma {:induction false} ReversedHas(s: seq<Node>)
    ensures forall n :: n in Reversed(s) <==> n in s
  {
    if s != [] {
      ReversedHas(s[1..]);
      assert s == [s[0]] + s[1..];
    }
  }

  // ---------------------------------------------------------------- nobody waits without time

  /** Whoever waits has time left. */
  ghost predicate Timed(q: Queue) {
    forall t: Thread :: At(q, t).RecvWait? ==> At(q, t).timeout != 0
  }

  lemma TimedKeeps(q: Queue, s: Step)
    requires Timed(q)
    ensures Timed(Perform(q, s))
  {
    hide Suspended, Without, Reversed;
    var q' := Perform(q, s);
    forall t: Thread | At(q', t).RecvWait?
      ensures At(q', t).timeout != 0
    {
      assert At(q, t).RecvWait? ==> At(q, t).timeout != 0;
    }
  }

  /** In no reachable state does a receiver wait whose timeout is 0, or has run down to 0. */
  lemma {:induction false} NobodyWaitsWithoutTime(q: Queue, steps: seq<Step>, q': Queue)
    requires Timed(q) && Reaches(q, steps, q')
    ensures Timed(q')
    decreases |steps|
  {
    if steps != [] {
      hide Timed, Perform, Enabled;
      TimedKeeps(q, steps[0]);
      NobodyWaitsWithoutTime(Perform(q, steps[0]), steps[1..], q');
    }
  }

  // ---------------------------------------------------------------- no overtaking

  /** Receivers that wait on keep their order, and whoever is resumed to look at the queue was the first. */
  lemma ReceiversInOrder(q: Queue, s: Step, a: Thread, b: Thread)
    requires Inv(q) && Enabled(q, s) && InFront(q.receivers, a, b)
    ensures var q' := Perform(q, s);
            && (a in q'.receivers && b in q'.receivers ==> InFront(q'.receivers, a, b))
            && (At(q', b).RecvWoken? ==> At(q, b).RecvWoken?)
  {
    WaitersOf(q, a, b);
    if s.DoLink? {
      LinkOutcome(q, s.t);
      LinkInOrder(q, s.t, a, b);
    } else if s.StartRecv? || s.ContinueRecv? {
      var timeout, size := if s.StartRecv? then s.timeout else s.left, if s.StartRecv? then s.size else At(q, s.t).size;
      RecvOutcome(q, s.t, timeout, size);
      hide Inv, Recv, InFront;
      if q.queue == [] && timeout != 0 {
        var q' := Perform(q, s);
        var i :| 0 <= i <= |q.receivers| && QueuedAt(q.receivers, q'.receivers, s.t, q.flag, q.prio, i);
        InsertedInFront(q.receivers, i, s.t, a, b);
      }
    } else if s.Expire? {
      ExpireInOrder(q, s.t, a, b);
    } else {
      hide Inv, InFront, Reversed;
    }
  }

  lemma WaitersOf(q: Queue, a: Thread, b: Thread)
    requires Inv(q) && InFront(q.receivers, a, b)
    ensures a in q.receivers && b in q.receivers && a != b && At(q, a).RecvWait? && At(q, b).RecvWait?
    ensures Distinct(q.receivers)
  {
    hide Partition, Contents, Logs;
  }

  lemma LinkInOrder(q: Queue, t: Thread, a: Thread, b: Thread)
    requires Inv(q) && At(q, t).Filled? && InFront(q.receivers, a, b) && Distinct(q.receivers)
    ensures var q' := Perform(q, DoLink(t));
            && (a in q'.receivers && b in q'.receivers ==> InFront(q'.receivers, a, b))
            && (At(q', b).RecvWoken? ==> At(q, b).RecvWoken?)
  {
    LinkOutcome(q, t);
    TailInFront(q.receivers, a, b);
    hide Inv, Perform, Distinct, InFront;
  }

  lemma ExpireInOrder(q: Queue, t: Thread, a: Thread, b: Thread)
    requires Inv(q) && At(q, t).RecvWait? && InFront(q.receivers, a, b) && Distinct(q.receivers)
    ensures var q' := Perform(q, Expire(t));
            && (a in q'.receivers && b in q'.receivers ==> InFront(q'.receivers, a, b))
            && (At(q', b).RecvWoken? ==> At(q, b).RecvWoken?)
  {
    assert t in q.receivers;
    hide Inv, Distinct, InFront, Without;
    WithoutInFront<nat>(q.receivers, t, a, b);
  }
}
