/** The message queue of ipc.c in place: nodes linked by a next index, with -1 for the null pointer. */
module MessageQueues {
  import opened Lists
  import opened IpcList
  import opened MessageQueueSpec

  /** Following `next` from p visits exactly these nodes and ends in the null pointer. */
  ghost predicate Linked(next: seq<int>, p: int, nodes: seq<Node>)
    decreases |nodes|
  {
    if nodes == [] then p == -1
    else p == nodes[0] && nodes[0] < |next| && Linked(next, next[nodes[0]], nodes[1..])
  }

  ghost function Last(nodes: seq<Node>): int { if nodes == [] then -1 else nodes[|nodes| - 1] }

  /** A list does not depend on the links of other nodes. */
  lemma {:induction false} LinkedElsewhere(next: seq<int>, next': seq<int>, p: int, nodes: seq<Node>)
    requires Linked(next, p, nodes) && |next'| == |next|
    requires forall n :: n in nodes && n < |next| ==> next'[n] == next[n]
    ensures Linked(next', p, nodes)
    decreases |nodes|
  {
    if nodes != [] {
      assert nodes[0] in nodes;
      assert forall n :: n in nodes[1..] ==> n in nodes;
      LinkedElsewhere(next, next', next[nodes[0]], nodes[1..]);
    }
  }

  /** Writing the link of the last node extends the list. */
  lemma {:induction false} LinkedBehind(next: seq<int>, p: int, nodes: seq<Node>, n: Node)
    requires Linked(next, p, nodes) && nodes != [] && n < |next| && next[n] == -1 && n !in nodes
    requires Distinct(nodes)
    ensures 0 <= Last(nodes) < |next| && Linked(next[Last(nodes) := n], p, nodes + [n])
    decreases |nodes|
  {
    var first, rest := nodes[0], nodes[1..];
    assert nodes == [first] + rest;
    assert (nodes + [n])[1..] == rest + [n];
    if rest == [] {
      assert Linked(next[first := n], n, [n]);
    } else {
      LinkedBehind(next, next[first], rest, n);
      assert Last(nodes) == Last(rest) && Last(nodes) != first;
    }
  }

  /** The next node of the first one is the second. */
  lemma LinkedTail(next: seq<int>, p: int, nodes: seq<Node>)
    requires Linked(next, p, nodes)
    ensures (p == -1) == (nodes == [])
    ensures p != -1 ==> 0 <= p < |next| && p == nodes[0] && Linked(next, next[p], nodes[1..])
  {
  }

  /** A node that will be linked behind the others has a null link already. */
  ghost predicate Ended(next: seq<int>, pc: map<Thread, Pc>) {
    forall t :: t in pc && pc[t].Filled? && !pc[t].urgent ==> pc[t].node < |next| && next[pc[t].node] == -1
  }

  ghost predicate Shape(next: seq<int>, size: nat, head: int, tail: int, free: int, queued: seq<Node>,
                        unused: seq<Node>, pc: map<Thread, Pc>) {
    && |next| == size && tail == Last(queued)
    && Linked(next, head, queued) && Linked(next, free, unused)
    && Ended(next, pc)
  }

  lemma IdleKeepsShape(next: seq<int>, size: nat, head: int, tail: int, free: int, queued: seq<Node>,
                       unused: seq<Node>, pc: map<Thread, Pc>, t: Thread)
    requires Shape(next, size, head, tail, free, queued, unused, pc)
    ensures Shape(next, size, head, tail, free, queued, unused, pc[t := Idle])
    ensures t in pc && pc[t].Filled? && !pc[t].urgent ==> pc[t].node < |next| && next[pc[t].node] == -1
  {
  }

  lemma LengthOfNext(next: seq<int>, size: nat, head: int, tail: int, free: int, queued: seq<Node>,
                     unused: seq<Node>, pc: map<Thread, Pc>)
    requires Shape(next, size, head, tail, free, queued, unused, pc)
    ensures |next| == size
  {
  }

  /** Nobody uses the link of n. */
  ghost predicate Alone(queue: seq<Node>, free: seq<Node>, pc: map<Thread, Pc>, n: Node) {
    n !in queue && n !in free && forall t :: t in pc && pc[t].Filled? ==> pc[t].node != n
  }

  /** The queue is apart from the free list and from the nodes that threads hold. */
  ghost predicate Apart(queue: seq<Node>, free: seq<Node>, pc: map<Thread, Pc>) {
    && Distinct(queue)
    && (forall n :: n in queue ==> n !in free && forall t :: t in pc && pc[t].Filled? ==> pc[t].node != n)
  }

  /** A thread that holds a node is the only one, and the node is in no list. */
  lemma OneHolder(q: Queue, t: Thread)
    requires Partition(q) && Holds(At(q, t))
    ensures var n := At(q, t).node;
            n < |q.data| && n !in q.queue && n !in q.free
            && forall u :: u in q.pc && u != t && Holds(q.pc[u]) ==> q.pc[u].node != n
  {
  }

  /** The node of t may be linked when t gives it up. */
  ghost predicate Ready(q: Queue, t: Thread) {
    && Holds(At(q, t)) && At(q, t).node < |q.data|
    && Alone(q.queue, q.free, q.pc[t := Idle], At(q, t).node) && Apart(q.queue, q.free, q.pc[t := Idle])
  }

  lemma Apartness(q: Queue, t: Thread)
    requires Inv(q) && Holds(At(q, t))
    ensures Ready(q, t)
  {
  }

  /** Nobody else uses the node that t is writing to. */
  lemma WriterIs(q: Queue, t: Thread)
    requires Inv(q) && At(q, t).Writing?
    ensures var Writing(n, bytes, _) := At(q, t);
            n < |q.data| && |q.data[n]| == q.msgSize && |bytes| <= q.msgSize && Alone(q.queue, q.free, q.pc[t := Idle], n)
  {
  }

  lemma FilledShape(next: seq<int>, size: nat, head: int, tail: int, free: int, queued: seq<Node>,
                    unused: seq<Node>, pc: map<Thread, Pc>, t: Thread, p: Pc)
    requires Shape(next, size, head, tail, free, queued, unused, pc)
    requires p.Filled? && p.node < |next| && Alone(queued, unused, pc[t := Idle], p.node)
    ensures Shape(if p.urgent then next else next[p.node := -1], size, head, tail, free, queued, unused, pc[t := p])
  {
    hide Linked;
    var next' := if p.urgent then next else next[p.node := -1];
    LinkedElsewhere(next, next', head, queued);
    LinkedElsewhere(next, next', free, unused);
    forall u | u in pc && u != t && pc[u].Filled?
      ensures pc[u].node != p.node
    {
      assert u in pc[t := Idle] && pc[t := Idle][u] == pc[u];
    }
  }

  lemma NextNode(next: seq<int>, free: int, n: nat)
    requires Linked(next, free, Descending(n)) && n < |next|
    ensures Linked(next[n := free], n, Descending(n + 1)) && Descending(n + 1) == [n] + Descending(n)
  {
    DescendingIs(n);
    LinkedElsewhere(next, next[n := free], free, Descending(n));
  }

  /** How a section of rt_mq_recv ends: with a message to copy, with RT_ETIMEOUT, or suspended. */
  datatype Status = Unlinked | NoMessage | Blocked

  class MessageQueue {
    const msgSize: nat
    const flag: Flag
    const next: array<int>
    const data: array<Bytes>
    var head: int
    var tail: int
    var free: int
    var entry: nat
    var prio: map<Thread, nat>
    var receivers: seq<Thread>
    ghost var pc: map<Thread, Pc>
    ghost var queued: seq<Node>
    ghost var unused: seq<Node>
    ghost var messages: seq<Bytes>
    ghost var serials: seq<nat>
    ghost var posted: seq<Post>
    ghost var delivered: seq<nat>

    /** The lists are as the ghost fields say, entry is the length of the queue, tail its last node or null, and a node
        that is going to be the last one has a null link already. */
    ghost predicate Valid()
      reads this, next
    {
      Lists() && entry == |queued|
    }

    ghost predicate Lists()
      reads this, next
    {
      Shape(next[..], data.Length, head, tail, free, queued, unused, pc)
    }

    ghost function State(): Queue
      reads this, data
    {
      Queue(msgSize, flag, prio, unused, queued, messages, data[..], receivers, pc, serials, posted, delivered)
    }

    /** rt_mq_init. */
    constructor (msgSize: nat, flag: Flag, prio: map<Thread, nat>, data: array<Bytes>)
      ensures Valid() && this.data == data && State() == Initial(msgSize, flag, prio, data[..]) && fresh(next)
    {
      this.msgSize, this.flag, this.prio, this.data := msgSize, flag, prio, data;
      next := new int[data.Length];
      head, tail, free, entry := -1, -1, -1, 0;
      receivers, pc := [], map[];
      queued, unused, messages, serials, posted, delivered := [], [], [], [], [], [];
      new;
      var n := 0;
      hide Descending;
      DescendingIs(0);
      while n < data.Length
        invariant n <= data.Length && unused == Descending(n) && Linked(next[..], free, unused)
        modifies `free, `unused, next
      {
        NextNode(next[..], free, n);
        ghost var was := next[..];
        next[n] := free;
        assert next[..] == was[n := free];
        free := n;
        unused := [n] + unused;
        n := n + 1;
      }
    }

    /** The first section of rt_mq_send and rt_mq_urgent. */
    method TakeFreeSection(t: Thread, bytes: Bytes, urgent: bool) returns (node: int)
      requires Valid() && Inv(State()) && Enabled(State(), StartSend(t, bytes, urgent))
      modifies this
      ensures Valid() && State() == TakeFree(old(State()), t, bytes, urgent)
      ensures node == if old(unused) == [] then -1 else old(unused[0])
    {
      hide Inv;
      LinkedTail(next[..], free, unused);
      if free == -1 {
        return -1;
      }
      node := free;
      pc := pc[t := Writing(free, bytes, urgent)];
      free := next[free];
      unused := unused[1..];
    }

    /** The write of the link and of the message, while interrupts are enabled: the node belongs to t alone. */
    method FillSection(t: Thread, n: Node, bytes: Bytes, urgent: bool)
      requires Valid() && Inv(State()) && At(State(), t) == Writing(n, bytes, urgent)
      modifies this, next, data
      ensures Valid() && State() == Fill(old(State()), t)
    {
      hide Inv, Shape, Alone;
      WriterIs(State(), t);
      LengthOfNext(next[..], data.Length, head, tail, free, queued, unused, pc);
      ghost var was := next[..];
      if !urgent {
        next[n] := -1;
      }
      assert next[..] == if urgent then was else was[n := -1];
      FilledShape(was, data.Length, head, tail, free, queued, unused, pc, t, Filled(n, bytes, urgent));
      data[n] := Overwritten(data[n], bytes);
      pc := pc[t := Filled(n, bytes, urgent)];
    }

    /** rt_ipc_list_resume, when there is somebody to resume. */
    method ResumeReceiver()
      requires Valid()
      modifies `receivers, `pc
      ensures Valid() && State() == WakeReceiver(old(State()))
    {
      if receivers != [] {
        var t := receivers[0];
        pc := pc[t := if t in pc && pc[t].RecvWait? then RecvWoken(pc[t].timeout, pc[t].size) else Idle];
        receivers := receivers[1..];
      }
    }

    method Append(n: Node)
      requires Lists() && Apart(queued, unused, pc) && Alone(queued, unused, pc, n) && n < next.Length && next[n] == -1
      modifies `head, `tail, `queued, next
      ensures Lists() && queued == old(queued) + [n]
    {
      ghost var was := next[..];
      LinkedTail(was, head, queued);
      if tail != -1 {
        LinkedBehind(was, head, queued, n);
        assert tail in queued;
        next[tail] := n;
        assert next[..] == was[tail := n];
      }
      LinkedElsewhere(was, next[..], free, unused);
      tail := n;
      if head == -1 {
        head := n;
      }
      queued := queued + [n];
    }

    method Push(n: Node)
      requires Lists() && Alone(queued, unused, pc, n) && n < next.Length
      modifies `head, `tail, `queued, next
      ensures Lists() && queued == [n] + old(queued)
    {
      ghost var was := next[..];
      LinkedTail(was, head, queued);
      next[n] := head;
      LinkedElsewhere(was, next[..], head, queued);
      LinkedElsewhere(was, next[..], free, unused);
      head := n;
      if tail == -1 {
        tail := n;
      }
      queued := [n] + queued;
      assert queued[1..] == old(queued);
    }

    /** The logs of a message that is linked. */
    ghost method LogPost(bytes: Bytes, urgent: bool)
      modifies `messages, `serials, `posted
      ensures messages == if urgent then [bytes] + old(messages) else old(messages) + [bytes]
      ensures serials == if urgent then [|old(posted)|] + old(serials) else old(serials) + [|old(posted)|]
      ensures posted == old(posted) + [Post(bytes, urgent)]
    {
      messages := if urgent then [bytes] + messages else messages + [bytes];
      serials := if urgent then [|posted|] + serials else serials + [|posted|];
      posted := posted + [Post(bytes, urgent)];
    }

    method LinkBehind(t: Thread, n: Node)
      requires Valid() && Ready(State(), t) && t in pc && pc[t].Filled? && !pc[t].urgent && n == pc[t].node
      modifies this, next
      ensures Valid() && State() == Linking(old(State()), t)
    {
      hide Alone, Apart, Shape, Linking;
      ghost var bytes := pc[t].bytes;
      LinkingIs(State(), t);
      IdleKeepsShape(next[..], data.Length, head, tail, free, queued, unused, pc, t);
      pc := pc[t := Idle];
      Append(n);
      entry := entry + 1;
      LogPost(bytes, false);
    }

    method LinkInFront(t: Thread, n: Node)
      requires Valid() && Ready(State(), t) && t in pc && pc[t].Filled? && pc[t].urgent && n == pc[t].node
      modifies this, next
      ensures Valid() && State() == Linking(old(State()), t)
    {
      hide Alone, Apart, Shape, Linking;
      ghost var bytes := pc[t].bytes;
      LinkingIs(State(), t);
      LengthOfNext(next[..], data.Length, head, tail, free, queued, unused, pc);
      IdleKeepsShape(next[..], data.Length, head, tail, free, queued, unused, pc, t);
      pc := pc[t := Idle];
      entry := entry + 1;
      LogPost(bytes, true);
      Push(n);
    }

    /** The last section of rt_mq_send and of rt_mq_urgent. */
    method LinkSection(t: Thread, n: Node, urgent: bool)
      requires Valid() && Inv(State()) && At(State(), t).Filled?
      requires n == At(State(), t).node && urgent == At(State(), t).urgent
      modifies this, next
      ensures Valid() && State() == Link(old(State()), t)
    {
      hide Inv, Shape, Ready, Linking, WakeReceiver;
      Apartness(State(), t);
      if urgent {
        LinkInFront(t, n);
      } else {
        LinkBehind(t, n);
      }
      ResumeReceiver();
    }

    /** rt_mq_recv up to the copy, from one point where interrupts are disabled to the next where they are enabled. */
    method RecvSection(t: Thread, timeout: int, size: nat) returns (status: Status, n: Node)
      requires Valid() && Inv(State()) && (At(State(), t).Idle? || At(State(), t).RecvWoken?)
      modifies this
      ensures Valid() && State() == Recv(old(State()), t, timeout, size)
      ensures status == if old(entry) > 0 then Unlinked else if timeout == 0 then NoMessage else Blocked
      ensures status == Unlinked ==> n == old(queued[0]) && At(State(), t).Reading? && At(State(), t).node == n
      ensures status == NoMessage ==> State() == old(State()).(pc := old(pc)[t := Idle])
      ensures status == Blocked ==> timeout != 0 && At(State(), t) == RecvWait(timeout, size)
    {
      hide Inv, Linked, Suspended;
      SameLength(State());
      n := 0;
      if entry == 0 {
        status := WaitSection(t, timeout, size);
        return status, n;
      }
      ghost var message := messages[0];
      n := Unlink();
      entry := entry - 1;
      LogTaken(t, n, size, message);
      return Unlinked, n;
    }

    ghost method LogTaken(t: Thread, n: Node, size: nat, message: Bytes)
      requires Valid() && serials != [] && !At(State(), t).Filled?
      modifies `delivered, `serials, `pc
      ensures Valid() && pc == old(pc)[t := Reading(n, size, message)]
      ensures delivered == old(delivered) + [old(serials[0])] && serials == old(serials[1..])
    {
      delivered := delivered + [serials[0]];
      serials := serials[1..];
      pc := pc[t := Reading(n, size, message)];
    }

    /** The body of its waiting loop, up to the call of the scheduler. */
    method WaitSection(t: Thread, timeout: int, size: nat) returns (status: Status)
      requires Valid() && entry == 0
      modifies `receivers, `pc
      ensures Valid() && State() == Recv(old(State()), t, timeout, size)
      ensures status == if timeout == 0 then NoMessage else Blocked
    {
      hide Linked, Suspended;
      if timeout == 0 {
        pc := pc[t := Idle];
        return NoMessage;
      }
      receivers := Insert(receivers, t, flag, prio);
      pc := pc[t := RecvWait(timeout, size)];
      return Blocked;
    }

    /** Move the head of the queue on. */
    method Unlink() returns (n: Node)
      requires Lists() && queued != [] && |messages| == |queued|
      requires Distinct(queued)
      modifies `head, `tail, `queued, `messages
      ensures Lists() && n == old(queued[0]) && queued == old(queued[1..]) && messages == old(messages[1..])
    {
      LinkedTail(next[..], head, queued);
      n := head;
      head := next[n];
      if tail == n {
        tail := -1;
      }
      queued, messages := queued[1..], messages[1..];
    }

    /** Put a node in front of the free list. */
    method PushFree(n: Node)
      requires Lists() && n < next.Length && n !in queued && n !in unused
      requires forall u :: u in pc && pc[u].Filled? ==> pc[u].node != n
      modifies `free, `unused, next
      ensures Lists() && unused == [n] + old(unused)
    {
      ghost var was := next[..];
      LinkedElsewhere(was, was[n := free], head, queued);
      LinkedElsewhere(was, was[n := free], free, unused);
      next[n] := free;
      assert next[..] == was[n := free];
      free := n;
      unused := [n] + unused;
    }

    /** The copy of a message into the receiver's buffer. */
    method CopySection(t: Thread, n: Node, size: nat) returns (result: Bytes)
      requires Valid() && Inv(State()) && At(State(), t).Reading?
      requires n == At(State(), t).node && size == At(State(), t).size
      modifies this
      ensures Valid() && State() == CopyOut(old(State()), t)
      ensures At(State(), t).Copied? && result == At(State(), t).result
    {
      assert n < data.Length && |State().data[n]| == msgSize;
      result := data[n][..Min(size, msgSize)];
      pc := pc[t := Copied(n, pc[t].message, result)];
    }

    /** The last section of rt_mq_recv. */
    method PutBackSection(t: Thread, n: Node)
      requires Valid() && Inv(State()) && At(State(), t).Copied? && n == At(State(), t).node
      modifies this, next
      ensures Valid() && State() == PutBack(old(State()), t)
    {
      OneHolder(State(), t);
      hide Inv, Partition;
      pc := pc[t := Idle];
      PushFree(n);
    }

    /** rt_ipc_list_resume_all. */
    method FailReceivers()
      requires Valid() && forall t :: t in receivers ==> t in pc
      modifies `receivers, `pc
      ensures Valid() && receivers == [] && Failing(old(pc), pc, old(receivers))
    {
      ghost var pc0, list, k := pc, receivers, 0;
      while receivers != []
        invariant k <= |list| && receivers == list[k..]
        invariant Failing(pc0, pc, list[..k])
        decreases |receivers|
      {
        assert receivers[0] in list;
        assert list[..k + 1] == list[..k] + [receivers[0]];
        pc := pc[receivers[0] := Failed];
        receivers := receivers[1..];
        k := k + 1;
      }
      assert list[..k] == list;
    }

    /** The loop of rt_mq_control that empties the queue. */
    method Drain()
      requires Lists() && |messages| == |queued| && Partition(State())
      modifies `head, `tail, `queued, `messages, `free, `unused, next
      ensures Lists() && queued == [] && messages == [] && unused == Reversed(old(queued)) + old(unused)
    {
      hide Partition, Linked, Reversed;
      ghost var q := State();
      LinkedTail(next[..], head, queued);
      while head != -1
        invariant Lists() && |messages| == |queued|
        invariant head == -1 <==> queued == []
        invariant Reversed(q.queue) + q.free == Reversed(queued) + unused
        invariant Partition(q.(queue := queued, free := unused))
        decreases |queued|
      {
        HeadToFree(q.(queue := queued, free := unused));
        var n := Unlink();
        PushFree(n);
        LinkedTail(next[..], head, queued);
      }
      ReversedIs([]);
    }

    /** rt_mq_control with RT_IPC_CMD_RESET. */
    method ResetSection()
      requires Valid() && Inv(State())
      modifies this, next
      ensures Valid() && State() == Cleared(old(State()))
    {
      hide Inv, Failing, Partition, Linked, Reversed, Cleared;
      ghost var q := State();
      SameLength(q);
      FailReceivers();
      FailedAll(q, pc);
      Drain();
      entry := 0;
      serials, posted, delivered := [], [], [];
      ClearedIs(q, pc);
    }
  }

  lemma LinkingIs(q: Queue, t: Thread)
    requires At(q, t).Filled?
    ensures var n, bytes, urgent, k := q.pc[t].node, q.pc[t].bytes, q.pc[t].urgent, |q.posted|;
            Linking(q, t) == q.(queue := if urgent then [n] + q.queue else q.queue + [n],
                                messages := if urgent then [bytes] + q.messages else q.messages + [bytes],
                                serials := if urgent then [k] + q.serials else q.serials + [k],
                                posted := q.posted + [Post(bytes, urgent)], pc := q.pc[t := Idle])
  {
  }

  lemma ClearedIs(q: Queue, pc: map<Thread, Pc>)
    requires pc == Cleared(q).pc
    ensures Cleared(q) == q.(free := Reversed(q.queue) + q.free, queue := [], messages := [], receivers := [],
                             serials := [], posted := [], delivered := [], pc := pc)
  {
  }

  /** The threads of `done` have failed; the others are where they were. */
  ghost predicate Failing(before: map<Thread, Pc>, after: map<Thread, Pc>, done: seq<Thread>) {
    after.Keys == before.Keys && forall t :: t in before ==> after[t] == if t in done then Failed else before[t]
  }

  lemma FailedAll(q: Queue, pc: map<Thread, Pc>)
    requires Inv(q) && Failing(q.pc, pc, q.receivers)
    ensures pc == Cleared(q).pc && Partition(q.(pc := pc, receivers := []))
    ensures forall t :: t in pc && Holds(pc[t]) ==> t in q.pc && pc[t] == q.pc[t]
  {
    forall t | t in q.pc
      ensures pc[t] == Cleared(q).pc[t]
    {
      assert At(q, t) == q.pc[t];
    }
    SamePartition(q, q.(pc := pc, receivers := []));
  }

  lemma SameLength(q: Queue)
    requires Inv(q)
    ensures |q.messages| == |q.queue| == |q.serials| && Partition(q)
    ensures forall t :: t in q.receivers ==> t in q.pc && q.pc[t].RecvWait?
    ensures Distinct(q.queue)
  {
  }

  lemma HeadToFree(q: Queue)
    requires Partition(q) && q.queue != []
    ensures var n := q.queue[0];
            && Partition(q.(queue := q.queue[1..], free := [n] + q.free))
            && n < |q.data| && n !in q.queue[1..] && n !in q.free
            && (forall t :: t in q.pc && Holds(q.pc[t]) ==> q.pc[t].node != n)
            && Distinct(q.queue)
            && Reversed(q.queue) + q.free == Reversed(q.queue[1..]) + ([n] + q.free)
  {
    DistinctTail(q.queue);
  }
}
