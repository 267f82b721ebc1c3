/** The list of suspended threads of an IPC object (rt_ipc_list_suspend and rt_ipc_list_resume of ipc.c). */
module IpcList {
  import opened Lists

  type Thread = nat

  /** RT_IPC_FLAG_FIFO and RT_IPC_FLAG_PRIO. */
  datatype Flag = Fifo | Prio

  function Priority(prio: map<Thread, nat>, t: Thread): nat { if t in prio then prio[t] else 0 }

  /** Where a thread of priority p goes: behind everybody, or before the first thread of a larger number. */
  function Place(list: seq<Thread>, prio: map<Thread, nat>, p: nat, i: nat): (k: nat)
    requires i <= |list|
    ensures i <= k <= |list|
    decreases |list| - i
  {
    if i == |list| || p < Priority(prio, list[i]) then i else Place(list, prio, p, i + 1)
  }

  function Suspended(list: seq<Thread>, t: Thread, flag: Flag, prio: map<Thread, nat>): seq<Thread> {
    if flag == Fifo then list + [t]
    else
      var k := Place(list, prio, Priority(prio, t), 0);
      list[..k] + [t] + list[k..]
  }

  /** Smaller priority numbers first. */
  ghost predicate Ordered(list: seq<Thread>, prio: map<Thread, nat>) {
    forall i, j :: 0 <= i < j < |list| ==> Priority(prio, list[i]) <= Priority(prio, list[j])
  }

  lemma {:induction false} PlaceIs(list: seq<Thread>, prio: map<Thread, nat>, p: nat, i: nat)
    requires i <= |list| && forall k :: 0 <= k < i ==> Priority(prio, list[k]) <= p
    ensures var k := Place(list, prio, p, i);
            (forall j :: 0 <= j < k ==> Priority(prio, list[j]) <= p) && (k < |list| ==> p < Priority(prio, list[k]))
    decreases |list| - i
  {
    if i < |list| && Priority(prio, list[i]) <= p {
      PlaceIs(list, prio, p, i + 1);
    }
  }

  /** Suspending adds exactly the thread, leaves the others in their order, and with RT_IPC_FLAG_PRIO keeps the list
      ordered, the newcomer behind everybody of the same priority. */
  lemma SuspendedIs(list: seq<Thread>, t: Thread, flag: Flag, prio: map<Thread, nat>)
    ensures exists k | 0 <= k <= |list| ::
              && Suspended(list, t, flag, prio) == list[..k] + [t] + list[k..]
              && (flag == Fifo ==> k == |list|)
              && (flag == Prio && Ordered(list, prio) ==>
                    (forall j :: 0 <= j < k ==> Priority(prio, list[j]) <= Priority(prio, t))
                    && forall j :: k <= j < |list| ==> Priority(prio, t) < Priority(prio, list[j]))
    ensures |Suspended(list, t, flag, prio)| == |list| + 1
    ensures forall x :: x in Suspended(list, t, flag, prio) <==> x in list || x == t
    ensures Distinct(list) && t !in list ==> Distinct(Suspended(list, t, flag, prio))
    ensures flag == Prio && Ordered(list, prio) ==> Ordered(Suspended(list, t, flag, prio), prio)
  {
    var k := if flag == Fifo then |list| else Place(list, prio, Priority(prio, t), 0);
    PlaceIs(list, prio, Priority(prio, t), 0);
    assert Suspended(list, t, flag, prio) == list[..k] + [t] + list[k..];
    hide Suspended, Distinct, Place;
    InsertedIs(list, k, t);
    if flag == Prio && Ordered(list, prio) {
      InsertedOrdered(list, k, t, prio);
    }
  }

  /** Thread t is put on the list at one place: behind everybody for RT_IPC_FLAG_FIFO, and for RT_IPC_FLAG_PRIO, on an
      ordered list, behind all threads of its priority or a better one and before all others. */
  ghost predicate Queued(list: seq<Thread>, list': seq<Thread>, t: Thread, flag: Flag, prio: map<Thread, nat>) {
    exists i :: 0 <= i <= |list| && QueuedAt(list, list', t, flag, prio, i)
  }

  ghost predicate QueuedAt(list: seq<Thread>, list': seq<Thread>, t: Thread, flag: Flag, prio: map<Thread, nat>,
                           i: int)
    requires 0 <= i <= |list|
  {
    && list' == list[..i] + [t] + list[i..]
    && (flag == Fifo ==> i == |list|)
    && (flag == Prio && Ordered(list, prio) ==>
          && (forall j :: 0 <= j < i ==> Priority(prio, list[j]) <= Priority(prio, t))
          && (forall j :: i <= j < |list| ==> Priority(prio, t) < Priority(prio, list[j])))
  }

  lemma QueuedIs(list: seq<Thread>, t: Thread, flag: Flag, prio: map<Thread, nat>)
    ensures Queued(list, Suspended(list, t, flag, prio), t, flag, prio)
  {
    hide Suspended, Distinct, Ordered;
    SuspendedIs(list, t, flag, prio);
    var i :| 0 <= i <= |list|
             && Suspended(list, t, flag, prio) == list[..i] + [t] + list[i..]
             && (flag == Fifo ==> i == |list|)
             && (flag == Prio && Ordered(list, prio) ==>
                   (forall j :: 0 <= j < i ==> Priority(prio, list[j]) <= Priority(prio, t))
                   && forall j :: i <= j < |list| ==> Priority(prio, t) < Priority(prio, list[j]));
    assert QueuedAt(list, Suspended(list, t, flag, prio), t, flag, prio, i);
  }

  lemma SuspendedHas(list: seq<Thread>, t: Thread, flag: Flag, prio: map<Thread, nat>)
    ensures t in Suspended(list, t, flag, prio)
  {
    SuspendedIs(list, t, flag, prio);
  }

  lemma InsertedOrdered(list: seq<Thread>, k: nat, t: Thread, prio: map<Thread, nat>)
    requires k <= |list| && Ordered(list, prio)
    requires forall j :: 0 <= j < k ==> Priority(prio, list[j]) <= Priority(prio, t)
    requires k < |list| ==> Priority(prio, t) < Priority(prio, list[k])
    ensures Ordered(list[..k] + [t] + list[k..], prio)
  {
    var l := list[..k] + [t] + list[k..];
    assert l[k] == t;
    assert forall i :: 0 <= i < |l| && i != k ==> l[i] == list[if i < k then i else i - 1];
  }

  /** Removing a thread, as a timeout does, leaves the others in their order. */
  lemma WithoutKeeps(list: seq<Thread>, t: Thread, prio: map<Thread, nat>)
    requires t in list && Distinct(list)
    ensures Distinct(Without(list, t)) && |Without(list, t)| == |list| - 1
    ensures forall x :: x in Without(list, t) <==> x in list && x != t
    ensures Ordered(list, prio) ==> Ordered(Without(list, t), prio)
  {
    WithoutKeepsOthers(list, t);
    if Ordered(list, prio) {
      OrderedWithout(list, t, prio);
    }
  }

  lemma OrderedWithout(list: seq<Thread>, t: Thread, prio: map<Thread, nat>)
    requires t in list && Ordered(list, prio)
    ensures Ordered(Without(list, t), prio)
  {
    var k := WithoutIs(list, t);
    hide Without;
    var l := list[..k] + list[k + 1..];
    assert forall i :: 0 <= i < |l| ==> l[i] == list[if i < k then i else i + 1];
  }

  /** Resuming takes the head. */
  lemma TailKeeps(list: seq<Thread>, prio: map<Thread, nat>)
    requires list != [] && Distinct(list)
    ensures Distinct(list[1..]) && list[0] !in list[1..]
    ensures forall x :: x in list <==> x == list[0] || x in list[1..]
    ensures Ordered(list, prio) ==> Ordered(list[1..], prio)
  {
    assert forall i :: 0 <= i < |list| - 1 ==> list[1..][i] == list[i + 1];
    assert list == [list[0]] + list[1..];
  }

  /** The search loop of rt_ipc_list_suspend. */
  method Insert(list: seq<Thread>, t: Thread, flag: Flag, prio: map<Thread, nat>) returns (l: seq<Thread>)
    ensures l == Suspended(list, t, flag, prio)
  {
    match flag
    case Fifo =>
      l := list + [t];
    case Prio =>
      var n := 0;
      while n < |list|
        invariant n <= |list|
        invariant Place(list, prio, Priority(prio, t), 0) == Place(list, prio, Priority(prio, t), n)
      {
        if Priority(prio, t) < Priority(prio, list[n]) {
          break;
        }
        n := n + 1;
      }
      l := list[..n] + [t] + list[n..];
  }
}
