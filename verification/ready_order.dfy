/** The order of the ready lists and what it means for rt_schedule: who makes room for whom when a thread becomes ready,
    stops being ready or yields (scheduler.c, thread.c). */
module ReadyOrder {
  import opened Lists
  import opened FirstBit
  import opened ReadyQueue

  /** Thread t is new on the list of its priority, behind everybody; no other thread moves. */
  ghost predicate Joins(q: Queue, q': Queue, t: Thread) {
    && |q.table| == Priorities && |q'.table| == Priorities && t in q'.tcb
    && forall p :: 0 <= p < Priorities ==> q'.table[p] == if p == q'.tcb[t].prio then q.table[p] + [t] else q.table[p]
  }

  /** Thread t is gone from its list; no other thread moves. */
  ghost predicate Leaves(q: Queue, q': Queue, t: Thread) {
    && |q.table| == Priorities && |q'.table| == Priorities
    && forall p :: 0 <= p < Priorities ==>
         if t in q.table[p] then Skips(q.table[p], q'.table[p], t) else q'.table[p] == q.table[p]
  }

  // ---------------------------------------------------------------- the operations

  lemma InsertJoins(q: Queue, t: Thread)
    requires Shape(q) && t in q.tcb
    ensures Joins(q, Insert(q, t), t)
  {
    hide Or;
  }

  /** A resumed thread joins. */
  lemma ResumedJoins(q: Queue, t: Thread)
    requires Inv(q) && StatOf(q, t) == Suspend
    ensures Joins(q, Resumed(q, t), t) && Resumed(q, t).tcb[t].prio == q.tcb[t].prio
  {
    InsertJoins(q, t);
    hide Or, Joins, ListsOk, Indexed, MasksOk;
  }

  /** A started thread joins with its base priority. */
  lemma StartedJoins(q: Queue, t: Thread)
    requires Inv(q) && StatOf(q, t) == Fresh
    ensures Joins(q, Started(q, t), t) && Started(q, t).tcb[t].prio == q.tcb[t].base
  {
    hide Or, Bit, Joins, ListsOk, Indexed, MasksOk;
    var q1 := WithStat(WithPriority(q, t, q.tcb[t].base), t, Suspend);
    InsertJoins(q1, t);
    JoinsFrom(q, q1, Started(q, t), t);
  }

  lemma JoinsFrom(q: Queue, q1: Queue, q': Queue, t: Thread)
    requires Joins(q1, q', t) && q1.table == q.table
    ensures Joins(q, q', t)
  {
  }

  lemma RemoveLeaves(q: Queue, q': Queue, t: Thread)
    requires Inv(q) && StatOf(q, t) == Ready && |q'.table| == Priorities
    requires var p := q.tcb[t].prio; q'.table == q.table[p := Without(q.table[p], t)]
    ensures Leaves(q, q', t)
  {
    hide Without, Bit, IsSet, Distinct, Skips;
    forall p | 0 <= p < Priorities
      ensures if t in q.table[p] then Skips(q.table[p], q'.table[p], t) else q'.table[p] == q.table[p]
    {
      assert Listed(q.table[p], q.tcb, p);
      if t in q.table[p] {
        WithoutSkips<nat>(q.table[p], t);
      }
    }
  }

  /** A suspended or ended thread leaves. */
  lemma SuspendedLeaves(q: Queue, t: Thread)
    requires Inv(q) && StatOf(q, t) == Ready
    ensures Leaves(q, Suspended(q, t), t) && Leaves(q, Ended(q, t), t)
  {
    hide Without, Minus, Leaves, ListsOk, Indexed, MasksOk;
    RemoveLeaves(q, Suspended(q, t), t);
    RemoveLeaves(q, Ended(q, t), t);
  }

  /** A ready thread that changes its priority leaves its list and joins the other; one that is not ready moves nobody. */
  lemma PriorityChangedMoves(q: Queue, t: Thread, p: nat)
    requires Inv(q) && t in q.tcb && p < Priorities
    ensures var q' := PriorityChanged(q, t, p);
            && q'.tcb[t].prio == p
            && if q.tcb[t].stat == Ready then Leaves(q, Suspended(q, t), t) && Joins(Suspended(q, t), q', t)
               else q'.table == q.table
  {
    if q.tcb[t].stat == Ready {
      PriorityChangedIs(q, t, p);
      SuspendedLeaves(q, t);
      hide Suspended, Leaves, Joins, Bit, Inv;
      var q1 := WithPriority(Suspended(q, t), t, p);
      InsertJoins(q1, t);
      JoinsFrom(Suspended(q, t), q1, PriorityChanged(q, t, p), t);
    }
  }

  // ---------------------------------------------------------------- the choice of rt_schedule

  /** The choice is the head of the list of its priority, and every list of a better priority is empty. */
  lemma ChosenIsFirst(q: Queue, idle: Thread)
    requires Inv(q) && StatOf(q, idle) == Ready
    ensures 0 < Ffs(q.group) <= 32 && q.table[Ffs(q.group) - 1] != []
    ensures var c := Chosen(q);
            && StatOf(q, c) == Ready && q.table[q.tcb[c].prio] != [] && q.table[q.tcb[c].prio][0] == c
            && forall p :: 0 <= p < q.tcb[c].prio ==> q.table[p] == []
  {
    hide Ffs, IsSet, Distinct, Bit;
    ChosenIsBest(q, idle);
    forall p | 0 <= p < q.tcb[Chosen(q)].prio
      ensures q.table[p] == []
    {
      if q.table[p] != [] {
        HeadIsReady(q, p);
      }
    }
  }

  lemma HeadIsReady(q: Queue, p: nat)
    requires Inv(q) && p < Priorities && q.table[p] != []
    ensures StatOf(q, q.table[p][0]) == Ready && q.tcb[q.table[p][0]].prio == p
  {
    assert Listed(q.table[p], q.tcb, p) && q.table[p][0] in q.table[p];
  }

  /** The first list that is not empty, and its head, are the choice. */
  lemma ChosenFrom(q: Queue, idle: Thread, p: nat)
    requires Inv(q) && StatOf(q, idle) == Ready && p < Priorities
    requires q.table[p] != [] && forall r :: 0 <= r < p ==> q.table[r] == []
    ensures 0 < Ffs(q.group) <= 32 && q.table[Ffs(q.group) - 1] != [] && Chosen(q) == q.table[p][0]
    ensures q.tcb[Chosen(q)].prio == p
  {
    hide Ffs, IsSet, Distinct, Bit, Indexed, MasksOk, ListsOk;
    ChosenIsFirst(q, idle);
  }

  /** A thread that becomes ready is chosen iff its priority is better than that of the present choice; otherwise the
      choice stays. Among equals the one that was ready first runs on. */
  lemma ChosenAfterJoin(q: Queue, q': Queue, t: Thread, idle: Thread)
    requires Inv(q) && StatOf(q, idle) == Ready && Inv(q') && StatOf(q', idle) == Ready && Joins(q, q', t)
    ensures 0 < Ffs(q.group) <= 32 && q.table[Ffs(q.group) - 1] != []
    ensures 0 < Ffs(q'.group) <= 32 && q'.table[Ffs(q'.group) - 1] != []
    ensures Chosen(q') == if q'.tcb[t].prio < q.tcb[Chosen(q)].prio then t else Chosen(q)
  {
    hide Ffs, ListsOk, Indexed, MasksOk;
    ChosenIsFirst(q, idle);
    var h := q.tcb[Chosen(q)].prio;
    ChosenFrom(q', idle, if q'.tcb[t].prio < h then q'.tcb[t].prio else h);
  }

  /** While somebody else leaves, the choice stays; when the choice itself leaves, the next on its list is chosen, if
      there is one. */
  lemma ChosenAfterLeave(q: Queue, q': Queue, t: Thread, idle: Thread)
    requires Inv(q) && StatOf(q, idle) == Ready && Inv(q') && StatOf(q', idle) == Ready && Leaves(q, q', t)
    ensures 0 < Ffs(q.group) <= 32 && q.table[Ffs(q.group) - 1] != []
    ensures 0 < Ffs(q'.group) <= 32 && q'.table[Ffs(q'.group) - 1] != []
    ensures t != Chosen(q) ==> Chosen(q') == Chosen(q)
    ensures t == Chosen(q) && |q.table[q.tcb[t].prio]| >= 2 ==> Chosen(q') == q.table[q.tcb[t].prio][1]
  {
    hide Ffs, ListsOk, Indexed, MasksOk;
    ChosenIsFirst(q, idle);
    var h := q.tcb[Chosen(q)].prio;
    if t != Chosen(q) || |q.table[h]| >= 2 {
      DistinctList(q, h);
      ChosenFrom(q', idle, h);
    } else {
      ChosenIsFirst(q', idle);
    }
  }

  lemma DistinctList(q: Queue, p: nat)
    requires Inv(q) && p < Priorities
    ensures forall i, j :: 0 <= i < j < |q.table[p]| ==> q.table[p][i] != q.table[p][j]
  {
    assert Listed(q.table[p], q.tcb, p);
  }

  /** After a yield of the choice the next on its list is chosen, if there is one; a yield of another changes nothing. */
  lemma ChosenAfterYield(q: Queue, t: Thread, idle: Thread)
    requires Inv(q) && StatOf(q, idle) == Ready && StatOf(q, t) == Ready
    ensures Inv(Yielded(q, t)) && StatOf(Yielded(q, t), idle) == Ready
    ensures 0 < Ffs(q.group) <= 32 && q.table[Ffs(q.group) - 1] != []
    ensures var q' := Yielded(q, t);
            && 0 < Ffs(q'.group) <= 32 && q'.table[Ffs(q'.group) - 1] != []
            && Chosen(q') == if t == Chosen(q) && |q.table[q.tcb[t].prio]| >= 2 then q.table[q.tcb[t].prio][1] else Chosen(q)
  {
    hide Ffs, ListsOk, Indexed, MasksOk, Yielded;
    YieldedKeeps(q, t);
    ChosenIsFirst(q, idle);
    YieldedHeads(q, t);
    var q', h := Yielded(q, t), q.tcb[Chosen(q)].prio;
    assert SameHead(q, q', h, t);
    forall r | 0 <= r < h
      ensures q'.table[r] == []
    {
      assert SameHead(q, q', r, t);
    }
    ChosenFrom(q', idle, h);
  }

  lemma YieldedHeads(q: Queue, t: Thread)
    requires Inv(q) && StatOf(q, t) == Ready
    ensures var q' := Yielded(q, t);
            && |q'.table| == Priorities && q'.tcb == q.tcb
            && forall p :: 0 <= p < Priorities ==> SameHead(q, q', p, t)
  {
    forall p | 0 <= p < Priorities
      ensures |Yielded(q, t).table| == Priorities && SameHead(q, Yielded(q, t), p, t)
    {
      YieldedHead(q, t, p);
    }
    hide Inv;
  }

  /** The head of list p is the same, unless it is t and makes room for the next. */
  ghost predicate SameHead(q: Queue, q': Queue, p: nat, t: Thread)
    requires p < |q.table| && p < |q'.table|
  {
    && (q'.table[p] == [] <==> q.table[p] == [])
    && (q.table[p] != [] ==>
          q'.table[p][0] == if q.table[p][0] == t && |q.table[p]| >= 2 then q.table[p][1] else q.table[p][0])
  }

  lemma YieldedHead(q: Queue, t: Thread, p: nat)
    requires Inv(q) && StatOf(q, t) == Ready && p < Priorities
    ensures |Yielded(q, t).table| == Priorities && SameHead(q, Yielded(q, t), p, t)
  {
    var list := q.table[p];
    OnOneList(q, t, p);
    hide Indexed, ListsOk, MasksOk;
    if p == q.tcb[t].prio && |list| >= 2 {
      YieldIsFair(q, t);
      hide Without;
      var k := WithoutIs<nat>(list, t);
      assert Yielded(q, t).table[p][0] == (list[..k] + list[k + 1..])[0];
    } else {
      hide Without;
      assert p == q.tcb[t].prio || t !in list;
    }
  }
}
