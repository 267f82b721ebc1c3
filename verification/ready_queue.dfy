/** The ready threads: one list for every priority and a bit for every list that is not empty (scheduler.c, and the
    operations of thread.c on it). */
module ReadyQueue {
  import opened Lists
  import opened FirstBit

  type Thread = nat

  /** RT_THREAD_INIT, RT_THREAD_READY, RT_THREAD_SUSPEND and RT_THREAD_CLOSE. */
  datatype Stat = Fresh | Ready | Suspend | Closed

  /** `mask` is number_mask, which startup computes. */
  datatype Tcb = Tcb(stat: Stat, base: nat, prio: nat, mask: Bits)

  const Priorities: nat := 32

  datatype Queue = Queue(table: seq<seq<Thread>>, group: Bits, tcb: map<Thread, Tcb>)

  ghost predicate Shape(q: Queue) {
    |q.table| == Priorities && forall t :: t in q.tcb ==> q.tcb[t].base < Priorities && q.tcb[t].prio < Priorities
  }

  function StatOf(q: Queue, t: Thread): Stat { if t in q.tcb then q.tcb[t].stat else Closed }

  // ---------------------------------------------------------------- operations

  /** rt_schedule_insert_thread. */
  function Insert(q: Queue, t: Thread): Queue
    requires Shape(q) && t in q.tcb
  {
    var c := q.tcb[t];
    Queue(q.table[c.prio := q.table[c.prio] + [t]], Or(q.group, c.mask), q.tcb[t := c.(stat := Ready)])
  }

  /** rt_schedule_remove_thread. */
  function Remove(q: Queue, t: Thread): Queue
    requires Shape(q) && t in q.tcb
  {
    var c := q.tcb[t];
    var list := Without(q.table[c.prio], t);
    q.(table := q.table[c.prio := list], group := if list == [] then Minus(q.group, c.mask) else q.group)
  }

  function WithStat(q: Queue, t: Thread, stat: Stat): Queue
    requires t in q.tcb
  {
    q.(tcb := q.tcb[t := q.tcb[t].(stat := stat)])
  }

  /** rt_thread_suspend. */
  function Suspended(q: Queue, t: Thread): Queue
    requires Shape(q) && t in q.tcb
  {
    if q.tcb[t].stat != Ready then q else Remove(WithStat(q, t, Suspend), t)
  }

  /** rt_thread_resume, as far as the ready lists are concerned. */
  function Resumed(q: Queue, t: Thread): Queue
    requires Shape(q) && t in q.tcb
  {
    if q.tcb[t].stat != Suspend then q else Insert(q, t)
  }

  function WithPriority(q: Queue, t: Thread, p: nat): Queue
    requires t in q.tcb && p < Priorities
  {
    q.(tcb := q.tcb[t := q.tcb[t].(prio := p, mask := Bit(p))])
  }

  /** rt_thread_startup, for a thread that has not been started. */
  function Started(q: Queue, t: Thread): Queue
    requires Shape(q) && t in q.tcb
  {
    if q.tcb[t].stat != Fresh then q
    else Resumed(WithStat(WithPriority(q, t, q.tcb[t].base), t, Suspend), t)
  }

  /** RT_THREAD_CTRL_CHANGE_PRIORITY. */
  function PriorityChanged(q: Queue, t: Thread, p: nat): Queue
    requires Shape(q) && t in q.tcb && p < Priorities
  {
    if q.tcb[t].stat == Ready then Insert(WithPriority(Remove(q, t), t, p), t) else WithPriority(q, t, p)
  }

  /** rt_thread_yield: a ready thread that is not alone on its list goes to the end of it. */
  function Yielded(q: Queue, t: Thread): Queue
    requires Shape(q) && t in q.tcb
  {
    var p := q.tcb[t].prio;
    if q.tcb[t].stat == Ready && |q.table[p]| >= 2 then q.(table := q.table[p := Without(q.table[p], t) + [t]]) else q
  }

  /** rt_thread_exit, rt_thread_delete or rt_thread_detach of a started thread. */
  function Ended(q: Queue, t: Thread): Queue
    requires Shape(q) && t in q.tcb
  {
    WithStat(Remove(q, t), t, Closed)
  }

  /** The thread rt_schedule switches to: the first of the list that __rt_ffs finds. */
  function Chosen(q: Queue): Thread
    requires |q.table| == Priorities && 0 < Ffs(q.group) <= 32 && q.table[Ffs(q.group) - 1] != []
  {
    q.table[Ffs(q.group) - 1][0]
  }

  // ---------------------------------------------------------------- invariant

  /** Bit p is set iff list p has a thread. */
  ghost predicate Indexed(q: Queue)
    requires Shape(q)
  {
    forall p :: 0 <= p < Priorities ==> (IsSet(q.group, p) <==> q.table[p] != [])
  }

  ghost predicate Listed(list: seq<Thread>, tcb: map<Thread, Tcb>, p: nat) {
    Distinct(list) && forall t: Thread :: t in list <==> t in tcb && tcb[t].stat == Ready && tcb[t].prio == p
  }

  /** List p has exactly the ready threads of priority p, each once. */
  ghost predicate ListsOk(q: Queue)
    requires Shape(q)
  {
    forall p :: 0 <= p < Priorities ==> Listed(q.table[p], q.tcb, p)
  }

  ghost predicate MasksOk(q: Queue)
    requires Shape(q)
  {
    forall t :: t in q.tcb && (q.tcb[t].stat == Ready || q.tcb[t].stat == Suspend) ==> q.tcb[t].mask == Bit(q.tcb[t].prio)
  }

  ghost predicate Inv(q: Queue) { Shape(q) && Indexed(q) && ListsOk(q) && MasksOk(q) }

  // ---------------------------------------------------------------- every operation keeps it

  lemma InsertKeeps(q: Queue, t: Thread)
    requires Inv(q) && t in q.tcb && q.tcb[t].stat == Suspend
    ensures Inv(Insert(q, t))
  {
    InsertKeepsLists(q, t);
    InsertKeepsIndex(q, t);
    hide Distinct, Bit, IsSet, Or, Listed;
  }

  lemma InsertKeepsLists(q: Queue, t: Thread)
    requires Inv(q) && t in q.tcb && q.tcb[t].stat == Suspend
    ensures Shape(Insert(q, t)) && ListsOk(Insert(q, t))
  {
    var q', c := Insert(q, t), q.tcb[t];
    hide Distinct, Bit, IsSet, Or;
    forall p | 0 <= p < Priorities
      ensures Listed(q'.table[p], q'.tcb, p)
    {
      assert Listed(q.table[p], q.tcb, p);
      if p == c.prio {
        Appended(q.table[p], t);
      }
    }
  }

  lemma InsertKeepsIndex(q: Queue, t: Thread)
    requires Inv(q) && t in q.tcb && q.tcb[t].stat == Suspend
    ensures Shape(Insert(q, t)) && Indexed(Insert(q, t))
  {
    var q', c := Insert(q, t), q.tcb[t];
    hide Bit, IsSet, Or, Listed;
    forall p | 0 <= p < Priorities
      ensures IsSet(q'.group, p) <==> q'.table[p] != []
    {
      SetBit(q.group, c.prio, p);
    }
  }

  lemma Appended(list: seq<Thread>, t: Thread)
    requires Distinct(list) && t !in list
    ensures Distinct(list + [t])
  {
  }

  /** Removing a ready thread whose state has changed already. */
  lemma RemoveKeeps(q: Queue, t: Thread, stat: Stat)
    requires Inv(q) && t in q.tcb && q.tcb[t].stat == Ready && stat != Ready
    ensures Shape(WithStat(q, t, stat)) && Inv(Remove(WithStat(q, t, stat), t))
  {
    RemoveKeepsLists(q, t, stat);
    RemoveKeepsIndex(q, t, stat);
    hide Distinct, Bit, IsSet, Minus, Without, Listed;
  }

  lemma RemoveKeepsLists(q: Queue, t: Thread, stat: Stat)
    requires Inv(q) && t in q.tcb && q.tcb[t].stat == Ready && stat != Ready
    ensures Shape(WithStat(q, t, stat)) && Shape(Remove(WithStat(q, t, stat), t))
    ensures ListsOk(Remove(WithStat(q, t, stat), t))
  {
    var q', c := Remove(WithStat(q, t, stat), t), q.tcb[t];
    hide Distinct, Bit, IsSet, Minus, Without;
    forall p | 0 <= p < Priorities
      ensures Listed(q'.table[p], q'.tcb, p)
    {
      assert Listed(q.table[p], q.tcb, p);
      if p == c.prio {
        WithoutKeepsOthers<nat>(q.table[p], t);
      }
    }
  }

  lemma RemoveKeepsIndex(q: Queue, t: Thread, stat: Stat)
    requires Inv(q) && t in q.tcb && q.tcb[t].stat == Ready && stat != Ready
    ensures Shape(WithStat(q, t, stat)) && Shape(Remove(WithStat(q, t, stat), t))
    ensures Indexed(Remove(WithStat(q, t, stat), t))
  {
    var q', c := Remove(WithStat(q, t, stat), t), q.tcb[t];
    hide Bit, IsSet, Minus, Without, Listed, Distinct;
    assert q.table[c.prio] != [] by { OnList(q, t); }
    forall p | 0 <= p < Priorities
      ensures IsSet(q'.group, p) <==> q'.table[p] != []
    {
      ClearBit(q.group, c.prio, p);
    }
  }

  lemma OnList(q: Queue, t: Thread)
    requires Inv(q) && t in q.tcb && q.tcb[t].stat == Ready
    ensures t in q.table[q.tcb[t].prio]
  {
    assert Listed(q.table[q.tcb[t].prio], q.tcb, q.tcb[t].prio);
  }

  /** A thread that is not ready changes its priority, or its state to another that is not ready. */
  lemma AsideKeeps(q: Queue, t: Thread, c: Tcb)
    requires Inv(q) && t in q.tcb && q.tcb[t].stat != Ready
    requires c.stat != Ready && c.base < Priorities && c.prio < Priorities && (c.stat == Suspend ==> c.mask == Bit(c.prio))
    ensures Inv(q.(tcb := q.tcb[t := c]))
  {
    hide Distinct, Bit, IsSet;
    var q' := q.(tcb := q.tcb[t := c]);
    forall p | 0 <= p < Priorities
      ensures Listed(q'.table[p], q'.tcb, p)
    {
      assert Listed(q.table[p], q.tcb, p);
    }
  }

  lemma StartedKeeps(q: Queue, t: Thread)
    requires Inv(q) && t in q.tcb
    ensures Inv(Started(q, t))
  {
    if q.tcb[t].stat == Fresh {
      hide Inv, Bit;
      var q1 := WithStat(WithPriority(q, t, q.tcb[t].base), t, Suspend);
      assert q1 == q.(tcb := q.tcb[t := Tcb(Suspend, q.tcb[t].base, q.tcb[t].base, Bit(q.tcb[t].base))]);
      AsideKeeps(q, t, Tcb(Suspend, q.tcb[t].base, q.tcb[t].base, Bit(q.tcb[t].base)));
      InsertKeeps(q1, t);
    }
  }

  lemma SuspendedKeeps(q: Queue, t: Thread)
    requires Inv(q) && t in q.tcb
    ensures Inv(Suspended(q, t))
  {
    if q.tcb[t].stat == Ready {
      RemoveKeeps(q, t, Suspend);
    }
  }

  lemma ResumedKeeps(q: Queue, t: Thread)
    requires Inv(q) && t in q.tcb
    ensures Inv(Resumed(q, t))
  {
    if q.tcb[t].stat == Suspend {
      InsertKeeps(q, t);
    }
  }

  /** Changing the priority of a ready thread is suspending it, changing it, and inserting it again. */
  lemma PriorityChangedIs(q: Queue, t: Thread, p: nat)
    requires Shape(q) && t in q.tcb && p < Priorities && q.tcb[t].stat == Ready
    ensures Shape(WithPriority(Suspended(q, t), t, p))
    ensures PriorityChanged(q, t, p) == Insert(WithPriority(Suspended(q, t), t, p), t)
  {
    hide Bit, Minus, Or, Without;
    var a, b := Remove(q, t), Suspended(q, t);
    assert a.table == b.table && a.group == b.group;
    assert WithPriority(a, t, p).tcb[t := WithPriority(a, t, p).tcb[t].(stat := Ready)]
        == WithPriority(b, t, p).tcb[t := WithPriority(b, t, p).tcb[t].(stat := Ready)];
  }

  lemma PriorityChangedKeeps(q: Queue, t: Thread, p: nat)
    requires Inv(q) && t in q.tcb && p < Priorities
    ensures Inv(PriorityChanged(q, t, p))
  {
    if q.tcb[t].stat == Ready {
      PriorityChangedIs(q, t, p);
      SuspendedKeeps(q, t);
      var q1 := Suspended(q, t);
      hide Inv, Bit, PriorityChanged, Insert;
      AsideKeeps(q1, t, q1.tcb[t].(prio := p, mask := Bit(p)));
      InsertKeeps(WithPriority(q1, t, p), t);
    } else {
      AsideKeeps(q, t, q.tcb[t].(prio := p, mask := Bit(p)));
    }
  }

  lemma YieldedKeeps(q: Queue, t: Thread)
    requires Inv(q) && t in q.tcb
    ensures Inv(Yielded(q, t))
  {
    var q', p := Yielded(q, t), q.tcb[t].prio;
    if q.tcb[t].stat == Ready && |q.table[p]| >= 2 {
      hide Distinct, Bit, IsSet, Without;
      assert Listed(q.table[p], q.tcb, p);
      WithoutKeepsOthers<nat>(q.table[p], t);
      Appended(Without<nat>(q.table[p], t), t);
      assert forall r :: 0 <= r < Priorities && r != p ==> q'.table[r] == q.table[r];
    }
  }

  lemma EndedKeeps(q: Queue, t: Thread)
    requires Inv(q) && t in q.tcb && q.tcb[t].stat != Fresh && q.tcb[t].stat != Closed
    ensures Inv(Ended(q, t))
  {
    var c := q.tcb[t];
    if c.stat == Ready {
      RemoveKeeps(q, t, Closed);
      assert Ended(q, t) == Remove(WithStat(q, t, Closed), t);
    } else {
      assert Listed(q.table[c.prio], q.tcb, c.prio);
      WithoutNothing<nat>(q.table[c.prio], t);
      hide Distinct;
      if q.table[c.prio] == [] {
        ClearedAlready(q, c.prio);
      }
      assert q.table[c.prio := q.table[c.prio]] == q.table;
      AsideKeeps(q, t, c.(stat := Closed));
    }
  }

  lemma ClearedAlready(q: Queue, p: nat)
    requires Shape(q) && Indexed(q) && p < Priorities && q.table[p] == []
    ensures Minus(q.group, Bit(p)) == q.group
  {
    assert !IsSet(q.group, p);
    hide Indexed, Shape;
    var g, b := q.group, Bit(p);
    hide Bit;
    MinusNothing(g, b);
  }

  lemma MinusNothing(g: Bits, b: Bits)
    requires And(g, b) == 0
    ensures Minus(g, b) == g
  {
  }

  // ---------------------------------------------------------------- the choice of rt_schedule

  /** While some thread is ready, rt_schedule takes a ready thread of the best priority, the first of its list. */
  lemma ChosenIsBest(q: Queue, idle: Thread)
    requires Inv(q) && StatOf(q, idle) == Ready
    ensures 0 < Ffs(q.group) <= 32 && q.table[Ffs(q.group) - 1] != []
    ensures StatOf(q, Chosen(q)) == Ready && q.tcb[Chosen(q)].prio == Ffs(q.group) - 1
    ensures forall t :: t in q.tcb && q.tcb[t].stat == Ready ==> q.tcb[Chosen(q)].prio <= q.tcb[t].prio
  {
    hide Distinct, Ffs, IsSet;
    FfsFinds(q.group);
    EmptySet(q.group);
    forall t | t in q.tcb && q.tcb[t].stat == Ready
      ensures q.table[q.tcb[t].prio] != [] && IsSet(q.group, q.tcb[t].prio)
    {
      assert Listed(q.table[q.tcb[t].prio], q.tcb, q.tcb[t].prio);
    }
    assert IsSet(q.group, q.tcb[idle].prio);
    var h := Ffs(q.group) - 1;
    assert Listed(q.table[h], q.tcb, h) && q.table[h][0] in q.table[h];
  }

  /** A ready thread is on the list of its priority and on no other. */
  lemma OnOneList(q: Queue, t: Thread, p: nat)
    requires Inv(q) && p < Priorities
    ensures t in q.table[p] <==> StatOf(q, t) == Ready && q.tcb[t].prio == p
    ensures multiset(q.table[p])[t] <= 1
  {
    hide IsSet, Bit;
    assert Listed(q.table[p], q.tcb, p);
    Once(q.table[p], t);
  }

  lemma {:induction false} Once(list: seq<Thread>, t: Thread)
    requires Distinct(list)
    ensures multiset(list)[t] <= 1
  {
    if list != [] {
      DistinctTail(list);
      Once(list[1..], t);
      assert list == [list[0]] + list[1..];
    }
  }

  /** After a yield every other thread of the list comes before the one that yielded. */
  lemma YieldIsFair(q: Queue, t: Thread)
    requires Inv(q) && StatOf(q, t) == Ready && |q.table[q.tcb[t].prio]| >= 2
    ensures var list, list' := q.table[q.tcb[t].prio], Yielded(q, t).table[q.tcb[t].prio];
            && |list'| == |list| && list'[|list| - 1] == t && (list[0] == t ==> list'[0] == list[1])
            && list'[..|list| - 1] == Without(list, t)
  {
    hide IsSet, Bit, Distinct;
    assert Listed(q.table[q.tcb[t].prio], q.tcb, q.tcb[t].prio);
    WithoutKeepsOthers<nat>(q.table[q.tcb[t].prio], t);
  }
}
