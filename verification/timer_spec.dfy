/** The hard timer list of timer.c against absolute time: what starting, stopping and a check do to it. */
module TimerSpec {
  import opened Lists

  const WRAP: nat := 0x1_0000_0000   // rt_tick_t has 32 bits
  const HALF: nat := 0x7fff_ffff     // RT_TICK_MAX / 2

  type Id = nat

  /** `init` and `timeout` are init_tick and timeout_tick; `activated` and `periodic` are the two flag bits. */
  datatype Timer = Timer(init: nat, timeout: nat, periodic: bool, activated: bool)

  datatype Firing = Firing(id: Id, due: nat, at: nat)

  /** `now` counts ticks without wrapping; `due` is what was last written to timeout_tick of each timer, not wrapped. A
      list that names a timer twice stands for the ring that linking a linked node spoils. */
  datatype System = System(now: nat, list: seq<Id>, timers: seq<Timer>, due: map<Id, nat>, fired: seq<Firing>)

  /** What a timeout function may do to timers. */
  datatype Cmd = Start(id: Id) | Stop(id: Id) | SetTime(id: Id, ticks: nat) | SetPeriodic(id: Id, on: bool)

  /** The commands of each timeout call, by the number of calls before it and the timer. */
  type Script = (nat, Id) -> seq<Cmd>

  function DueOf(due: map<Id, nat>, id: Id): nat { if id in due then due[id] else 0 }

  /** a - b on rt_tick_t. */
  function Sub(a: nat, b: nat): nat { (a - b) % WRAP }

  /** Where rt_timer_start puts a timer due at d, comparing 32-bit words: after the first timer with the same word, or before
      the first one that seems due later. */
  function Position(list: seq<Id>, due: map<Id, nat>, d: nat, i: nat): (p: nat)
    requires i <= |list|
    ensures i <= p <= |list|
    decreases |list| - i
  {
    if i == |list| then i
    else if Sub(DueOf(due, list[i]) % WRAP, d % WRAP) == 0 then i + 1
    else if Sub(DueOf(due, list[i]) % WRAP, d % WRAP) < HALF then i
    else Position(list, due, d, i + 1)
  }

  /** The place by the deadlines themselves. */
  function TruePosition(list: seq<Id>, due: map<Id, nat>, d: nat, i: nat): (p: nat)
    requires i <= |list|
    ensures i <= p <= |list|
    decreases |list| - i
  {
    if i == |list| then i
    else if DueOf(due, list[i]) == d then i + 1
    else if DueOf(due, list[i]) > d then i
    else TruePosition(list, due, d, i + 1)
  }

  // ---------------------------------------------------------------- invariant

  ghost predicate Sorted(list: seq<Id>, due: map<Id, nat>) {
    forall i, j :: 0 <= i < j < |list| ==> DueOf(due, list[i]) <= DueOf(due, list[j])
  }

  /** Every listed timer is active and due at `lo` or later and within half the tick range. */
  ghost predicate Ahead(s: System, lo: nat) {
    forall id :: id in s.list ==>
      id < |s.timers| && s.timers[id].activated && lo <= DueOf(s.due, id) < s.now + HALF
  }

  /** Delays are in range, timeout_tick holds the deadline modulo 2^32, and what has fired has fired at its deadline. */
  ghost predicate Fields(s: System) {
    && (forall id :: 0 <= id < |s.timers| ==> 1 <= s.timers[id].init < HALF)
    && (forall id :: 0 <= id < |s.timers| ==> s.timers[id].timeout == DueOf(s.due, id) % WRAP)
    && (forall f :: f in s.fired ==> f.at == f.due)
  }

  ghost predicate Inv(s: System, lo: nat) {
    Distinct(s.list) && Sorted(s.list, s.due) && Ahead(s, lo) && Fields(s)
  }

  /** Every active timer is listed, but for those of `off`. */
  ghost predicate ActiveListed(s: System, off: set<Id>) {
    forall id :: 0 <= id < |s.timers| && s.timers[id].activated ==> id in s.list || id in off
  }

  // ---------------------------------------------------------------- operations

  /** The pieces of rt_timer_start and rt_timer_stop. */
  function Written(s: System, id: Id, d: nat): (s': System)
    requires id < |s.timers|
    ensures |s'.timers| == |s.timers| && s'.now == s.now && s'.fired == s.fired
  {
    s.(timers := s.timers[id := s.timers[id].(timeout := d % WRAP)], due := s.due[id := d])
  }

  function Linked(s: System, id: Id): (s': System)
    requires id < |s.timers|
    ensures |s'.timers| == |s.timers| && s'.now == s.now && s'.fired == s.fired
  {
    s.(list := Inserted(s.list, Position(s.list, s.due, DueOf(s.due, id), 0), id),
       timers := s.timers[id := s.timers[id].(activated := true)])
  }

  function Unlinked(s: System, id: Id): System { s.(list := Without(s.list, id)) }

  function Cleared(s: System, id: Id): System
    requires id < |s.timers|
  {
    s.(timers := s.timers[id := s.timers[id].(activated := false)])
  }

  /** rt_timer_start with interrupts disabled. */
  function Started(s: System, id: Id): (s': System)
    requires id < |s.timers|
    ensures |s'.timers| == |s.timers| && s'.now == s.now && s'.fired == s.fired
  {
    if s.timers[id].activated then s else Linked(Written(s, id, s.now + s.timers[id].init), id)
  }

  /** rt_timer_stop with interrupts disabled. */
  function Stopped(s: System, id: Id): (s': System)
    requires id < |s.timers|
    ensures |s'.timers| == |s.timers| && s'.now == s.now && s'.fired == s.fired
  {
    if !s.timers[id].activated then s else Cleared(Unlinked(s, id), id)
  }

  function Execute(s: System, c: Cmd): (s': System)
    ensures |s'.timers| == |s.timers| && s'.now == s.now && s'.fired == s.fired
  {
    if c.id >= |s.timers| then s
    else
    match c
    case Start(id) => Started(s, id)
    case Stop(id) => Stopped(s, id)
    case SetTime(id, t) => s.(timers := s.timers[id := s.timers[id].(init := t)])
    case SetPeriodic(id, on) => s.(timers := s.timers[id := s.timers[id].(periodic := on)])
  }

  /** Commands the interface allows: existing timers, and delays of 1 to RT_TICK_MAX / 2 - 1 ticks. */
  ghost predicate Allowed(cmds: seq<Cmd>, n: nat) {
    forall c :: c in cmds ==> c.id < n && (c.SetTime? ==> 1 <= c.ticks < HALF)
  }

  /** After its last stop of its own timer, a timeout function does not start it again. */
  ghost predicate EndsUnlinked(cmds: seq<Cmd>, self: Id) {
    forall i, j :: 0 <= i < j < |cmds| && cmds[i] == Stop(self) && cmds[j] == Start(self) ==>
      exists k :: j < k < |cmds| && cmds[k] == Stop(self)
  }

  ghost predicate GoodScript(script: Script, n: nat) {
    forall k: nat, id: Id :: Allowed(script(k, id), n) && EndsUnlinked(script(k, id), id)
  }

  /** For deadlines less than half the tick range apart, the size of the difference tells their order. */
  lemma ModularOrder(a: nat, b: nat)
    requires a < b + HALF && b < a + HALF
    ensures Sub(a % WRAP, b % WRAP) == 0 <==> a == b
    ensures Sub(a % WRAP, b % WRAP) < HALF <==> a >= b
  {
    SubMod(a, b);
  }

  lemma SubMod(a: nat, b: nat)
    ensures Sub(a % WRAP, b % WRAP) == (a - b) % WRAP
  {
    var qa, qb := a / WRAP, b / WRAP;
    assert a % WRAP - b % WRAP == (a - b) + (qb - qa) * WRAP;
    ModShift(a - b, qb - qa);
  }

  lemma ModShift(x: int, q: int)
    ensures (x + q * WRAP) % WRAP == x % WRAP
  {
    var r, k := x % WRAP, x / WRAP;
    assert x + q * WRAP == r + (k + q) * WRAP;
  }

  /** All listed deadlines are less than half the tick range from d. */
  ghost predicate Near(list: seq<Id>, due: map<Id, nat>, d: nat) {
    forall k :: 0 <= k < |list| ==> DueOf(due, list[k]) < d + HALF && d < DueOf(due, list[k]) + HALF
  }

  /** Then comparing words finds the place by deadlines. */
  lemma {:induction false} PositionNear(list: seq<Id>, due: map<Id, nat>, d: nat, i: nat)
    requires i <= |list| && Near(list, due, d)
    ensures Position(list, due, d, i) == TruePosition(list, due, d, i)
    decreases |list| - i
  {
    if i < |list| {
      ModularOrder(DueOf(due, list[i]), d);
      hide Sub;
      PositionNear(list, due, d, i + 1);
    }
  }

  lemma {:induction false} TruePositionIs(list: seq<Id>, due: map<Id, nat>, d: nat, i: nat)
    requires i <= |list| && Sorted(list, due)
    requires forall k :: 0 <= k < i ==> DueOf(due, list[k]) <= d
    ensures var p := TruePosition(list, due, d, i);
            (forall k :: 0 <= k < p ==> DueOf(due, list[k]) <= d)
            && (forall k :: p <= k < |list| ==> d <= DueOf(due, list[k]))
    decreases |list| - i
  {
    if i < |list| && DueOf(due, list[i]) < d {
      TruePositionIs(list, due, d, i + 1);
    }
  }

  lemma InsertSorted(list: seq<Id>, due: map<Id, nat>, p: nat, id: Id)
    requires p <= |list| && Sorted(list, due)
    requires (forall k :: 0 <= k < p ==> DueOf(due, list[k]) <= DueOf(due, id))
    requires (forall k :: p <= k < |list| ==> DueOf(due, id) <= DueOf(due, list[k]))
    ensures Sorted(Inserted(list, p, id), due)
  {
    var l := Inserted(list, p, id);
    assert forall k :: 0 <= k < p ==> l[k] == list[k];
    assert l[p] == id;
    assert forall k :: p < k < |l| ==> l[k] == list[k - 1];
  }

  /** Deadlines of other timers do not matter to a list. */
  lemma OtherDue(list: seq<Id>, due: map<Id, nat>, id: Id, d: nat)
    requires id !in list
    ensures Sorted(list, due[id := d]) <==> Sorted(list, due)
  {
    var due' := due[id := d];
    assert forall k :: 0 <= k < |list| ==> list[k] in list && DueOf(due', list[k]) == DueOf(due, list[k]);
  }

  lemma RemoveSorted(list: seq<Id>, due: map<Id, nat>, id: Id)
    requires Distinct(list) && Sorted(list, due)
    ensures Distinct(Without(list, id)) && Sorted(Without(list, id), due)
    ensures forall x :: x in Without(list, id) <==> x in list && x != id
  {
    if id in list {
      WithoutKeepsOthers(list, id);
      hide Distinct, Sorted, Without;
      var k := WithoutIs(list, id);
      CutSorted(list, due, k);
    } else {
      WithoutNothing(list, id);
    }
  }

  lemma CutSorted(list: seq<Id>, due: map<Id, nat>, k: nat)
    requires Sorted(list, due) && k < |list|
    ensures Sorted(list[..k] + list[k + 1..], due)
  {
    var l := list[..k] + list[k + 1..];
    assert forall i :: 0 <= i < |l| ==> l[i] == list[if i < k then i else i + 1];
  }

  /** Writing the deadline of a timer that is not listed. */
  lemma WrittenKeeps(s: System, id: Id, d: nat, lo: nat)
    requires Inv(s, lo) && id < |s.timers| && id !in s.list
    ensures Inv(Written(s, id, d), lo)
  {
    hide Sorted, Distinct;
    OtherDue(s.list, s.due, id, d);
  }

  /** A deadline that is ahead is near all listed ones. */
  lemma AheadNear(s: System, d: nat, lo: nat)
    requires Inv(s, lo) && s.now <= lo <= d < s.now + HALF
    ensures Near(s.list, s.due, d)
  {
    hide Sorted, Distinct, Fields;
    assert forall k :: 0 <= k < |s.list| ==> s.list[k] in s.list;
  }

  /** Linking keeps the invariant iff the timer is not on the list already, and its deadline is ahead. */
  lemma LinkedKeeps(s: System, id: Id, lo: nat)
    requires Inv(s, lo) && id < |s.timers| && s.now <= lo
    ensures Inv(Linked(s, id), lo) <==> id !in s.list && lo <= DueOf(s.due, id) < s.now + HALF
  {
    var d := DueOf(s.due, id);
    var p := Position(s.list, s.due, d, 0);
    InsertedIs(s.list, p, id);
    TwiceNotDistinct(s.list, p, id);
    if id !in s.list && lo <= d < s.now + HALF {
      LinkedSorted(s, id, lo);
    }
    hide Sorted, Distinct, Inserted, Position;
  }

  lemma LinkedSorted(s: System, id: Id, lo: nat)
    requires Inv(s, lo) && s.now <= lo <= DueOf(s.due, id) < s.now + HALF
    ensures Sorted(Inserted(s.list, Position(s.list, s.due, DueOf(s.due, id), 0), id), s.due)
  {
    var d := DueOf(s.due, id);
    AheadNear(s, d, lo);
    hide Sorted, Distinct, Inserted, Position, TruePosition, Ahead, Fields, Near;
    PositionNear(s.list, s.due, d, 0);
    TruePositionIs(s.list, s.due, d, 0);
    InsertSorted(s.list, s.due, TruePosition(s.list, s.due, d, 0), id);
  }

  lemma TwiceNotDistinct(list: seq<Id>, p: nat, id: Id)
    requires p <= |list|
    ensures id in list ==> !Distinct(Inserted(list, p, id))
  {
    if id in list {
      var i :| 0 <= i < |list| && list[i] == id;
      var l := Inserted(list, p, id);
      assert l[p] == id && l[if i < p then i else i + 1] == id;
    }
  }

  lemma UnlinkedKeeps(s: System, id: Id, lo: nat)
    requires Inv(s, lo)
    ensures Inv(Unlinked(s, id), lo) && forall x :: x in Unlinked(s, id).list <==> x in s.list && x != id
  {
    hide Sorted, Distinct, Without;
    RemoveSorted(s.list, s.due, id);
  }

  /** Clearing the flag keeps the invariant iff the timer is not listed. */
  lemma ClearedKeeps(s: System, id: Id, lo: nat)
    requires Inv(s, lo) && id < |s.timers|
    ensures Inv(Cleared(s, id), lo) <==> id !in s.list
  {
    hide Sorted, Distinct;
  }

  lemma StartedKeeps(s: System, id: Id, lo: nat)
    requires Inv(s, lo) && id < |s.timers| && s.now <= lo <= s.now + 1
    ensures Inv(Started(s, id), lo)
  {
    hide Sorted, Distinct, Linked;
    if !s.timers[id].activated {
      WrittenKeeps(s, id, s.now + s.timers[id].init, lo);
      LinkedKeeps(Written(s, id, s.now + s.timers[id].init), id, lo);
    }
  }

  lemma StoppedKeeps(s: System, id: Id, lo: nat)
    requires Inv(s, lo) && id < |s.timers|
    ensures Inv(Stopped(s, id), lo)
  {
    UnlinkedKeeps(s, id, lo);
    ClearedKeeps(Unlinked(s, id), id, lo);
    hide Inv, Unlinked, Cleared;
  }

  lemma ExecuteKeeps(s: System, c: Cmd, lo: nat)
    requires Inv(s, lo) && Allowed([c], |s.timers|) && s.now <= lo <= s.now + 1
    ensures Inv(Execute(s, c), lo)
  {
    assert c in [c];
    hide Sorted, Distinct, Started, Stopped;
    match c
    case Start(id) => StartedKeeps(s, id, lo);
    case Stop(id) => StoppedKeeps(s, id, lo);
    case SetTime(_, _) =>
    case SetPeriodic(_, _) =>
  }

  /** What a command does to the list: a start adds an idle timer with a later deadline, a stop takes one off. */
  lemma ExecuteList(s: System, c: Cmd, x: Id, lo: nat)
    requires Inv(s, lo) && Allowed([c], |s.timers|)
    ensures x in Execute(s, c).list <==>
              if c == Start(x) then x in s.list || !s.timers[x].activated
              else x in s.list && !(c == Stop(x) && s.timers[x].activated)
    ensures x in s.list && c != Stop(x) ==> DueOf(Execute(s, c).due, x) == DueOf(s.due, x)
    ensures x !in s.list && x in Execute(s, c).list ==> DueOf(Execute(s, c).due, x) == s.now + s.timers[x].init > s.now
  {
    assert c in [c];
    hide Sorted, Distinct, Inserted, Without, Position;
    match c
    case Start(id) =>
      InsertedIs(s.list, Position(s.list, s.due[id := s.now + s.timers[id].init], s.now + s.timers[id].init, 0), id);
    case Stop(id) => RemoveSorted(s.list, s.due, id);
    case SetTime(_, _) =>
    case SetPeriodic(_, _) =>
  }

  lemma ExecuteActive(s: System, c: Cmd, off: set<Id>, lo: nat)
    requires Inv(s, lo) && Allowed([c], |s.timers|) && ActiveListed(s, off)
    ensures ActiveListed(Execute(s, c), off)
  {
    assert c in [c];
    hide Sorted, Distinct, Inserted, Without, Position;
    match c
    case Start(id) =>
      InsertedIs(s.list, Position(s.list, s.due[id := s.now + s.timers[id].init], s.now + s.timers[id].init, 0), id);
    case Stop(id) => RemoveSorted(s.list, s.due, id);
    case SetTime(_, _) =>
    case SetPeriodic(_, _) =>
  }

  /** Commands one after the other. */
  function Executed(s: System, cmds: seq<Cmd>): (s': System)
    ensures |s'.timers| == |s.timers| && s'.now == s.now && s'.fired == s.fired
    decreases |cmds|
  {
    if cmds == [] then s else Executed(Execute(s, cmds[0]), cmds[1..])
  }

  /** Timers that the running check still has to fire. */
  ghost function Overdue(s: System): set<Id> {
    set id | id in s.list && DueOf(s.due, id) <= s.now
  }

  lemma FirstAllowed(cmds: seq<Cmd>, n: nat)
    requires Allowed(cmds, n) && cmds != []
    ensures Allowed([cmds[0]], n) && Allowed(cmds[1..], n)
  {
  }

  lemma ExecuteOverdue(s: System, c: Cmd, lo: nat)
    requires Inv(s, lo) && Allowed([c], |s.timers|)
    ensures Overdue(Execute(s, c)) <= Overdue(s)
  {
    hide Distinct, Sorted, Fields, Execute, Allowed;
    forall x | x in Overdue(Execute(s, c))
      ensures x in Overdue(s)
    {
      ExecuteList(s, c, x, lo);
    }
  }

  lemma {:induction false} ExecutedKeeps(s: System, cmds: seq<Cmd>, lo: nat, off: set<Id>)
    requires Inv(s, lo) && Allowed(cmds, |s.timers|) && s.now <= lo <= s.now + 1
    ensures Inv(Executed(s, cmds), lo) && Overdue(Executed(s, cmds)) <= Overdue(s)
    ensures ActiveListed(s, off) ==> ActiveListed(Executed(s, cmds), off)
    decreases |cmds|
  {
    hide Inv, Execute, Allowed, ActiveListed, Overdue;
    if cmds != [] {
      FirstAllowed(cmds, |s.timers|);
      ExecuteKeeps(s, cmds[0], lo);
      ExecuteOverdue(s, cmds[0], lo);
      if ActiveListed(s, off) { ExecuteActive(s, cmds[0], off, lo); }
      ExecutedKeeps(Execute(s, cmds[0]), cmds[1..], lo, off);
    }
  }

  // ---------------------------------------------------------------- restarting the own timer

  /** A timer on the list after its own timeout function was started again and not stopped after that. */
  lemma {:induction false} ListedAfter(s: System, cmds: seq<Cmd>, self: Id, lo: nat)
    requires Inv(s, lo) && Allowed(cmds, |s.timers|) && s.now <= lo <= s.now + 1 && self < |s.timers|
    ensures self in Executed(s, cmds).list <==>
              if !s.timers[self].activated then StartsLast(cmds, self)
              else if self in s.list then Stop(self) !in cmds || !EndsUnlinked(cmds, self)
              else !EndsUnlinked(cmds, self)
    decreases |cmds|
  {
    if cmds != [] {
      var c, rest, s1 := cmds[0], cmds[1..], Execute(s, cmds[0]);
      FirstAllowed(cmds, |s.timers|);
      ExecuteKeeps(s, c, lo);
      ExecuteList(s, c, self, lo);
      SelfFlag(s, c, self);
      hide Inv, Allowed, EndsUnlinked, StartsLast, Execute;
      ListedAfter(s1, rest, self, lo);
      EndsStep(cmds, self);
    } else {
      hide Inv;
    }
  }

  /** The timer is started after its last stop. */
  ghost predicate StartsLast(cmds: seq<Cmd>, self: Id) {
    exists j :: 0 <= j < |cmds| && cmds[j] == Start(self) && forall k :: j < k < |cmds| ==> cmds[k] != Stop(self)
  }

  lemma SelfFlag(s: System, c: Cmd, self: Id)
    requires self < |s.timers| && Allowed([c], |s.timers|)
    ensures Execute(s, c).timers[self].activated ==
              if c == Start(self) then true else if c == Stop(self) then false else s.timers[self].activated
  {
    assert c in [c];
  }

  lemma EndsStep(cmds: seq<Cmd>, self: Id)
    requires cmds != []
    ensures var rest := cmds[1..];
            && (cmds[0] == Stop(self) ==> (EndsUnlinked(cmds, self) <==> !StartsLast(rest, self)))
            && (cmds[0] != Stop(self) ==> (EndsUnlinked(cmds, self) <==> EndsUnlinked(rest, self)))
            && (cmds[0] != Start(self) ==> (StartsLast(cmds, self) <==> StartsLast(rest, self)))
            && (cmds[0] == Start(self) ==>
                  (StartsLast(cmds, self) <==> Stop(self) !in rest || StartsLast(rest, self)))
            && (Stop(self) in cmds <==> cmds[0] == Stop(self) || Stop(self) in rest)
  {
  }

  // ---------------------------------------------------------------- the check

  /** The first timer has been unlinked, and its function is about to be called. */
  function Popped(s: System): System
    requires s.list != []
  {
    var id := s.list[0];
    s.(list := s.list[1..], fired := s.fired + [Firing(id, DueOf(s.due, id), s.now)])
  }

  /** The function has returned: a periodic timer that is still active starts again, any other becomes inactive. */
  function Rearmed(s: System, id: Id): System {
    if id >= |s.timers| then s
    else if s.timers[id].periodic && s.timers[id].activated then Started(Cleared(s, id), id)
    else Cleared(s, id)
  }

  /** One round of rt_timer_check. */
  function Fired(s: System, script: Script): System
    requires s.list != []
  {
    Rearmed(Executed(Popped(s), script(|s.fired|, s.list[0])), s.list[0])
  }

  lemma HeadPopped(s: System)
    requires Inv(s, s.now) && s.list != [] && DueOf(s.due, s.list[0]) <= s.now
    ensures var id := s.list[0];
            && Inv(Popped(s), s.now) && DueOf(s.due, id) == s.now && id < |s.timers| && s.timers[id].activated
            && (forall x :: x in s.list <==> x == id || x in s.list[1..]) && id !in s.list[1..]
            && Overdue(Popped(s)) == Overdue(s) - {id}
    ensures forall off: set<Id> :: ActiveListed(s, off) ==> ActiveListed(Popped(s), off + {s.list[0]})
  {
    hide Sorted, Distinct;
    TailOrdered(s.list, s.due);
  }

  lemma TailOrdered(list: seq<Id>, due: map<Id, nat>)
    requires list != [] && Distinct(list) && Sorted(list, due)
    ensures Distinct(list[1..]) && Sorted(list[1..], due)
    ensures (forall x :: x in list <==> x == list[0] || x in list[1..]) && list[0] !in list[1..]
  {
    DistinctTail(list);
    assert forall i :: 0 <= i < |list| - 1 ==> list[1..][i] == list[i + 1];
  }

  /** Starting a timer again whose delay is in range. */
  lemma RestartKeeps(s: System, id: Id)
    requires Inv(s, s.now) && id < |s.timers| && !s.timers[id].activated
    ensures Inv(Started(s, id), s.now) && Overdue(Started(s, id)) <= Overdue(s)
    ensures forall off: set<Id> :: ActiveListed(s, off) ==> ActiveListed(Started(s, id), off)
  {
    hide Inv, ActiveListed, Execute;
    assert Execute(s, Start(id)) == Started(s, id) by { StartIs(s, id); }
    assert Allowed([Start(id)], |s.timers|);
    ExecuteKeeps(s, Start(id), s.now);
    ExecuteOverdue(s, Start(id), s.now);
    forall off: set<Id> | ActiveListed(s, off)
      ensures ActiveListed(Started(s, id), off)
    {
      ExecuteActive(s, Start(id), off, s.now);
    }
  }

  lemma StartIs(s: System, id: Id)
    requires id < |s.timers|
    ensures Execute(s, Start(id)) == Started(s, id)
  {
  }

  /** After its function has returned, the timer must not be on the list: then clearing the flag, and starting a periodic
      timer again, keep the invariant. Otherwise a one-shot timer stays on the list with its flag clear, and a periodic
      one is linked a second time. */
  lemma RearmedKeeps(s: System, id: Id)
    requires Inv(s, s.now) && id < |s.timers|
    ensures Inv(Rearmed(s, id), s.now) <==> id !in s.list
    ensures id !in s.list ==> Overdue(Rearmed(s, id)) <= Overdue(s)
    ensures id !in s.list ==>
      forall off: set<Id> :: ActiveListed(s, off + {id}) ==> ActiveListed(Rearmed(s, id), off)
  {
    ClearedKeeps(s, id, s.now);
    var s1 := Cleared(s, id);
    if id !in s.list {
      RestartKeeps(s1, id);
      hide Inv;
    } else if s.timers[id].periodic && s.timers[id].activated {
      RestartedTwice(s1, id);
    }
  }

  lemma RestartedTwice(s: System, id: Id)
    requires id < |s.timers| && !s.timers[id].activated && id in s.list
    ensures !Inv(Started(s, id), s.now)
  {
    var s1 := Written(s, id, s.now + s.timers[id].init);
    TwiceNotDistinct(s.list, Position(s1.list, s1.due, DueOf(s1.due, id), 0), id);
  }

  /** A round of the check keeps the invariant iff the timeout function does not start its own timer after its last stop of
      it. */
  lemma RoundKeeps(s: System, script: Script)
    requires Inv(s, s.now) && s.list != [] && DueOf(s.due, s.list[0]) <= s.now
    requires Allowed(script(|s.fired|, s.list[0]), |s.timers|)
    ensures Inv(Fired(s, script), s.now) <==> EndsUnlinked(script(|s.fired|, s.list[0]), s.list[0])
  {
    var id, cmds := s.list[0], script(|s.fired|, s.list[0]);
    HeadPopped(s);
    ListedAfter(Popped(s), cmds, id, s.now);
    ExecutedKeeps(Popped(s), cmds, s.now, {});
    hide Inv, Executed, EndsUnlinked, Allowed, Rearmed;
    RearmedKeeps(Executed(Popped(s), cmds), id);
  }

  lemma FiredKeeps(s: System, script: Script)
    requires Inv(s, s.now) && GoodScript(script, |s.timers|) && s.list != [] && DueOf(s.due, s.list[0]) <= s.now
    ensures var s' := Fired(s, script);
            Inv(s', s.now) && s'.now == s.now && |s'.timers| == |s.timers| && Overdue(s') <= Overdue(s) - {s.list[0]}
    ensures Fired(s, script).fired == s.fired + [Firing(s.list[0], s.now, s.now)]
    ensures forall off: set<Id> :: ActiveListed(s, off) ==> ActiveListed(Fired(s, script), off)
  {
    var id, cmds := s.list[0], script(|s.fired|, s.list[0]);
    assert Allowed(cmds, |s.timers|) && EndsUnlinked(cmds, id);
    HeadPopped(s);
    ListedAfter(Popped(s), cmds, id, s.now);
    hide Inv, Executed, EndsUnlinked, Allowed, GoodScript, ActiveListed, Overdue;
    ExecutedKeeps(Popped(s), cmds, s.now, {});
    RearmedKeeps(Executed(Popped(s), cmds), id);
    forall off: set<Id> | ActiveListed(s, off)
      ensures ActiveListed(Fired(s, script), off)
    {
      ExecutedKeeps(Popped(s), cmds, s.now, off + {id});
    }
  }

  /** rt_timer_check: rounds until the list is empty or its first timer is due later. It ends, because what a round
      starts is due later. */
  ghost function Checked(s: System, script: Script): System
    requires Inv(s, s.now) && GoodScript(script, |s.timers|)
    decreases Overdue(s)
  {
    if s.list == [] || DueOf(s.due, s.list[0]) > s.now then s
    else
      FiredKeeps(s, script);
      assert s.list[0] in Overdue(s);
      Checked(Fired(s, script), script)
  }

  /** After the check, every listed timer is due strictly later. */
  lemma {:induction false} CheckedKeeps(s: System, script: Script, off: set<Id>)
    requires Inv(s, s.now) && GoodScript(script, |s.timers|)
    ensures var s' := Checked(s, script);
            Inv(s', s.now + 1) && s'.now == s.now && |s'.timers| == |s.timers| && s.fired <= s'.fired
            && (ActiveListed(s, off) ==> ActiveListed(s', off))
    decreases Overdue(s)
  {
    if s.list != [] && DueOf(s.due, s.list[0]) <= s.now {
      hide Fired, Inv, Sorted, ActiveListed;
      FiredKeeps(s, script);
      assert s.list[0] in Overdue(s);
      CheckedKeeps(Fired(s, script), script, off);
    } else {
      AllLater(s);
    }
  }

  lemma AllLater(s: System)
    requires Inv(s, s.now) && (s.list == [] || DueOf(s.due, s.list[0]) > s.now)
    ensures Inv(s, s.now + 1)
  {
    forall id | id in s.list
      ensures DueOf(s.due, id) > s.now
    {
      var k :| 0 <= k < |s.list| && s.list[k] == id;
    }
  }

  /** The test of rt_timer_check, on words: the deadline d seems to be reached. */
  predicate Reached(now: nat, d: nat) { Sub(now % WRAP, d % WRAP) < HALF }

  /** At most n rounds of the loop of rt_timer_check as it computes, in any state. */
  function Rounds(s: System, script: Script, n: nat): System
    decreases n
  {
    if n == 0 || s.list == [] || !Reached(s.now, DueOf(s.due, s.list[0])) then s
    else Rounds(Fired(s, script), script, n - 1)
  }

  lemma SmallerSet<T>(a: set<T>, b: set<T>)
    requires a < b
    ensures |a| < |b|
  {
    assert b == a + (b - a) && a !! (b - a);
    assert b - a != {};
  }

  /** With the invariant, that is the check by deadlines. */
  lemma {:induction false} RoundsChecked(s: System, script: Script, n: nat)
    requires Inv(s, s.now) && GoodScript(script, |s.timers|) && |Overdue(s)| <= n
    ensures Rounds(s, script, n) == Checked(s, script)
    decreases n
  {
    hide Inv, GoodScript, Fired, Overdue, Reached;
    if s.list != [] {
      HeadReached(s);
      if DueOf(s.due, s.list[0]) <= s.now {
        FiredShrinks(s, script);
        RoundsChecked(Fired(s, script), script, n - 1);
      }
    }
  }

  lemma FiredShrinks(s: System, script: Script)
    requires Inv(s, s.now) && GoodScript(script, |s.timers|) && s.list != [] && DueOf(s.due, s.list[0]) <= s.now
    ensures var s1 := Fired(s, script);
            && Inv(s1, s.now) && s1.now == s.now && |s1.timers| == |s.timers| && |Overdue(s1)| < |Overdue(s)|
            && Checked(s, script) == Checked(s1, script)
  {
    FiredKeeps(s, script);
    assert s.list[0] in Overdue(s);
    hide Inv, GoodScript, Fired, Overdue;
    SmallerSet(Overdue(Fired(s, script)), Overdue(s));
  }

  lemma HeadReached(s: System)
    requires Inv(s, s.now) && s.list != []
    ensures Reached(s.now, DueOf(s.due, s.list[0])) <==> DueOf(s.due, s.list[0]) <= s.now
  {
    HeadNear(s);
    ModularOrder(s.now, DueOf(s.due, s.list[0]));
  }

  lemma HeadNear(s: System)
    requires Inv(s, s.now) && s.list != []
    ensures s.now < DueOf(s.due, s.list[0]) + HALF && DueOf(s.due, s.list[0]) < s.now + HALF
  {
    assert s.list[0] in s.list;
  }
}
