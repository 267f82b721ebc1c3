/** What the event operations of ipc.c do to the single flags: which receives get something and what, and which flags
    are left after a receive and after a send. */
module EventBits {
  import opened Prelude
  import opened Lists
  import opened IpcList
  import opened EventSpec
  import FirstBit

  /** Flag `p` is set. */
  predicate Has(v: Bits, p: nat) { p < 32 && FirstBit.IsSet(v, p) }

  /** With RT_EVENT_FLAG_AND every wanted flag is set; with RT_EVENT_FLAG_OR alone some flag is both wanted and set. */
  ghost predicate Fulfilled(now: Bits, w: Want) {
    if w.all then forall p: nat :: Has(w.bits, p) ==> Has(now, p)
    else w.any && exists p: nat :: Has(w.bits, p) && Has(now, p)
  }

  // ---------------------------------------------------------------- single bits

  predicate OneBit(m: Bits) { m & (m - 1) == 0 }

  /** A mask of one bit is inside a word or apart from it. */
  lemma InsideOrApart(v: Bits, m: Bits)
    requires OneBit(m)
    ensures Both(v, m) == 0 || Both(v, m) == m
  {
  }

  lemma PowerOfTwo(p: nat)
    requires p < 32
    ensures FirstBit.Bit(p) != 0 && OneBit(FirstBit.Bit(p))
  {
  }

  lemma BothLaws(a: Bits, b: Bits, m: Bits)
    ensures Both(Both(a, b), m) == Both(Both(a, m), b) && Both(a, b) == Both(b, a) && Both(0, b) == 0
  {
  }

  lemma MinusSplits(a: Bits, b: Bits, m: Bits)
    ensures Both(Minus(a, b), m) == Minus(Both(a, m), Both(b, m))
  {
  }

  lemma MinusLaws(a: Bits, m: Bits)
    ensures Minus(a, 0) == a && Minus(Both(a, m), m) == 0
  {
  }

  lemma OrSplits(a: Bits, b: Bits, m: Bits)
    ensures Both(Or(a, b), m) == Or(Both(a, m), Both(b, m))
  {
  }

  lemma OrLaws(a: Bits, b: Bits)
    ensures Or(0, b) == b && Or(a, 0) == a && Or(a, Both(b, a)) == a && Both(b, Or(a, b)) == b
  {
  }

  lemma MaskedBoth(a: Bits, b: Bits, m: Bits)
    requires Both(a, m) == 0 || Both(a, m) == m
    ensures Both(Both(a, b), m) == if Both(a, m) == 0 then 0 else Both(b, m)
  {
    BothLaws(a, b, m);
    BothLaws(m, b, m);
    hide Both;
  }

  lemma MaskedMinus(a: Bits, b: Bits, m: Bits)
    requires Both(b, m) == 0 || Both(b, m) == m
    ensures Both(Minus(a, b), m) == if Both(b, m) == 0 then Both(a, m) else 0
  {
    MinusSplits(a, b, m);
    MinusLaws(a, m);
    MinusLaws(Both(a, m), m);
    hide Both, Minus;
  }

  lemma MaskedOr(a: Bits, b: Bits, m: Bits)
    requires Both(a, m) == 0 || Both(a, m) == m
    ensures Both(Or(a, b), m) == if Both(a, m) == 0 then Both(b, m) else m
  {
    OrSplits(a, b, m);
    OrLaws(m, b);
    OrLaws(m, Both(b, m));
    hide Both, Or;
  }

  lemma SingleBit(v: Bits, p: nat)
    ensures p < 32 ==> Both(v, FirstBit.Bit(p)) == 0 || Both(v, FirstBit.Bit(p)) == FirstBit.Bit(p)
    ensures p < 32 ==> FirstBit.Bit(p) != 0
    ensures Has(v, p) <==> p < 32 && Both(v, FirstBit.Bit(p)) != 0
  {
    HasIs(v, p);
    hide Both, Has, OneBit, FirstBit.Bit;
    if p < 32 {
      PowerOfTwo(p);
      InsideOrApart(v, FirstBit.Bit(p));
    }
  }

  lemma HasIs(v: Bits, p: nat)
    ensures Has(v, p) <==> p < 32 && Both(v, FirstBit.Bit(p)) != 0
  {
    hide FirstBit.Bit;
  }

  lemma BothBit(a: Bits, b: Bits, p: nat)
    ensures Has(Both(a, b), p) <==> Has(a, p) && Has(b, p)
  {
    hide Both, Has, FirstBit.Bit;
    SingleBit(a, p);
    SingleBit(b, p);
    SingleBit(Both(a, b), p);
    if p < 32 {
      MaskedBoth(a, b, FirstBit.Bit(p));
    }
  }

  lemma MinusBit(a: Bits, b: Bits, p: nat)
    ensures Has(Minus(a, b), p) <==> Has(a, p) && !Has(b, p)
  {
    hide Both, Minus, Has, FirstBit.Bit;
    SingleBit(a, p);
    SingleBit(b, p);
    SingleBit(Minus(a, b), p);
    if p < 32 {
      MaskedMinus(a, b, FirstBit.Bit(p));
    }
  }

  lemma OrBit(a: Bits, b: Bits, p: nat)
    ensures Has(Or(a, b), p) <==> Has(a, p) || Has(b, p)
  {
    hide Both, Or, Has, FirstBit.Bit;
    SingleBit(a, p);
    SingleBit(b, p);
    SingleBit(Or(a, b), p);
    if p < 32 {
      MaskedOr(a, b, FirstBit.Bit(p));
    }
  }

  /** A word is zero iff no bit of it is set. */
  lemma SomeBit(v: Bits)
    ensures v != 0 <==> exists p: nat :: Has(v, p)
  {
    hide FirstBit.IsSet, FirstBit.Ffs;
    FirstBit.EmptySet(v);
    if v != 0 {
      var p :| 0 <= p < 32 && FirstBit.IsSet(v, p);
      assert Has(v, p);
    }
  }

  lemma Contained(now: Bits, bits: Bits)
    ensures Both(now, bits) == bits <==> Minus(bits, now) == 0
  {
    Parts(now, bits);
    OrLaws(Both(now, bits), Minus(bits, now));
    BothLaws(Both(now, bits), Minus(bits, now), 0);
    hide Both, Minus, Or;
  }

  lemma Parts(now: Bits, bits: Bits)
    ensures Or(Both(now, bits), Minus(bits, now)) == bits && Both(Both(now, bits), Minus(bits, now)) == 0
  {
  }

  // ---------------------------------------------------------------- receive

  /** The test on the words is the test on the flags. */
  lemma SatisfiedIs(now: Bits, w: Want)
    ensures Satisfied(now, w) <==> Fulfilled(now, w)
  {
    hide Both, Minus, Has;
    if w.all {
      Contained(now, w.bits);
      SomeBit(Minus(w.bits, now));
      forall p: nat
        ensures Has(Minus(w.bits, now), p) <==> Has(w.bits, p) && !Has(now, p)
      {
        MinusBit(w.bits, now, p);
      }
    } else {
      SomeBit(Both(now, w.bits));
      forall p: nat
        ensures Has(Both(now, w.bits), p) <==> Has(now, p) && Has(w.bits, p)
      {
        BothBit(now, w.bits, p);
      }
    }
  }

  /** What a receive gets and leaves, flag by flag. */
  ghost predicate Takes(now: Bits, w: Want, got: Bits, left: Bits) {
    && (forall p: nat :: Has(got, p) <==> Has(w.bits, p) && Has(now, p))
    && (forall p: nat :: Has(left, p) <==> Has(now, p) && !(w.clear && Has(w.bits, p)))
  }

  lemma TakesBits(now: Bits, w: Want)
    ensures Takes(now, w, Both(now, w.bits), if w.clear then Minus(now, w.bits) else now)
  {
    hide Both, Minus, Has;
    forall p: nat
      ensures Has(Both(now, w.bits), p) <==> Has(w.bits, p) && Has(now, p)
      ensures Has(Minus(now, w.bits), p) <==> Has(now, p) && !Has(w.bits, p)
    {
      BothBit(now, w.bits, p);
      MinusBit(now, w.bits, p);
    }
  }

  /** A receive gets something exactly when its condition is fulfilled: every flag that is wanted and set. It clears the
      wanted flags if it was asked to, and a receive that gets nothing changes nothing. */
  lemma ReceiveBits(now: Bits, w: Want)
    ensures Receive(now, w).0.Some? <==> Fulfilled(now, w)
    ensures Receive(now, w).0.Some? ==> Takes(now, w, Receive(now, w).0.value, Receive(now, w).1)
    ensures Receive(now, w).0 == None ==> Receive(now, w).1 == now
  {
    hide Fulfilled, Takes, Both, Minus, Satisfied;
    SatisfiedIs(now, w);
    TakesBits(now, w);
  }

  /** What a call of receive comes to. It takes its flags at once if its condition is fulfilled. If not, it changes
      nothing at all with timeout 0, and otherwise waits on the list for what it wants; the flags stay. */
  lemma RecvOutcome(e: Event, t: Thread, w: Want, timeout: int)
    ensures var e' := Recv(e, t, w, timeout);
            var got := Receive(e.bits, w).0;
            if Fulfilled(e.bits, w) then got.Some? && e' == e.(bits := e'.bits) && Takes(e.bits, w, got.value, e'.bits)
            else if timeout == 0 then e' == e
            else
              && e' == e.(waiters := e'.waiters, pc := e.pc[t := Waiting(w, timeout)])
              && Queued(e.waiters, e'.waiters, t, e.flag, e.prio)
  {
    ReceiveBits(e.bits, w);
    SatisfiedIs(e.bits, w);
    QueuedIs(e.waiters, t, e.flag, e.prio);
    hide Fulfilled, Takes, Satisfied, Receive, Queued, Suspended;
  }

  // ---------------------------------------------------------------- send

  /** Thread t waited for flag p, to clear it, and was resumed. */
  ghost predicate Served(pc: map<Thread, Pc>, pc': map<Thread, Pc>, t: Thread, p: nat) {
    At(pc, t).Waiting? && At(pc', t).Granted? && At(pc, t).want.clear && Has(At(pc, t).want.bits, p)
  }

  ghost predicate SomeServed(list: seq<Thread>, pc: map<Thread, Pc>, pc': map<Thread, Pc>, p: nat) {
    exists t :: t in list && Served(pc, pc', t, p)
  }

  /** The walk clears exactly the flags that a thread it resumes wanted cleared. */
  lemma {:induction false} WalkBits(now: Bits, list: seq<Thread>, pc: map<Thread, Pc>, p: nat)
    requires Distinct(list) && AllWait(list, pc)
    ensures Has(Walk(now, list, pc).0, p) <==> Has(now, p) && !SomeServed(list, pc, Walk(now, list, pc).2, p)
    decreases |list|
  {
    if list != [] {
      hide Satisfied, Both, Minus, Stored, Has, Distinct, AllWait;
      var t, rest, w := list[0], list[1..], At(pc, list[0]).want;
      Next(list, pc, Granted(Stored(now, w)));
      var granted := Satisfied(now, w);
      var now1, pc1 := Receive(now, w).1, if granted then pc[t := Granted(Stored(now, w))] else pc;
      var pc' := Walk(now, list, pc).2;
      WalkTail(now, list, pc);
      WalkBits(now1, rest, pc1, p);
      WalkLeavesUnsatisfied(now1, rest, pc1);
      ReceiveBits(now, w);
      assert At(pc', t) == At(pc1, t);
      assert Has(now1, p) <==> Has(now, p) && !(granted && w.clear && Has(w.bits, p)) by { ReceiveLeaves(now, w, p); }
      assert Served(pc, pc', t, p) <==> granted && w.clear && Has(w.bits, p);
      ServedSplit(list, pc, pc1, pc', p);
    }
  }

  lemma ReceiveLeaves(now: Bits, w: Want, p: nat)
    ensures Has(Receive(now, w).1, p) <==> Has(now, p) && !(Satisfied(now, w) && w.clear && Has(w.bits, p))
  {
    ReceiveBits(now, w);
    SatisfiedIs(now, w);
    hide Fulfilled, Has, Satisfied, Receive;
  }

  lemma Next(list: seq<Thread>, pc: map<Thread, Pc>, p: Pc)
    requires list != [] && Distinct(list) && AllWait(list, pc)
    ensures At(pc, list[0]).Waiting? && list[0] !in list[1..] && Distinct(list[1..])
    ensures AllWait(list[1..], pc) && AllWait(list[1..], pc[list[0] := p])
    ensures forall t :: t in list <==> t == list[0] || t in list[1..]
  {
    assert list == [list[0]] + list[1..];
  }

  /** After the first thread, the walk goes on with what a receive by it leaves. */
  lemma WalkTail(now: Bits, list: seq<Thread>, pc: map<Thread, Pc>)
    requires list != [] && At(pc, list[0]).Waiting?
    ensures var t, w := list[0], At(pc, list[0]).want;
            var walk := Walk(Receive(now, w).1, list[1..],
                             if Satisfied(now, w) then pc[t := Granted(Stored(now, w))] else pc);
            Walk(now, list, pc).0 == walk.0 && Walk(now, list, pc).2 == walk.2
  {
    hide Satisfied, Both, Minus, Stored, Receive;
    ReceiveIs(now, At(pc, list[0]).want);
  }

  lemma ServedSplit(list: seq<Thread>, pc: map<Thread, Pc>, pc1: map<Thread, Pc>, pc': map<Thread, Pc>, p: nat)
    requires list != [] && list[0] !in list[1..] && (forall t :: t in list <==> t == list[0] || t in list[1..])
    requires forall t :: t in list[1..] ==> At(pc1, t) == At(pc, t)
    ensures SomeServed(list, pc, pc', p) <==> Served(pc, pc', list[0], p) || SomeServed(list[1..], pc1, pc', p)
  {
    hide Has;
  }

  /** After a send a flag is set iff it was set or sent, and no waiting thread that was resumed wanted it cleared; with
      nobody on the list, iff it was set or sent. */
  lemma SendBits(e: Event, bits: Bits, p: nat)
    requires Inv(e) && bits != 0
    ensures Has(Send(e, bits).bits, p) <==>
            (Has(e.bits, p) || Has(bits, p)) && !SomeServed(e.waiters, e.pc, Send(e, bits).pc, p)
    ensures e.waiters == [] ==> (Has(Send(e, bits).bits, p) <==> Has(e.bits, p) || Has(bits, p))
  {
    InList(e);
    hide Inv, Has, Walk, Or, Distinct;
    OrBit(e.bits, bits, p);
    WalkBits(Or(e.bits, bits), e.waiters, e.pc, p);
  }

  lemma ReceivesFirst(now: Bits, list: seq<Thread>, pc: map<Thread, Pc>)
    requires list != [] && AllWait(list, pc)
    ensures var gots := Receives(now, list, pc).1; gots != [] && gots[0] == Receive(now, At(pc, list[0]).want).0
  {
    hide Receive;
  }

  /** A send resumes the first thread of the list iff what was set or is sent fulfils its condition; the thread gets
      exactly the flags of that it wants. */
  lemma FirstServed(e: Event, bits: Bits)
    requires Inv(e) && bits != 0 && e.waiters != []
    ensures var t := e.waiters[0];
            var w, after := At(e.pc, t).want, At(Send(e, bits).pc, t);
            && (after.Granted? <==> Fulfilled(Or(e.bits, bits), w))
            && (after.Granted? ==> forall p: nat :: Has(after.received, p) <==> Has(w.bits, p) && (Has(e.bits, p) || Has(bits, p)))
            && (!after.Granted? ==> after == At(e.pc, t))
  {
    FirstGot(e, bits);
    hide Inv, Has, Or, Fulfilled, Receive, Send;
    ReceiveBits(Or(e.bits, bits), At(e.pc, e.waiters[0]).want);
    forall p: nat
      ensures Has(Or(e.bits, bits), p) <==> Has(e.bits, p) || Has(bits, p)
    {
      OrBit(e.bits, bits, p);
    }
  }

  lemma FirstGot(e: Event, bits: Bits)
    requires Inv(e) && bits != 0 && e.waiters != []
    ensures var t := e.waiters[0];
            At(e.pc, t).Waiting? && Got(At(e.pc, t), At(Send(e, bits).pc, t), Receive(Or(e.bits, bits), At(e.pc, t).want).0)
  {
    InList(e);
    hide Inv, Or, Receive, Walk, Distinct;
    var now := Or(e.bits, bits);
    assert e.waiters[0] in e.waiters;
    WalkReceives(now, e.waiters, e.pc);
    ReceivesFirst(now, e.waiters, e.pc);
    assert Got(At(e.pc, e.waiters[0]), At(Walk(now, e.waiters, e.pc).2, e.waiters[0]), Receives(now, e.waiters, e.pc).1[0]);
  }

  /** In every reachable state no thread on the list has its condition fulfilled by the flags that are set, and none
      called with a timeout of 0. */
  lemma WaitersUnfulfilled(flag: Flag, prio: map<Thread, nat>, steps: seq<Step>, e: Event)
    requires Reaches(Initial(flag, prio), steps, e)
    ensures forall t :: t in e.waiters ==>
      At(e.pc, t).Waiting? && !Fulfilled(e.bits, At(e.pc, t).want) && At(e.pc, t).timeout != 0
  {
    hide Reaches, Fulfilled, Receive;
    NobodyWaitsForNothing(flag, prio, steps, e);
    forall t | t in e.waiters
      ensures !Fulfilled(e.bits, At(e.pc, t).want)
    {
      ReceiveBits(e.bits, At(e.pc, t).want);
    }
  }
}
