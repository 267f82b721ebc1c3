/** Singly linked lists of runs: the head of a run holds a link and a count. Free pages of slab.c and the blocks of
    finsh_heap.c are kept so. */
module LinkedRuns {
  datatype Run = Run(start: nat, count: nat)

  /** From p through the heads of these runs to q; -1 is the null pointer. */
  ghost predicate Segment(next: seq<int>, count: seq<nat>, p: int, runs: seq<Run>, q: int)
    decreases |runs|
  {
    if runs == [] then p == q
    else
      && p == runs[0].start && runs[0].start < |next| == |count| && count[p] == runs[0].count
      && Segment(next, count, next[p], runs[1..], q)
  }

  lemma {:induction false} Elsewhere(next: seq<int>, count: seq<nat>, next': seq<int>, count': seq<nat>, p: int,
                                     runs: seq<Run>, q: int)
    requires Segment(next, count, p, runs, q) && |next'| == |next| && |count'| == |count|
    requires forall r :: r in runs && r.start < |next| && r.start < |count| ==>
               next'[r.start] == next[r.start] && count'[r.start] == count[r.start]
    ensures Segment(next', count', p, runs, q)
    decreases |runs|
  {
    if runs != [] {
      assert runs[0] in runs && forall r :: r in runs[1..] ==> r in runs;
      Elsewhere(next, count, next', count', next[p], runs[1..], q);
    }
  }

  lemma {:induction false} Join(next: seq<int>, count: seq<nat>, p: int, front: seq<Run>, q: int, back: seq<Run>, r: int)
    requires Segment(next, count, p, front, q) && Segment(next, count, q, back, r)
    ensures Segment(next, count, p, front + back, r)
    decreases |front|
  {
    if front == [] {
      assert front + back == back;
    } else {
      Join(next, count, next[p], front[1..], q, back, r);
      assert (front + back)[1..] == front[1..] + back;
    }
  }

  /** The list with the link behind `front` set to x: `prev` of the source points at that link. */
  lemma {:induction false} SetLink(next: seq<int>, count: seq<nat>, p: int, front: seq<Run>, q: int, x: int)
    requires Segment(next, count, p, front, q) && front != []
    requires forall i, j :: 0 <= i < j < |front| ==> front[i].start != front[j].start
    ensures var last := front[|front| - 1].start;
            last < |next| && next[last] == q && Segment(next[last := x], count, p, front, x)
    decreases |front|
  {
    if |front| > 1 {
      assert front[1..][|front| - 2] == front[|front| - 1];
      SetLink(next, count, next[p], front[1..], q, x);
      var last := front[|front| - 1].start;
      assert last != front[0].start;
    }
  }

  /** The parts of a list that is not empty. */
  lemma RestOf(next: seq<int>, count: seq<nat>, b: int, back: seq<Run>)
    requires Segment(next, count, b, back, -1)
    ensures back == [] <==> b == -1
    ensures back != [] ==> 0 <= b < |next| == |count| && b == back[0].start && count[b] == back[0].count
                           && Segment(next, count, next[b], back[1..], -1)
  {
  }

  ghost function Last(runs: seq<Run>): int { if runs == [] then -1 else runs[|runs| - 1].start }
}
