/** rt_page_alloc and rt_page_free of slab.c in place: the head of a run is in its first page. */
module Pages {
  import opened Prelude
  import opened LinkedRuns
  import opened PageList

  /** Starts grow along a sorted list. */
  lemma {:induction false} Growing(runs: seq<Run>, low: int, i: nat, j: nat)
    requires Sorted(runs, low) && i < j < |runs|
    ensures low < runs[i].start && runs[i].start + runs[i].count < runs[j].start
    decreases |runs|
  {
    var rest := runs[1..];
    if i > 0 {
      Growing(rest, runs[0].start + runs[0].count, i - 1, j - 1);
    } else if j > 1 {
      Growing(rest, runs[0].start + runs[0].count, 0, j - 1);
    }
  }

  ghost predicate Within(runs: seq<Run>, pages: nat) { forall r :: r in runs ==> r.start + r.count <= pages }

  class PageAllocator {
    const next: array<int>
    const count: array<nat>
    var list: int
    ghost var free: seq<Run>

    ghost predicate Valid()
      reads this, next, count
    {
      next.Length == count.Length && Segment(next[..], count[..], list, free, -1) && Sorted(free, -1)
      && Within(free, next.Length)
    }

    constructor (pages: nat)
      ensures Valid() && free == [] && next.Length == pages && fresh(next) && fresh(count)
    {
      next, count := new int[pages](_ => -1), new nat[pages](_ => 0);
      list, free := -1, [];
    }

    /** *prev = x. */
    method SetPrev(prev: int, x: int, ghost front: seq<Run>, ghost q: int)
      requires next.Length == count.Length && Segment(next[..], count[..], list, front, q) && Sorted(front, -1)
      requires prev == Last(front)
      modifies `list, next
      ensures Segment(next[..], count[..], list, front, x)
      ensures forall i :: 0 <= i < next.Length && i != prev ==> next[i] == old(next[i])
    {
      if prev == -1 {
        list := x;
      } else {
        forall i, j | 0 <= i < j < |front|
          ensures front[i].start != front[j].start
        {
          Growing(front, -1, i, j);
        }
        SetLink(next[..], count[..], list, front, q, x);
        ghost var was := next[..];
        next[prev] := x;
        assert next[..] == was[prev := x];
      }
    }

    /** The list becomes `front` and then the list at x. */
    method Relink(prev: int, x: int, ghost front: seq<Run>, ghost q: int, ghost back: seq<Run>)
      requires next.Length == count.Length && Segment(next[..], count[..], list, front, q) && prev == Last(front)
      requires Segment(next[..], count[..], x, back, -1) && Sorted(front + back, -1) && Within(front + back, next.Length)
      modifies `list, `free, next
      ensures Valid() && free == front + back
    {
      ghost var was := next[..];
      Parts(front, back);
      SetPrev(prev, x, front, q);
      Elsewhere(was, count[..], next[..], count[..], x, back, -1);
      Join(next[..], count[..], list, front, x, back, -1);
      free := front + back;
    }

    /** rt_page_alloc. */
    method Alloc(n: nat) returns (page: Option<nat>)
      requires Valid()
      modifies this, next, count
      ensures Valid()
      ensures (free, page) == if n == 0 then (old(free), None) else PageList.Alloc(old(free), n)
    {
      if n == 0 {
        return None;
      }
      ghost var front, back := [], free;
      BehindNothing(PageList.Alloc(free, n));
      var prev, b := -1, list;
      while b != -1
        invariant Valid() && free == front + back == old(free)
        invariant Segment(next[..], count[..], list, front, b) && Segment(next[..], count[..], b, back, -1)
        invariant prev == Last(front)
        invariant PageList.Alloc(free, n) == Behind(front, PageList.Alloc(back, n))
        decreases |back|
      {
        if count[b] > n {
          SplitHead(prev, b, n, front, back);
          return Some(b);
        }
        if count[b] == n {
          RemoveHead(prev, b, front, back);
          return Some(b);
        }
        Step(next[..], count[..], list, front, b, back);
        BehindOne(front, back, n);
        prev, b := b, next[b];
        front, back := front + [back[0]], back[1..];
      }
      page := None;
    }

    /** The run at b is longer than n pages: its rest takes its place. */
    method SplitHead(prev: int, b: nat, n: nat, ghost front: seq<Run>, ghost back: seq<Run>)
      requires Valid() && free == front + back && back != [] && prev == Last(front) && 0 < n < back[0].count
      requires Segment(next[..], count[..], list, front, b) && Segment(next[..], count[..], b, back, -1)
      modifies `list, `free, next, count
      ensures Valid() && free == front + ([Run(b + n, back[0].count - n)] + back[1..])
    {
      hide Segment, Sorted;
      Parts(front, back);
      RestOf(next[..], count[..], b, back);
      SplitSorted(front, back, n);
      assert back[0] in free;
      ghost var was, counts := next[..], count[..];
      var rest := b + n;
      next[rest] := next[b];
      count[rest] := count[b] - n;
      assert next[..] == was[rest := was[b]] && count[..] == counts[rest := counts[b] - n];
      Elsewhere(was, counts, next[..], count[..], list, front, b);
      Elsewhere(was, counts, next[..], count[..], was[b], back[1..], -1);
      HeadSegment(next[..], count[..], Run(rest, back[0].count - n), back[1..]);
      Relink(prev, rest, front, b, [Run(rest, back[0].count - n)] + back[1..]);
    }

    /** The run at b leaves the list. */
    method RemoveHead(prev: int, b: nat, ghost front: seq<Run>, ghost back: seq<Run>)
      requires Valid() && free == front + back && back != [] && prev == Last(front)
      requires Segment(next[..], count[..], list, front, b) && Segment(next[..], count[..], b, back, -1)
      modifies `list, `free, next
      ensures Valid() && free == front + back[1..]
    {
      RemoveSorted(front, back);
      Relink(prev, next[b], front, b, back[1..]);
    }

    /** rt_page_free. */
    method Free(start: nat, n: nat)
      requires Valid() && n > 0 && start + n <= next.Length && Taken(free, start, n)
      modifies this, next, count
      ensures Valid() && free == Released(old(free), start, n)
    {
      hide Segment, Sorted, Released, Taken, Within;
      ghost var front, back := [], free;
      ReleasedWithin(free, start, n, next.Length);
      ReleasedKeeps(free, -1, start, n);
      NothingYet(next[..], count[..], list, free, start, n);
      var prev, b := -1, list;
      while b != -1
        invariant Valid() && free == front + back == old(free)
        invariant Segment(next[..], count[..], list, front, b) && Segment(next[..], count[..], b, back, -1)
        invariant prev == Last(front)
        invariant Released(free, start, n) == front + Released(back, start, n) && Taken(back, start, n)
        invariant Sorted(Released(free, start, n), -1) && Within(Released(free, start, n), next.Length)
        decreases |back|
      {
        RestOf(next[..], count[..], b, back);
        HeadCount(free, front, back);
        ReleasedCases(back, start, n);
        if b + count[b] == start {
          GrowHead(b, n, front, back);
          return;
        }
        if b == start + n {
          PutBefore(prev, start, next[b], count[b] + n, front, b, back, back[1..]);
          return;
        }
        if b > start + n {
          PutBefore(prev, start, b, n, front, b, back, back);
          return;
        }
        Step(next[..], count[..], list, front, b, back);
        TakenRest(back, start, n);
        assert front + ([back[0]] + Released(back[1..], start, n)) == front + [back[0]] + Released(back[1..], start, n);
        prev, b := b, next[b];
        front, back := front + [back[0]], back[1..];
      }
      RestOf(next[..], count[..], b, back);
      ReleasedNothing(start, n);
      assert front + Released([], start, n) == front + ([Run(start, n)] + []);
      PutBefore(prev, start, b, n, front, b, back, back);
    }

    /** A run of its own at `start`, or one that takes the place of the head of the back. */
    method PutBefore(prev: int, start: nat, link: int, n: nat, ghost front: seq<Run>, ghost b: int, ghost back: seq<Run>,
                     ghost rest: seq<Run>)
      requires Valid() && free == front + back && prev == Last(front) && start < next.Length
      requires Segment(next[..], count[..], list, front, b) && Segment(next[..], count[..], link, rest, -1)
      requires Sorted(front + ([Run(start, n)] + rest), -1) && Within(front + ([Run(start, n)] + rest), next.Length)
      modifies this, next, count
      ensures Valid() && free == front + ([Run(start, n)] + rest)
    {
      ghost var was, counts := next[..], count[..];
      ghost var back' := [Run(start, n)] + rest;
      Parts(front, back');
      assert back'[1..] == rest && back'[0] in back';
      assert n > 0 by { PartsAbove(front, back', -1); }
      count[start] := n;
      next[start] := link;
      Elsewhere(was, counts, next[..], count[..], list, front, b);
      Elsewhere(was, counts, next[..], count[..], link, rest, -1);
      Relink(prev, start, front, b, back');
    }

    /** The run at b grows by the n pages behind it, and by the next run if that follows. */
    method GrowHead(b: nat, n: nat, ghost front: seq<Run>, ghost back: seq<Run>)
      requires Valid() && free == front + back && back != [] && n > 0
      requires Segment(next[..], count[..], list, front, b) && Segment(next[..], count[..], b, back, -1)
      requires var free' := Released(back, back[0].start + back[0].count, n);
               Sorted(front + free', -1) && Within(front + free', next.Length)
      modifies this, next, count
      ensures Valid() && free == front + Released(back, back[0].start + back[0].count, n)
    {
      hide Segment, Sorted, Released;
      ghost var was, counts := next[..], count[..];
      ghost var rest := back[1..];
      RestOf(was, counts, b, back);
      RestOf(was, counts, was[b], rest);
      ReleasedBehind(back, n);
      Parts(front, back);
      assert back[0] in back;
      count[b] := count[b] + n;
      if b + count[b] == next[b] {
        var after := next[b];
        count[b] := count[b] + count[after];
        next[b] := next[after];
        ReplaceHead(was, counts, next[..], count[..], list, front, b, back, rest[1..], was[after]);
      } else {
        ReplaceHead(was, counts, next[..], count[..], list, front, b, back, rest, was[b]);
      }
      free := front + Released(back, back[0].start + back[0].count, n);
    }
  }

  lemma NothingYet(next: seq<int>, count: seq<nat>, list: int, free: seq<Run>, start: nat, n: nat)
    ensures free == [] + free && Segment(next, count, list, [], list)
    ensures [] + Released(free, start, n) == Released(free, start, n)
  {
  }

  lemma ReleasedNothing(start: nat, n: nat)
    ensures Released([], start, n) == [Run(start, n)]
  {
  }

  lemma ReleasedCases(back: seq<Run>, start: nat, n: nat)
    requires back != [] && Sorted(back, -1)
    ensures back[0].count > 0
    ensures var b := back[0];
            && (b.start == start + n ==> Released(back, start, n) == [Run(start, b.count + n)] + back[1..])
            && (b.start > start + n ==> Released(back, start, n) == [Run(start, n)] + back)
            && (b.start + b.count != start && b.start < start + n ==>
                  Released(back, start, n) == [b] + Released(back[1..], start, n))
  {
  }

  lemma ReleasedBehind(back: seq<Run>, n: nat)
    requires back != []
    ensures var b, rest := back[0], back[1..];
            Released(back, b.start + b.count, n) ==
              if rest != [] && b.start + b.count + n == rest[0].start
              then [Run(b.start, b.count + n + rest[0].count)] + rest[1..] else [Run(b.start, b.count + n)] + rest
  {
  }

  /** The head of the back changes its count and its link, and nothing else changes. */
  lemma ReplaceHead(next: seq<int>, count: seq<nat>, next': seq<int>, count': seq<nat>, p: int, front: seq<Run>, b: nat,
                    back: seq<Run>, rest: seq<Run>, link: int)
    requires Segment(next, count, p, front, b) && Segment(next, count, link, rest, -1) && b < |next| == |count|
    requires |next'| == |next| && |count'| == |count| && next' == next[b := link] && count' == count[b := count'[b]]
    requires forall r :: r in front || r in rest ==> r.start != b
    ensures Segment(next', count', p, front + ([Run(b, count'[b])] + rest), -1)
  {
    hide Segment;
    Elsewhere(next, count, next', count', p, front, b);
    Elsewhere(next, count, next', count', link, rest, -1);
    HeadSegment(next', count', Run(b, count'[b]), rest);
    Join(next', count', p, front, b, [Run(b, count'[b])] + rest, -1);
  }

  lemma HeadSegment(next: seq<int>, count: seq<nat>, r: Run, rest: seq<Run>)
    requires r.start < |next| == |count| && count[r.start] == r.count && Segment(next, count, next[r.start], rest, -1)
    ensures Segment(next, count, r.start, [r] + rest, -1)
  {
    assert ([r] + rest)[1..] == rest;
  }

  function Behind(front: seq<Run>, r: (seq<Run>, Option<nat>)): (seq<Run>, Option<nat>) { (front + r.0, r.1) }

  lemma BehindNothing(r: (seq<Run>, Option<nat>))
    ensures Behind([], r) == r
  {
    assert [] + r.0 == r.0;
  }

  lemma BehindOne(front: seq<Run>, back: seq<Run>, n: nat)
    requires back != [] && back[0].count < n
    ensures Behind(front, Alloc(back, n)) == Behind(front + [back[0]], Alloc(back[1..], n))
  {
    assert front + ([back[0]] + Alloc(back[1..], n).0) == front + [back[0]] + Alloc(back[1..], n).0;
  }

  lemma Step(next: seq<int>, count: seq<nat>, p: int, front: seq<Run>, q: int, back: seq<Run>)
    requires Segment(next, count, p, front, q) && Segment(next, count, q, back, -1) && back != []
    ensures q == back[0].start && 0 <= q < |next|
    ensures Segment(next, count, p, front + [back[0]], next[q]) && Segment(next, count, next[q], back[1..], -1)
    ensures front + back == front + [back[0]] + back[1..]
  {
    assert [back[0]][1..] == [];
    Join(next, count, p, front, q, [back[0]], next[q]);
  }

  /** The parts of a sorted list are sorted, and apart. */
  lemma Parts(front: seq<Run>, back: seq<Run>)
    requires Sorted(front + back, -1)
    ensures Sorted(front, -1)
    ensures forall f, b :: f in front && b in back ==> f.start + f.count < b.start
    ensures back != [] ==> forall b :: b in back[1..] ==> back[0].start + back[0].count < b.start
  {
    PartsAbove(front, back, -1);
    if back != [] {
      AllAbove(back[1..], back[0].start + back[0].count);
    }
  }

  lemma {:induction false} AllAbove(runs: seq<Run>, low: int)
    requires Sorted(runs, low)
    ensures forall b :: b in runs ==> b.start > low
    decreases |runs|
  {
    if runs != [] {
      AllAbove(runs[1..], runs[0].start + runs[0].count);
      assert runs == [runs[0]] + runs[1..];
    }
  }

  lemma {:induction false} PartsAbove(front: seq<Run>, back: seq<Run>, low: int)
    requires Sorted(front + back, low)
    ensures Sorted(front, low) && Sorted(back, low)
    ensures forall f, b :: f in front && b in back ==> f.start + f.count < b.start
    decreases |front|
  {
    if front == [] {
      assert front + back == back;
    } else {
      var f, rest := front[0], front[1..];
      assert (front + back)[1..] == rest + back && front == [f] + rest;
      AllAbove(rest + back, f.start + f.count);
      assert forall b :: b in back ==> b in rest + back;
      PartsAbove(rest, back, f.start + f.count);
      SortedLower(back, f.start + f.count, low);
    }
  }

  /** Replacing the back of a sorted list. */
  lemma {:induction false} Replaced(front: seq<Run>, back: seq<Run>, back': seq<Run>, low: int)
    requires Sorted(front + back, low)
    requires forall l: int :: Sorted(back, l) ==> Sorted(back', l)
    ensures Sorted(front + back', low)
    decreases |front|
  {
    if front == [] {
      assert front + back == back && front + back' == back';
    } else {
      assert (front + back)[1..] == front[1..] + back && (front + back')[1..] == front[1..] + back';
      Replaced(front[1..], back, back', front[0].start + front[0].count);
    }
  }

  lemma SplitSorted(front: seq<Run>, back: seq<Run>, n: nat)
    requires Sorted(front + back, -1) && back != [] && 0 < n < back[0].count
    ensures Sorted(front + ([Run(back[0].start + n, back[0].count - n)] + back[1..]), -1)
  {
    var back' := [Run(back[0].start + n, back[0].count - n)] + back[1..];
    assert back'[1..] == back[1..];
    Replaced(front, back, back', -1);
  }

  lemma RemoveSorted(front: seq<Run>, back: seq<Run>)
    requires Sorted(front + back, -1) && back != []
    ensures Sorted(front + back[1..], -1)
  {
    forall l: int | Sorted(back, l)
      ensures Sorted(back[1..], l)
    {
      SortedLower(back[1..], back[0].start + back[0].count, l);
    }
    Replaced(front, back, back[1..], -1);
  }

  lemma HeadCount(free: seq<Run>, front: seq<Run>, back: seq<Run>)
    requires free == front + back && Sorted(free, -1)
    ensures Sorted(back, -1)
  {
    PartsAbove(front, back, -1);
  }

  lemma {:induction false} ReleasedWithin(free: seq<Run>, start: nat, n: nat, pages: nat)
    requires Within(free, pages) && start + n <= pages
    ensures Within(Released(free, start, n), pages)
    decreases |free|
  {
    if free != [] {
      var b, rest := free[0], free[1..];
      assert free == [b] + rest;
      if rest != [] { assert rest == [rest[0]] + rest[1..]; }
      ReleasedWithin(rest, start, n, pages);
    }
  }
}
