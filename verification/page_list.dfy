/** The free pages of the slab allocator: runs of pages in the order of their addresses (rt_page_alloc and rt_page_free of
    slab.c). Pages are numbered. */
module PageList {
  import opened Prelude
  import opened LinkedRuns

  /** Strictly sorted, not touching each other, above `low`. */
  ghost predicate Sorted(free: seq<Run>, low: int)
    decreases |free|
  {
    free == [] || (free[0].start > low && free[0].count > 0 && Sorted(free[1..], free[0].start + free[0].count))
  }

  predicate Covers(r: Run, p: nat) { r.start <= p < r.start + r.count }

  /** Page p is free. */
  ghost predicate IsFree(free: seq<Run>, p: nat) { exists i :: 0 <= i < |free| && Covers(free[i], p) }

  function Count(free: seq<Run>): nat {
    if free == [] then 0 else free[0].count + Count(free[1..])
  }

  /** rt_page_alloc for n > 0 pages: the first run that is large enough. */
  function Alloc(free: seq<Run>, n: nat): (seq<Run>, Option<nat>)
    decreases |free|
  {
    if free == [] then ([], None)
    else
      var b := free[0];
      if b.count > n then ([Run(b.start + n, b.count - n)] + free[1..], Some(b.start))
      else if b.count == n then (free[1..], Some(b.start))
      else
        var (rest, r) := Alloc(free[1..], n);
        ([b] + rest, r)
  }

  /** rt_page_free of n > 0 pages from `start` on. */
  function Released(free: seq<Run>, start: nat, n: nat): seq<Run>
    decreases |free|
  {
    if free == [] then [Run(start, n)]
    else
      var b, rest := free[0], free[1..];
      if b.start + b.count == start then
        if rest != [] && start + n == rest[0].start then [Run(b.start, b.count + n + rest[0].count)] + rest[1..]
        else [Run(b.start, b.count + n)] + rest
      else if b.start == start + n then [Run(start, b.count + n)] + rest
      else if b.start > start + n then [Run(start, n)] + free
      else [b] + Released(rest, start, n)
  }

  lemma FreeCons(b: Run, rest: seq<Run>, p: nat)
    ensures IsFree([b] + rest, p) <==> Covers(b, p) || IsFree(rest, p)
  {
    var list := [b] + rest;
    if Covers(b, p) {
      assert list[0] == b;
    }
    if IsFree(rest, p) {
      var i :| 0 <= i < |rest| && Covers(rest[i], p);
      assert list[i + 1] == rest[i];
    }
    if IsFree(list, p) && !Covers(b, p) {
      var i :| 0 <= i < |list| && Covers(list[i], p);
      assert rest[i - 1] == list[i];
    }
  }

  /** Free pages are above the lower bound. */
  lemma {:induction false} AboveLow(free: seq<Run>, low: int, p: nat)
    requires Sorted(free, low) && IsFree(free, p)
    ensures p > low
    decreases |free|
  {
    assert free == [free[0]] + free[1..];
    FreeCons(free[0], free[1..], p);
    if !Covers(free[0], p) {
      AboveLow(free[1..], free[0].start + free[0].count, p);
    }
  }

  lemma SortedLower(free: seq<Run>, low: int, low': int)
    requires Sorted(free, low) && low' <= low
    ensures Sorted(free, low')
  {
  }

  /** An allocation fails iff no run has n pages. */
  lemma {:induction false} AllocComplete(free: seq<Run>, n: nat)
    requires n > 0
    ensures Alloc(free, n).1.None? <==> forall i :: 0 <= i < |free| ==> free[i].count < n
    ensures Alloc(free, n).1.None? ==> Alloc(free, n).0 == free
    decreases |free|
  {
    if free != [] {
      AllocComplete(free[1..], n);
      assert forall i :: 0 < i < |free| ==> free[i] == free[1..][i - 1];
      if Alloc(free, n).1.Some? && free[0].count < n {
        var i :| 0 <= i < |free[1..]| && free[1..][i].count >= n;
        assert free[i + 1].count >= n;
      }
    }
  }

  /** A successful one takes n free pages, exactly these, and keeps the list sorted. */
  lemma {:induction false} AllocKeeps(free: seq<Run>, low: int, n: nat)
    requires Sorted(free, low) && n > 0 && Alloc(free, n).1.Some?
    ensures var (free', r) := Alloc(free, n);
            && Sorted(free', low) && r.value > low && Count(free') + n == Count(free)
            && (forall p: nat :: r.value <= p < r.value + n ==> IsFree(free, p))
            && (forall p: nat :: IsFree(free', p) <==> IsFree(free, p) && !(r.value <= p < r.value + n))
    decreases |free|
  {
    var b, rest := free[0], free[1..];
    var (free', r) := Alloc(free, n);
    assert free == [b] + rest;
    if b.count < n {
      AllocKeeps(rest, b.start + b.count, n);
    }
    forall p: nat
      ensures r.value <= p < r.value + n ==> IsFree(free, p)
      ensures IsFree(free', p) <==> IsFree(free, p) && !(r.value <= p < r.value + n)
    {
      FreeCons(b, rest, p);
      if IsFree(rest, p) {
        AboveLow(rest, b.start + b.count, p);
      }
      if b.count > n {
        FreeCons(Run(b.start + n, b.count - n), rest, p);
      } else if b.count < n {
        FreeCons(b, Alloc(rest, n).0, p);
      }
    }
    if b.count > n {
      assert free'[1..] == rest;
    } else if b.count < n {
      assert free'[1..] == Alloc(rest, n).0;
    } else {
      SortedLower(rest, b.start + b.count, low);
    }
  }

  /** The pages come from the front of the first run that has enough. */
  lemma {:induction false} AllocFirst(free: seq<Run>, n: nat)
    requires Alloc(free, n).1.Some?
    ensures exists k :: FirstFit(free, n, k) && free[k].start == Alloc(free, n).1.value
  {
    if free[0].count >= n {
      assert FirstFit(free, n, 0);
    } else {
      AllocFirst(free[1..], n);
      var k :| FirstFit(free[1..], n, k) && free[1..][k].start == Alloc(free[1..], n).1.value;
      assert FirstFit(free, n, k + 1);
    }
  }

  ghost predicate FirstFit(free: seq<Run>, n: nat, k: int) {
    0 <= k < |free| && free[k].count >= n && forall j :: 0 <= j < k ==> free[j].count < n
  }

  /** The pages are not free. */
  ghost predicate Taken(free: seq<Run>, start: nat, n: nat) {
    forall p: nat :: start <= p < start + n ==> !IsFree(free, p)
  }

  lemma TakenRest(free: seq<Run>, start: nat, n: nat)
    requires free != [] && Taken(free, start, n) && n > 0 && free[0].count > 0
    ensures Taken(free[1..], start, n)
    ensures free[0].start + free[0].count <= start || start + n <= free[0].start
  {
    var b, rest := free[0], free[1..];
    assert free == [b] + rest;
    forall p: nat | start <= p < start + n
      ensures !IsFree(rest, p) && !Covers(b, p)
    {
      FreeCons(b, rest, p);
    }
    assert !(start <= b.start < start + n) by { assert Covers(b, b.start); }
    assert !Covers(b, start);
  }

  lemma {:induction false} ReleasedIs(free: seq<Run>, low: int, start: nat, n: nat, p: nat)
    requires Sorted(free, low) && n > 0 && Taken(free, start, n)
    ensures IsFree(Released(free, start, n), p) <==> IsFree(free, p) || start <= p < start + n
    decreases |free|
  {
    FreeCons(Run(start, n), free, p);
    if free == [] {
      assert Released(free, start, n) == [Run(start, n)] + free;
    } else {
      var b, rest := free[0], free[1..];
      assert free == [b] + rest;
      FreeCons(b, rest, p);
      TakenRest(free, start, n);
      if b.start + b.count == start {
        FreeCons(Run(b.start, b.count + n), rest, p);
        if rest != [] {
          assert rest == [rest[0]] + rest[1..];
          FreeCons(rest[0], rest[1..], p);
          FreeCons(Run(b.start, b.count + n + rest[0].count), rest[1..], p);
        }
      } else if b.start == start + n {
        FreeCons(Run(start, b.count + n), rest, p);
      } else if b.start <= start + n {
        FreeCons(b, Released(rest, start, n), p);
        ReleasedIs(rest, b.start + b.count, start, n, p);
      }
    }
  }

  /** Freeing taken pages keeps the list sorted and joins what touches. */
  lemma {:induction false} ReleasedKeeps(free: seq<Run>, low: int, start: nat, n: nat)
    requires Sorted(free, low) && n > 0 && start > low && Taken(free, start, n)
    ensures Sorted(Released(free, start, n), low) && Count(Released(free, start, n)) == Count(free) + n
    decreases |free|
  {
    if free != [] {
      var b, rest := free[0], free[1..];
      TakenRest(free, start, n);
      if b.start + b.count == start {
        if rest != [] {
          TakenRest(rest, start, n);
        }
      } else if b.start != start + n && b.start <= start + n {
        assert b.start + b.count < start;
        ReleasedKeeps(rest, b.start + b.count, start, n);
        assert Released(free, start, n)[1..] == Released(rest, start, n);
      } else if b.start > start + n {
        assert ([Run(start, n)] + free)[1..] == free;
      }
    }
  }

  /** Freeing what has just been allocated restores the list. */
  lemma {:induction false} RoundTrip(free: seq<Run>, low: int, n: nat)
    requires Sorted(free, low) && n > 0 && Alloc(free, n).1.Some?
    ensures Released(Alloc(free, n).0, Alloc(free, n).1.value, n) == free
    decreases |free|
  {
    var b, rest := free[0], free[1..];
    assert free == [b] + rest;
    if b.count > n {
      assert ([Run(b.start + n, b.count - n)] + rest)[1..] == rest;
    } else if b.count == n {
      assert rest != [] ==> rest[0].start > b.start + n;
    } else {
      RoundTrip(rest, b.start + b.count, n);
      AllocKeeps(rest, b.start + b.count, n);
      var (rest', r) := Alloc(rest, n);
      assert ([b] + rest')[1..] == rest';
    }
  }

  /** The pages determine the list: two sorted lists of the same pages are equal. */
  lemma {:induction false} Canonical(a: seq<Run>, b: seq<Run>, low: int)
    requires Sorted(a, low) && Sorted(b, low) && forall p: nat :: IsFree(a, p) <==> IsFree(b, p)
    ensures a == b
    decreases |a|
  {
    if a == [] || b == [] {
      EmptyList(a, b);
    } else {
      assert a == [a[0]] + a[1..] && b == [b[0]] + b[1..];
      FirstRun(a, b, low);
      FirstRun(b, a, low);
      forall p: nat
        ensures IsFree(a[1..], p) <==> IsFree(b[1..], p)
      {
        FreeCons(a[0], a[1..], p);
        FreeCons(b[0], b[1..], p);
        if IsFree(a[1..], p) { AboveLow(a[1..], a[0].start + a[0].count, p); }
        if IsFree(b[1..], p) { AboveLow(b[1..], b[0].start + b[0].count, p); }
      }
      Canonical(a[1..], b[1..], a[0].start + a[0].count);
    }
  }

  lemma EmptyList(a: seq<Run>, b: seq<Run>)
    requires a == [] || b == []
    requires (a != [] ==> a[0].count > 0) && (b != [] ==> b[0].count > 0)
    requires forall p: nat :: IsFree(a, p) <==> IsFree(b, p)
    ensures a == b
  {
    if a != [] { assert Covers(a[0], a[0].start); assert IsFree(a, a[0].start); }
    if b != [] { assert Covers(b[0], b[0].start); assert IsFree(b, b[0].start); }
  }

  /** The first runs: b's does not start later than a's, and does not end later when they start together. */
  lemma FirstRun(a: seq<Run>, b: seq<Run>, low: int)
    requires a != [] && b != [] && Sorted(a, low) && Sorted(b, low) && forall p: nat :: IsFree(a, p) <==> IsFree(b, p)
    ensures b[0].start <= a[0].start && (b[0].start == a[0].start ==> b[0].count <= a[0].count)
  {
    assert b == [b[0]] + b[1..] && a == [a[0]] + a[1..];
    var s, e := a[0].start, a[0].start + a[0].count;
    assert Covers(a[0], s) && IsFree(a, s);
    FreeCons(b[0], b[1..], s);
    if IsFree(b[1..], s) { AboveLow(b[1..], b[0].start + b[0].count, s); }
    FreeCons(a[0], a[1..], e);
    FreeCons(b[0], b[1..], e);
    if IsFree(a[1..], e) { AboveLow(a[1..], e, e); }
  }

  /** rt_page_init: all the pages are free. */
  lemma InitialPages(start: nat, n: nat)
    requires n > 0
    ensures Released([], start, n) == [Run(start, n)] && Sorted([Run(start, n)], start - 1) && Count([Run(start, n)]) == n
    ensures forall p: nat :: IsFree([Run(start, n)], p) <==> start <= p < start + n
  {
    var list := [Run(start, n)];
    assert list[1..] == [];
    forall p: nat
      ensures IsFree(list, p) <==> start <= p < start + n
    {
      FreeCons(Run(start, n), [], p);
      assert list == [Run(start, n)] + [];
    }
  }

  // ---------------------------------------------------------------- pages handed out

  /** The allocator with the runs it has handed out: `areas` maps the first page to the number of pages. */
  datatype Pages = Pages(size: nat, free: seq<Run>, areas: map<nat, nat>)

  ghost predicate InArea(ps: Pages, a: nat, p: nat) { a in ps.areas && a <= p < a + ps.areas[a] }

  /** The free list is sorted and joined up; every page is free or in an area, and in no two of these. */
  ghost predicate PagesOk(ps: Pages) {
    && Sorted(ps.free, -1)
    && (forall p: nat :: IsFree(ps.free, p) ==> p < ps.size)
    && (forall a :: a in ps.areas ==> ps.areas[a] > 0 && a + ps.areas[a] <= ps.size && Taken(ps.free, a, ps.areas[a]))
    && (forall a, b :: a in ps.areas && b in ps.areas && a < b ==> a + ps.areas[a] <= b)
    && (forall p: nat :: p < ps.size ==> IsFree(ps.free, p) || exists a :: InArea(ps, a, p))
  }

  function Take(ps: Pages, n: nat): (Pages, Option<nat>) {
    if n == 0 then (ps, None)
    else
      match Alloc(ps.free, n).1
      case None => (ps, None)
      case Some(a) => (Pages(ps.size, Alloc(ps.free, n).0, ps.areas[a := n]), Some(a))
  }

  function Give(ps: Pages, a: nat): Pages
    requires a in ps.areas
  {
    Pages(ps.size, Released(ps.free, a, ps.areas[a]), ps.areas - {a})
  }

  /** Free pages are in no area. */
  lemma FreeApart(ps: Pages, a: nat, n: nat)
    requires PagesOk(ps) && n > 0 && forall p: nat :: a <= p < a + n ==> IsFree(ps.free, p)
    ensures a !in ps.areas && a + n <= ps.size
    ensures forall b :: b in ps.areas ==> b + ps.areas[b] <= a || a + n <= b
  {
    hide Sorted, IsFree;
    assert IsFree(ps.free, a) && IsFree(ps.free, a + n - 1);
    forall b | b in ps.areas
      ensures b + ps.areas[b] <= a || a + n <= b
    {
      assert !IsFree(ps.free, b) && !(b <= a < b + ps.areas[b]);
    }
  }

  lemma TakeKeeps(ps: Pages, n: nat)
    requires PagesOk(ps) && Take(ps, n).1.Some?
    ensures PagesOk(Take(ps, n).0) && Take(ps, n).1.value !in ps.areas
    ensures forall b :: b in ps.areas ==> b + ps.areas[b] <= Take(ps, n).1.value || Take(ps, n).1.value + n <= b
  {
    hide Sorted, IsFree, Alloc;
    AllocKeeps(ps.free, -1, n);
    var ps', a := Take(ps, n).0, Take(ps, n).1.value;
    FreeApart(ps, a, n);
    forall p: nat | p < ps.size
      ensures IsFree(ps'.free, p) || exists b :: InArea(ps', b, p)
    {
      if a <= p < a + n {
        assert InArea(ps', a, p);
      } else if !IsFree(ps.free, p) {
        var b :| InArea(ps, b, p);
        assert InArea(ps', b, p);
      }
    }
  }

  lemma GiveKeeps(ps: Pages, a: nat)
    requires PagesOk(ps) && a in ps.areas
    ensures PagesOk(Give(ps, a)) && Count(Give(ps, a).free) == Count(ps.free) + ps.areas[a]
  {
    var ps', n := Give(ps, a), ps.areas[a];
    ReleasedKeeps(ps.free, -1, a, n);
    forall p: nat
      ensures IsFree(ps'.free, p) <==> IsFree(ps.free, p) || a <= p < a + n
    {
      ReleasedIs(ps.free, -1, a, n, p);
    }
    hide Sorted, IsFree, Released;
    forall b | b in ps'.areas
      ensures Taken(ps'.free, b, ps'.areas[b])
    {
      assert Taken(ps.free, b, ps.areas[b]);
    }
    forall p: nat | p < ps.size
      ensures IsFree(ps'.free, p) || exists b :: InArea(ps', b, p)
    {
      if !IsFree(ps'.free, p) {
        var b :| InArea(ps, b, p);
        assert InArea(ps', b, p);
      }
    }
  }
}
