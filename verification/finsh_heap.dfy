/** finsh_heap.c in place: the headers of the blocks hold the links of the two lists; -1 is the null pointer. */
module FinshHeaps {
  import opened Prelude
  import opened LinkedRuns
  import opened FinshHeapSpec

  ghost function StartOf(runs: seq<Run>): int { if runs == [] then -1 else runs[0].start }

  /** The list from a block on. */
  lemma {:induction false} Suffix(next: seq<int>, length: seq<nat>, p: int, front: seq<Run>, back: seq<Run>)
    requires Segment(next, length, p, front + back, -1)
    ensures Segment(next, length, p, front, StartOf(back)) && Segment(next, length, StartOf(back), back, -1)
    decreases |front|
  {
    if front == [] {
      assert front + back == back;
    } else {
      assert (front + back)[1..] == front[1..] + back;
      Suffix(next, length, next[p], front[1..], back);
    }
  }

  /** No block of the list has its header at s. */
  ghost predicate Without(runs: seq<Run>, s: int) { forall r :: r in runs ==> r.start != s }

  /** Where the newcomer goes. */
  lemma {:induction false} InsertBetween(front: seq<Run>, back: seq<Run>, b: Run)
    requires (forall r :: r in front ==> r.start < b.start) && (back != [] ==> back[0].start > b.start)
    ensures Insert(front + back, b) == front + ([b] + back)
    decreases |front|
  {
    if front == [] {
      assert front + back == back && front + ([b] + back) == [b] + back;
    } else {
      assert front[0] in front && (front + back)[1..] == front[1..] + back;
      assert forall r :: r in front[1..] ==> r in front;
      InsertBetween(front[1..], back, b);
      assert front + ([b] + back) == [front[0]] + (front[1..] + ([b] + back));
    }
  }

  lemma {:induction false} RemoveBetween(front: seq<Run>, back: seq<Run>, b: Run)
    requires Without(front, b.start)
    ensures Removed(front + ([b] + back), b.start) == front + back
    decreases |front|
  {
    if front == [] {
      assert front + ([b] + back) == [b] + back && ([b] + back)[1..] == back && front + back == back;
    } else {
      assert front[0] in front && (front + ([b] + back))[1..] == front[1..] + ([b] + back);
      assert forall r :: r in front[1..] ==> r in front;
      RemoveBetween(front[1..], back, b);
      assert front + back == [front[0]] + (front[1..] + back);
    }
  }

  /** Between `front` and x a block is put in: the links of its header and of the last block of `front` change. */
  lemma PutIn(next: seq<int>, length: seq<nat>, p: int, front: seq<Run>, node: Run, back: seq<Run>, b: Run)
    requires Segment(next, length, p, front + [node] + back, -1) && b.start < |next| == |length| && length[b.start] == b.count
    requires Without(front + [node] + back, b.start) && Without(front, node.start) && Without(back, node.start)
    ensures node.start < |next| && next[node.start] == StartOf(back)
    ensures Segment(next[b.start := StartOf(back)][node.start := b.start], length, p, front + ([node] + ([b] + back)), -1)
  {
    assert front + [node] + back == front + ([node] + back);
    Suffix(next, length, p, front, [node] + back);
    assert ([node] + back)[1..] == back;
    Suffix(next, length, node.start, [node], back);
    assert [node][1..] == [];
    var next' := next[b.start := StartOf(back)][node.start := b.start];
    assert forall r :: r in front || r in back ==> r in front + [node] + back;
    Elsewhere(next, length, next', length, p, front, node.start);
    Elsewhere(next, length, next', length, StartOf(back), back, -1);
    assert ([b] + back)[1..] == back && ([node] + ([b] + back))[1..] == [b] + back;
    assert node in front + [node] + back;
    Join(next', length, p, front, node.start, [node] + ([b] + back), -1);
  }

  /** Block b is left out. */
  lemma LeaveOut(next: seq<int>, length: seq<nat>, p: int, front: seq<Run>, node: Run, b: Run, back: seq<Run>)
    requires Segment(next, length, p, front + ([node] + ([b] + back)), -1)
    requires Without(front, node.start) && Without(back, node.start) && b.start != node.start
    ensures node.start < |next| && b.start < |next| && next[node.start] == b.start && next[b.start] == StartOf(back)
    ensures Segment(next[node.start := StartOf(back)], length, p, front + ([node] + back), -1)
  {
    Suffix(next, length, p, front, [node] + ([b] + back));
    assert ([node] + ([b] + back))[1..] == [b] + back && ([b] + back)[1..] == back && ([node] + back)[1..] == back;
    Suffix(next, length, b.start, [b], back);
    var next' := next[node.start := StartOf(back)];
    Elsewhere(next, length, next', length, p, front, node.start);
    Elsewhere(next, length, next', length, StartOf(back), back, -1);
    Join(next', length, p, front, node.start, [node] + back, -1);
  }

  /** finsh_block_insert. At the end of a list the header keeps the link that it has, which must be null. */
  method BlockInsert(next: array<int>, length: array<nat>, list: int, header: nat, ghost runs: seq<Run>)
    returns (list': int)
    requires (next as object) != length && header < next.Length == length.Length
    requires Segment(next[..], length[..], list, runs, -1) && Sorted(runs) && Without(runs, header)
    requires runs == [] || runs[|runs| - 1].start < header ==> next[header] == -1
    modifies next
    ensures Segment(next[..], length[..], list', Insert(runs, Run(header, length[header])), -1)
    ensures forall i :: 0 <= i < next.Length && i != header && Without(runs, i) ==> next[i] == old(next[i])
  {
    hide Segment, Sorted, Insert;
    ghost var b := Run(header, length[header]);
    RestOf(next[..], length[..], list, runs);
    InsertFirst(next[..], length[..], list, runs, b);
    if list == -1 {
      return header;
    }
    var node := list;
    if node > header {
      ghost var was := next[..];
      next[header] := node;
      assert next[..] == was[header := list];
      return header;
    }
    list' := list;
    ghost var front, last, rest;
    node, front, last, rest := FindPlace(next, length, node, header, runs);
    InsertBetween(front + [last], rest, b);
    assert front + [last] + ([b] + rest) == front + ([last] + ([b] + rest));
    SortedApart(front, last, rest);
    PutIn(next[..], length[..], list, front, last, rest, b);
    ghost var was := next[..];
    LastOf(front, last, rest);
    if next[node] != -1 {
      next[header] := next[node];
    }
    next[node] := header;
    assert next[..] == was[header := StartOf(rest)][node := header];
  }

  /** The header in front of the list, or alone. */
  lemma InsertFirst(next: seq<int>, length: seq<nat>, list: int, runs: seq<Run>, b: Run)
    requires Segment(next, length, list, runs, -1) && Without(runs, b.start)
    requires b.start < |next| == |length| && length[b.start] == b.count
    ensures list == -1 && next[b.start] == -1 ==> Segment(next, length, b.start, Insert(runs, b), -1)
    ensures list > b.start ==> Segment(next[b.start := list], length, b.start, Insert(runs, b), -1)
    ensures list != -1 ==> runs != [] && runs[0].start == list
  {
    if list > b.start {
      Elsewhere(next, length, next[b.start := list], length, list, runs, -1);
      assert ([b] + runs)[1..] == runs;
    } else if list == -1 {
      assert [b][1..] == [];
    }
  }

  lemma LastOf(front: seq<Run>, last: Run, rest: seq<Run>)
    ensures last in front + [last] + rest
    ensures rest == [] ==> (front + [last] + rest)[|front + [last] + rest| - 1] == last
    ensures StartOf(rest) == -1 <==> rest == []
  {
  }

  /** The loop of finsh_block_insert: the last block in front of the header. */
  method FindPlace(next: array<int>, length: array<nat>, list: int, header: nat, ghost runs: seq<Run>)
    returns (node: nat, ghost front: seq<Run>, ghost last: Run, ghost rest: seq<Run>)
    requires next.Length == length.Length && Segment(next[..], length[..], list, runs, -1)
    requires Without(runs, header) && runs != [] && runs[0].start < header
    ensures node < next.Length && runs == front + [last] + rest && node == last.start && next[node] == StartOf(rest)
    ensures (forall r :: r in front + [last] ==> r.start < header) && (rest != [] ==> rest[0].start > header)
  {
    hide Segment;
    RestOf(next[..], length[..], list, runs);
    node, front := list, [];
    ghost var back := runs;
    NoFront(runs);
    while next[node] <= header && next[node] != -1
      invariant runs == front + back && back != [] && node == back[0].start < header && node < next.Length
      invariant Segment(next[..], length[..], node, back, -1)
      invariant forall r :: r in front ==> r.start < header
      decreases |back|
    {
      RestOf(next[..], length[..], node, back);
      RestOf(next[..], length[..], next[node], back[1..]);
      MoveOn(front, back);
      assert back[1..][0] in runs;
      front, back := front + [back[0]], back[1..];
      node := next[node];
    }
    last, rest := back[0], back[1..];
    assert back == [last] + rest;
    Associative(front, [last], rest);
    PlaceIs(next[..], length[..], node, last, rest, header);
  }

  lemma MoveOn(front: seq<Run>, back: seq<Run>)
    requires back != []
    ensures front + back == front + [back[0]] + back[1..] && forall r :: r in back[1..] ==> r in front + back
  {
    assert back == [back[0]] + back[1..];
    Associative(front, [back[0]], back[1..]);
  }

  lemma PlaceIs(next: seq<int>, length: seq<nat>, node: nat, last: Run, rest: seq<Run>, header: nat)
    requires Segment(next, length, node, [last] + rest, -1) && Without(rest, header) && node < |next|
    requires next[node] > header || next[node] == -1
    ensures next[node] == StartOf(rest) && (rest != [] ==> rest[0].start > header)
  {
    assert ([last] + rest)[1..] == rest;
  }

  lemma SortedApart(front: seq<Run>, node: Run, back: seq<Run>)
    requires Sorted(front + [node] + back)
    ensures Without(front, node.start) && Without(back, node.start)
    ensures forall r :: r in front ==> End(r) <= node.start
  {
    var list := front + [node] + back;
    assert list[|front|] == node;
    forall r | r in front
      ensures End(r) <= node.start
    {
      var i :| 0 <= i < |front| && front[i] == r;
      assert list[i] == r;
    }
    forall r | r in back
      ensures r.start != node.start
    {
      var i :| 0 <= i < |back| && back[i] == r;
      assert list[|front| + 1 + i] == r;
    }
  }

  /** finsh_block_remove. */
  method BlockRemove(next: array<int>, length: array<nat>, list: int, header: nat, ghost runs: seq<Run>)
    returns (list': int)
    requires (next as object) != length && header < next.Length == length.Length
    requires Segment(next[..], length[..], list, runs, -1) && Sorted(runs) && Run(header, length[header]) in runs
    modifies next
    ensures Segment(next[..], length[..], list', Removed(runs, header), -1)
    ensures forall i :: 0 <= i < next.Length && Without(runs, i) ==> next[i] == old(next[i])
  {
    hide Segment, Sorted, Removed;
    RestOf(next[..], length[..], list, runs);
    SortedApart([], runs[0], runs[1..]) by { assert [] + [runs[0]] + runs[1..] == runs; }
    if list == header {
      HeadOf(runs);
      list' := next[header];
      ghost var was := next[..];
      next[header] := -1;
      Elsewhere(was, length[..], next[..], length[..], list', runs[1..], -1);
      return list';
    }
    list' := list;
    RemoveInner(next, length, list, header, runs);
  }

  lemma HeadOf(runs: seq<Run>)
    requires runs != []
    ensures Removed(runs, runs[0].start) == runs[1..] && runs[0] in runs
    ensures forall r :: r in runs[1..] ==> r in runs
  {
  }

  /** A block that is not the first of the list. */
  method RemoveInner(next: array<int>, length: array<nat>, list: int, header: nat, ghost runs: seq<Run>)
    requires (next as object) != length && header < next.Length == length.Length && runs != [] && runs[0].start != header
    requires Segment(next[..], length[..], list, runs, -1) && Sorted(runs) && Run(header, length[header]) in runs
    modifies next
    ensures Segment(next[..], length[..], list, Removed(runs, header), -1)
    ensures forall i :: 0 <= i < next.Length && Without(runs, i) ==> next[i] == old(next[i])
  {
    hide Segment, Sorted, Removed;
    ghost var b := Run(header, length[header]);
    var node; ghost var front, last, rest;
    node, front, last, rest := FindBefore(next, length, list, header, runs);
    assert front + [last] + ([b] + rest) == front + ([last] + ([b] + rest));
    SortedApart(front, last, [b] + rest);
    LeaveOut(next[..], length[..], list, front, last, b, rest);
    RemoveBetween(front + [last], rest, b);
    assert front + [last] + rest == front + ([last] + rest);
    ghost var was := next[..];
    LastOf(front, last, [b] + rest);
    next[node] := next[header];
    assert next[..] == was[node := StartOf(rest)];
  }

  /** The loop of finsh_block_remove: the block in front of the header. */
  method FindBefore(next: array<int>, length: array<nat>, list: int, header: nat, ghost runs: seq<Run>)
    returns (node: nat, ghost front: seq<Run>, ghost last: Run, ghost rest: seq<Run>)
    requires header < next.Length == length.Length && Segment(next[..], length[..], list, runs, -1)
    requires Run(header, length[header]) in runs && runs[0].start != header
    ensures runs == front + [last] + ([Run(header, length[header])] + rest)
    ensures node < next.Length && node == last.start != header && next[node] == header && Without(front, header)
  {
    node, front := list, [];
    ghost var b, back := Run(header, length[header]), runs;
    assert runs == front + back;
    while next[node] != header
      invariant runs == front + back && back != [] && node == back[0].start != header && node < next.Length
      invariant Segment(next[..], length[..], node, back, -1)
      invariant b in back && Without(front, header)
      decreases |back|
    {
      assert back == [back[0]] + back[1..];
      front, back := front + [back[0]], back[1..];
      node := next[node];
    }
    FoundBefore(next[..], length[..], node, back, b);
    last, rest := back[0], back[2..];
  }

  lemma FoundBefore(next: seq<int>, length: seq<nat>, node: nat, back: seq<Run>, b: Run)
    requires Segment(next, length, node, back, -1) && back != [] && node < |next| && next[node] == b.start
    requires back[0].start != b.start && b.start < |length| && length[b.start] == b.count
    ensures |back| >= 2 && back == [back[0]] + ([b] + back[2..])
    ensures forall front: seq<Run> :: front + back == front + [back[0]] + ([b] + back[2..])
  {
    var tail := back[1..];
    RestOf(next, length, next[node], tail);
    assert tail == [tail[0]] + tail[1..] && tail[1..] == back[2..] && tail[0] == b;
    assert back == [back[0]] + tail;
    forall front: seq<Run>
      ensures front + back == front + [back[0]] + ([b] + back[2..])
    {
      Associative(front, [back[0]], [b] + back[2..]);
    }
  }

  // ---------------------------------------------------------------- merging

  /** A block takes over the blocks `mid` behind it: its count and its link change. */
  lemma Absorb(next: seq<int>, length: seq<nat>, p: int, front: seq<Run>, x: Run, mid: seq<Run>, back: seq<Run>, c: nat)
    requires Segment(next, length, p, front + ([x] + (mid + back)), -1) && Without(front, x.start) && Without(back, x.start)
    ensures x.start < |next| == |length|
    ensures Segment(next[x.start := StartOf(back)], length[x.start := c], p, front + ([Run(x.start, c)] + back), -1)
  {
    Suffix(next, length, p, front, [x] + (mid + back));
    assert ([x] + (mid + back))[1..] == mid + back;
    Suffix(next, length, next[x.start], mid, back);
    var next', length' := next[x.start := StartOf(back)], length[x.start := c];
    Elsewhere(next, length, next', length', p, front, x.start);
    Elsewhere(next, length, next', length', StartOf(back), back, -1);
    assert ([Run(x.start, c)] + back)[1..] == back;
    Join(next', length', p, front, x.start, [Run(x.start, c)] + back, -1);
  }

  /** finsh_block_merge for the block b between `front` and `back`. */
  ghost function MergedAt(front: seq<Run>, b: Run, back: seq<Run>): seq<Run> {
    if front != [] && End(front[|front| - 1]) == b.start then
      var x := front[|front| - 1];
      front[..|front| - 1] + JoinRight(Run(x.start, x.count + Header + b.count), back)
    else front + JoinRight(b, back)
  }

  lemma Associative(a: seq<Run>, b: seq<Run>, c: seq<Run>)
    ensures a + (b + c) == a + b + c
  {
  }

  lemma NoFront(c: seq<Run>)
    ensures [] + c == c
  {
  }

  lemma TailSorted(list: seq<Run>)
    requires list != [] && Sorted(list)
    ensures Sorted(list[1..]) && forall r :: r in list[1..] ==> End(list[0]) <= r.start
  {
    assert forall i :: 0 <= i < |list| - 1 ==> list[1..][i] == list[i + 1];
  }

  lemma {:induction false} FreedIs(front: seq<Run>, back: seq<Run>, b: Run)
    requires Sorted(front + ([b] + back))
    ensures Freed(front + back, b) == MergedAt(front, b, back)
    decreases |front|
  {
    hide Sorted, JoinRight, Freed;
    if front == [] {
      NoFront([b] + back);
      NoFront(back);
      TailSorted([b] + back);
      assert ([b] + back)[1..] == back;
      NoFront(JoinRight(b, back));
      FreedInFront(back, b);
    } else {
      var x, rest := front[0], front[1..];
      assert front == [x] + rest;
      Associative([x], rest, [b] + back);
      Associative([x], rest, back);
      TailOf(x, rest + ([b] + back));
      FreedIs(rest, back, b);
      if rest == [] {
        NoFront(back);
        NoFront([b] + back);
        assert b in [b] + back;
        FreedBehind(x, back, b);
        assert front == [x];
      } else {
        BeforeLast(x, rest, b, back);
        FreedCons(x, rest, b, back);
        FreedSkips(x, rest + back, b);
      }
    }
  }

  lemma TailOf(x: Run, tail: seq<Run>)
    requires Sorted([x] + tail)
    ensures Sorted(tail) && forall r :: r in tail ==> End(x) <= r.start
  {
    TailSorted([x] + tail);
    assert ([x] + tail)[1..] == tail;
  }

  lemma BeforeLast(x: Run, rest: seq<Run>, b: Run, back: seq<Run>)
    requires rest != [] && Sorted(rest + ([b] + back)) && forall r :: r in rest + ([b] + back) ==> End(x) <= r.start
    ensures End(x) < b.start
  {
    var list := rest + ([b] + back);
    assert list[0] == rest[0] && list[|rest|] == b && rest[0] in list;
  }

  /** b in front of all free blocks. */
  lemma FreedInFront(back: seq<Run>, b: Run)
    requires forall r :: r in back ==> End(b) <= r.start
    ensures Freed(back, b) == JoinRight(b, back)
  {
    if back != [] { assert back[0] in back; }
  }

  lemma FreedBehind(x: Run, back: seq<Run>, b: Run)
    requires End(x) <= b.start && Freed(back, b) == JoinRight(b, back)
    ensures Freed([x] + back, b) == MergedAt([x], b, back)
  {
    hide JoinRight;
    NoFront(JoinRight(b, back));
    assert ([x] + back)[1..] == back && [x][..0] == [];
    NoFront(JoinRight(Run(x.start, x.count + Header + b.count), back));
  }

  /** A free block that b does not touch. */
  lemma FreedSkips(x: Run, others: seq<Run>, b: Run)
    requires End(x) < b.start
    ensures Freed([x] + others, b) == [x] + Freed(others, b)
  {
    assert ([x] + others)[1..] == others;
  }

  lemma FreedCons(x: Run, rest: seq<Run>, b: Run, back: seq<Run>)
    requires rest != []
    ensures MergedAt([x] + rest, b, back) == [x] + MergedAt(rest, b, back)
  {
    hide JoinRight;
    var front, m := [x] + rest, rest[..|rest| - 1];
    var y := rest[|rest| - 1];
    assert front[|front| - 1] == y && front[..|front| - 1] == [x] + m;
    Associative([x], m, JoinRight(Run(y.start, y.count + Header + b.count), back));
    Associative([x], rest, JoinRight(b, back));
  }

  /** The parts of the free list around a block that has just been inserted. */
  lemma {:induction false} Around(free: seq<Run>, b: Run) returns (front: seq<Run>, back: seq<Run>)
    requires Sorted(free) && forall f :: f in free ==> End(f) <= b.start || End(b) <= f.start
    ensures free == front + back && Insert(free, b) == front + ([b] + back)
    ensures (forall r :: r in front ==> End(r) <= b.start) && (forall r :: r in back ==> End(b) <= r.start)
    decreases |free|
  {
    hide Sorted;
    if free == [] {
      front, back := [], [];
      NoFront([b]);
    } else if free[0].start > b.start {
      front, back := [], free;
      NoFront(free);
      NoFront([b] + free);
      TailSorted(free);
      assert free == [free[0]] + free[1..];
    } else {
      assert free == [free[0]] + free[1..];
      TailSorted(free);
      var rest;
      rest, back := Around(free[1..], b);
      front := [free[0]] + rest;
      Associative([free[0]], rest, back);
      Associative([free[0]], rest, [b] + back);
    }
  }

  lemma SortedWith(front: seq<Run>, b: Run, back: seq<Run>)
    requires Sorted(front + back)
    requires (forall r :: r in front ==> End(r) <= b.start) && (forall r :: r in back ==> End(b) <= r.start)
    ensures Sorted(front + ([b] + back))
  {
    var list := front + ([b] + back);
    var n := |front|;
    assert list[n] == b;
    assert forall i :: 0 <= i < n ==> list[i] == (front + back)[i] && list[i] in front;
    assert forall i :: n < i < |list| ==> list[i] == (front + back)[i - 1] && list[i] in back;
  }

  // ---------------------------------------------------------------- the heap

  /** The blocks of the list do not have their headers where those of the other list have. */
  ghost predicate Separate(a: seq<Run>, b: seq<Run>) { forall r :: r in a ==> Without(b, r.start) }

  /** The headers of a list are as they were. */
  lemma ListKept(next: seq<int>, length: seq<nat>, next': seq<int>, length': seq<nat>, p: int, runs: seq<Run>,
                 other: seq<Run>, s: nat)
    requires Segment(next, length, p, runs, -1) && |next'| == |next| && |length'| == |length| == |next|
    requires Separate(runs, other) && Without(runs, s)
    requires forall i :: 0 <= i < |next| && i != s && Without(other, i) ==> next'[i] == next[i] && length'[i] == length[i]
    ensures Segment(next', length', p, runs, -1)
  {
    Elsewhere(next, length, next', length', p, runs, -1);
  }

  /** What the header of a block in the list holds. */
  lemma HeaderOf(next: seq<int>, length: seq<nat>, p: int, front: seq<Run>, b: Run, back: seq<Run>)
    requires Segment(next, length, p, front + ([b] + back), -1)
    ensures b.start < |next| == |length| && next[b.start] == StartOf(back) && length[b.start] == b.count
    ensures Segment(next, length, p, front, b.start)
  {
    Suffix(next, length, p, front, [b] + back);
    assert ([b] + back)[1..] == back;
    Suffix(next, length, b.start, [b], back);
  }

  lemma HeaderBehind(next: seq<int>, length: seq<nat>, p: int, front: seq<Run>, b: Run, y: Run, rest: seq<Run>)
    requires Segment(next, length, p, front + ([b] + ([y] + rest)), -1)
    ensures y.start < |next| == |length| && next[y.start] == StartOf(rest) && length[y.start] == y.count
  {
    Associative(front, [b], [y] + rest);
    HeaderOf(next, length, p, front + [b], y, rest);
  }

  lemma FirstStart(next: seq<int>, length: seq<nat>, p: int, front: seq<Run>, b: Run, back: seq<Run>)
    requires Segment(next, length, p, front + ([b] + back), -1) && Without(front, b.start)
    ensures p == (front + ([b] + back))[0].start && (p == b.start <==> front == [])
  {
    if front != [] { assert front[0] in front; }
  }

  /** The headers of a sorted list are different. */
  lemma Corners(front: seq<Run>, b: Run, back: seq<Run>)
    requires Sorted(front + ([b] + back))
    ensures Without(front, b.start) && Without(back, b.start) && b in front + ([b] + back)
  {
    Associative(front, [b], back);
    SortedApart(front, b, back);
  }

  lemma CornersBehind(front: seq<Run>, b: Run, y: Run, rest: seq<Run>)
    requires Sorted(front + ([b] + ([y] + rest)))
    ensures Without(front, b.start) && Without(rest, b.start) && y.start != b.start
  {
    Corners(front, b, [y] + rest);
    assert y in [y] + rest && forall r :: r in rest ==> r in [y] + rest;
  }

  lemma GrownLast(front: seq<Run>, x: Run)
    ensures (front + [x])[|front + [x]| - 1] == x && (front + [x])[..|front + [x]| - 1] == front
  {
  }

  lemma JoinedPrev(front: seq<Run>, x: Run, b: Run, back: seq<Run>)
    requires End(x) == b.start
    ensures MergedAt(front + [x], b, back) ==
      front + (if back != [] && End(b) == back[0].start
               then [Run(x.start, x.count + Header + b.count + Header + back[0].count)] + back[1..]
               else [Run(x.start, x.count + Header + b.count)] + back)
  {
    GrownLast(front, x);
  }

  lemma NoMerge(front: seq<Run>, b: Run, back: seq<Run>)
    requires front == [] || End(front[|front| - 1]) != b.start
    ensures back == [] || End(b) != back[0].start ==> MergedAt(front, b, back) == front + ([b] + back)
  {
  }

  lemma UniqueSplit(front: seq<Run>, back: seq<Run>, front': seq<Run>, x: Run, rest: seq<Run>, b: Run)
    requires front + ([b] + back) == front' + [x] + ([b] + rest)
    requires Without(front, b.start) && Without(front', b.start) && x.start != b.start
    ensures front == front' + [x] && back == rest
  {
    var list, n, m := front + ([b] + back), |front|, |front'| + 1;
    assert list[n] == b && list[m] == b;
    assert forall i :: 0 <= i < n ==> list[i] == front[i] && list[i].start != b.start;
    assert forall i :: 0 <= i < |front'| ==> list[i] == front'[i] && list[i].start != b.start;
    assert list[|front'|] == x;
    assert n == m;
    assert list[..n] == front && list[..n] == front' + [x] && list[n + 1..] == back && list[n + 1..] == rest;
  }

  class FinshHeap {
    const next: array<int>
    const length: array<nat>
    var freeList: int
    var allocateList: int
    ghost var free: seq<Run>
    ghost var used: seq<Run>

    ghost predicate Valid()
      reads this, next, length
    {
      && next.Length == length.Length == HeapMax && (next as object) != length
      && Segment(next[..], length[..], freeList, free, -1) && Segment(next[..], length[..], allocateList, used, -1)
      && Inv(State())
    }

    ghost function State(): Heap
      reads this
    {
      Heap(free, used)
    }

    /** finsh_heap_init. */
    constructor ()
      ensures Valid() && State() == Initial() && fresh(next) && fresh(length)
    {
      next, length := new int[HeapMax](_ => -1), new nat[HeapMax](_ => 0);
      freeList, allocateList := 0, -1;
      free, used := [Run(0, HeapMax - Header)], [];
      new;
      length[0] := HeapMax - Header;
      next[0] := -1;
      assert free[1..] == [] && Tiles([], [], End(free[0]), true);
    }

    /** finsh_block_split: the header and the link of the rest are made. */
    method BlockSplit(header: nat, size: nat)
      requires header < next.Length == length.Length && header + Header + size < next.Length
      requires (next as object) != length && length[header] >= Header + size
      modifies next, length
      ensures next[..] == old(next[..])[header + Header + size := old(next[header])][header := header + Header + size]
      ensures length[..] == old(length[..])[header + Header + size := old(length[header]) - Header - size][header := size]
    {
      var rest := header + Header + size;
      length[rest] := length[header] - Header - size;
      length[header] := size;
      next[rest] := next[header];
      next[header] := rest;
    }

    /** The block at `header` takes over the one behind it. */
    method JoinNext(header: nat, nextNode: nat, ghost front: seq<Run>, ghost b: Run, ghost back: seq<Run>)
      requires next.Length == length.Length && (next as object) != length && b.start == header && back != []
      requires Segment(next[..], length[..], freeList, front + ([b] + back), -1) && Sorted(front + ([b] + back))
      requires header < next.Length && length[header] == b.count && nextNode == back[0].start == End(b)
      requires front == [] || End(front[|front| - 1]) != b.start
      modifies next, length
      ensures Segment(next[..], length[..], freeList, MergedAt(front, b, back), -1)
      ensures forall i :: 0 <= i < next.Length && i != header ==> next[i] == old(next[i]) && length[i] == old(length[i])
    {
      hide Segment, Sorted;
      ghost var was, lengths, y, rest := next[..], length[..], back[0], back[1..];
      ghost var c: nat := b.count + Header + y.count;
      assert back == [y] + rest;
      HeaderBehind(was, lengths, freeList, front, b, y, rest);
      CornersBehind(front, b, y, rest);
      Absorb(was, lengths, freeList, front, b, [y], rest, c);
      length[header] := length[header] + length[nextNode] + Header;
      next[header] := next[nextNode];
      assert next[..] == was[header := StartOf(rest)] && length[..] == lengths[header := c];
    }

    /** The block at `prev` takes over the one at `header`, and perhaps the one behind that. */
    method JoinPrev(prev: nat, header: nat, nextNode: int, ghost front: seq<Run>, ghost x: Run, ghost b: Run,
                    ghost back: seq<Run>)
      requires next.Length == length.Length && (next as object) != length && x.start == prev && b.start == header == End(x)
      requires Segment(next[..], length[..], freeList, front + ([x] + ([b] + back)), -1)
      requires Sorted(front + ([x] + ([b] + back))) && prev < next.Length && header < next.Length && nextNode == StartOf(back)
      modifies next, length
      ensures Segment(next[..], length[..], freeList, MergedAt(front + [x], b, back), -1)
      ensures forall i :: 0 <= i < next.Length && i != prev ==> next[i] == old(next[i]) && length[i] == old(length[i])
    {
      hide Segment, Sorted, MergedAt;
      GrownLast(front, x);
      JoinedPrev(front, x, b, back);
      HeaderBehind(next[..], length[..], freeList, front, x, b, back);
      if nextNode != -1 && header + length[header] + Header == nextNode {
        JoinThree(prev, header, nextNode, front, x, b, back);
      } else {
        ghost var was, lengths := next[..], length[..];
        ghost var c: nat := x.count + Header + b.count;
        HeaderOf(was, lengths, freeList, front, x, [b] + back);
        CornersBehind(front, x, b, back);
        Absorb(was, lengths, freeList, front, x, [b], back, c);
        length[prev] := length[prev] + length[header] + Header;
        next[prev] := next[header];
        assert next[..] == was[prev := StartOf(back)] && length[..] == lengths[prev := c];
      }
    }

    method JoinThree(prev: nat, header: nat, nextNode: nat, ghost front: seq<Run>, ghost x: Run, ghost b: Run,
                     ghost back: seq<Run>)
      requires next.Length == length.Length && (next as object) != length && x.start == prev && b.start == header == End(x)
      requires Segment(next[..], length[..], freeList, front + ([x] + ([b] + back)), -1)
      requires Sorted(front + ([x] + ([b] + back))) && prev < next.Length && header < next.Length
      requires back != [] && nextNode == back[0].start
      modifies next, length
      ensures Segment(next[..], length[..], freeList,
                      front + ([Run(x.start, x.count + Header + b.count + Header + back[0].count)] + back[1..]), -1)
      ensures forall i :: 0 <= i < next.Length && i != prev ==> next[i] == old(next[i]) && length[i] == old(length[i])
    {
      hide Segment, Sorted;
      ghost var was, lengths, y, rest := next[..], length[..], back[0], back[1..];
      ghost var c: nat := x.count + Header + b.count + Header + y.count;
      CornersBehind(front, x, b, back);
      assert back == [y] + rest && [b] + back == [b, y] + rest;
      HeaderBehind(was, lengths, freeList, front, x, b, back);
      HeaderOf(was, lengths, freeList, front, x, [b] + back);
      Associative(front, [x], [b] + ([y] + rest));
      HeaderBehind(was, lengths, freeList, front + [x], b, y, rest);
      assert forall r :: r in rest ==> r in back;
      Absorb(was, lengths, freeList, front, x, [b, y], rest, c);
      length[prev] := length[prev] + length[header] + length[nextNode] + 2 * Header;
      next[prev] := next[nextNode];
      assert next[..] == was[prev := StartOf(rest)] && length[..] == lengths[prev := c];
    }

    /** finsh_block_merge, for the block b at `header` in the free list. */
    method BlockMerge(header: nat, ghost front: seq<Run>, ghost b: Run, ghost back: seq<Run>)
      requires next.Length == length.Length && (next as object) != length && b.start == header
      requires Segment(next[..], length[..], freeList, front + ([b] + back), -1) && Sorted(front + ([b] + back))
      modifies next, length
      ensures Segment(next[..], length[..], freeList, MergedAt(front, b, back), -1)
      ensures forall i :: 0 <= i < next.Length && Without(front + ([b] + back), i) ==>
                next[i] == old(next[i]) && length[i] == old(length[i])
    {
      ghost var runs := front + ([b] + back);
      hide Segment, Sorted, MergedAt;
      HeaderOf(next[..], length[..], freeList, front, b, back);
      Corners(front, b, back);
      var nextNode := next[header];
      if freeList == header {
        FirstStart(next[..], length[..], freeList, front, b, back);
        NoMerge(front, b, back);
        if nextNode != -1 && header + length[header] + Header == nextNode {
          JoinNext(header, nextNode, front, b, back);
        }
        return;
      }
      ghost var front', x, rest;
      var prev;
      FirstStart(next[..], length[..], freeList, front, b, back);
      prev, front', x, rest := FindBefore(next, length, freeList, header, runs);
      UniqueSplit(front, back, front', x, rest, b);
      Associative(front', [x], [b] + back);
      HeaderOf(next[..], length[..], freeList, front', x, [b] + back);
      GrownLast(front', x);
      if End(x) != b.start { NoMerge(front, b, back); }
      if prev + length[prev] + Header == header {
        JoinPrev(prev, header, nextNode, front', x, b, back);
      } else if nextNode != -1 && header + length[header] + Header == nextNode {
        JoinNext(header, nextNode, front, b, back);
      }
    }

    /** The two lists, without what the invariant says about the blocks. */
    ghost predicate Lists(free: seq<Run>, used: seq<Run>)
      reads this, next, length
    {
      && next.Length == length.Length == HeapMax && (next as object) != length
      && Segment(next[..], length[..], freeList, free, -1) && Segment(next[..], length[..], allocateList, used, -1)
    }

    /** The block b, on neither list, is inserted into the free list. */
    method InsertFree(ghost b: Run, header: nat)
      requires Lists(free, used) && header == b.start < HeapMax && length[header] == b.count
      requires Sorted(free) && Separate(used, free) && Without(used, header) && Without(free, header)
      requires free != [] && free[|free| - 1].start > header
      modifies `freeList, next
      ensures Lists(Insert(free, b), used)
    {
      hide Segment, Sorted, Insert;
      ghost var was := next[..];
      freeList := BlockInsert(next, length, freeList, header, free);
      ListKept(was, length[..], next[..], length[..], allocateList, used, free, header);
    }

    /** It is merged with its neighbours. */
    method MergeFree(ghost b: Run, header: nat)
      requires Lists(Insert(free, b), used) && header == b.start && Sorted(free)
      requires Separate(used, free) && Without(used, header)
      requires forall f :: f in free ==> End(f) <= b.start || End(b) <= f.start
      modifies next, length
      ensures Lists(Freed(free, b), used)
    {
      hide Segment, Sorted, Insert, Freed;
      ghost var front, back := Around(free, b);
      SortedWith(front, b, back);
      FreedIs(front, back, b);
      Apart(front, b, back, free, used);
      ghost var next2, length2 := next[..], length[..];
      BlockMerge(header, front, b, back);
      ListKept(next2, length2, next[..], length[..], allocateList, used, front + ([b] + back), header);
    }

    /** finsh_heap_free of the block at `header`. */
    method Free(header: nat)
      requires Valid() && Find(used, header).Some?
      modifies this, next, length
      ensures Valid() && State() == FinshHeapSpec.Free(old(State()), header)
    {
      hide Segment, Sorted, Inv, Insert, Removed, Freed;
      ghost var b, h := Find(used, header).value, State();
      FreeKeeps(h, header);
      BlockFacts(h, header);
      Holds(next[..], length[..], allocateList, used, b);
      ghost var was := next[..];
      allocateList := BlockRemove(next, length, allocateList, header, used);
      Elsewhere(was, length[..], next[..], length[..], freeList, free, -1);
      used := Removed(used, header);
      InsertFree(b, header);
      MergeFree(b, header);
      free := Freed(free, b);
    }

    /** finsh_heap_gc: every allocated block that no variable of the shell points to is freed. A variable that is not in use
        has no value. */
    method Collect(variables: seq<Option<nat>>)
      requires Valid()
      modifies this, next, length
      ensures Valid() && State() == Collected(old(State()), old(used), Roots(variables))
    {
      hide Segment, Inv, FinshHeapSpec.Free;
      ghost var front, todo := [], used;
      FirstOf(next[..], length[..], allocateList, used);
      var header := allocateList;
      while header != -1
        invariant Valid() && used == front + todo && header == StartOf(todo)
        invariant Collected(State(), todo, Roots(variables)) == Collected(old(State()), old(used), Roots(variables))
        decreases |todo|
      {
        var i := 0;
        while i < |variables|
          invariant i <= |variables| && forall v :: 0 <= v < i ==> variables[v] != Some(header + Header)
        {
          if variables[i].Some? && variables[i].value == header + Header {
            break;
          }
          i := i + 1;
        }
        ghost var b, rest := todo[0], todo[1..];
        assert todo == [b] + rest;
        RootsAre(variables, header + Header);
        HeaderOf(next[..], length[..], allocateList, front, b, rest);
        FoundAt(State(), front, b, rest);
        var temp := header;
        header := next[header];
        if i == |variables| {
          Free(temp);
          todo := rest;
        } else {
          assert front + todo == front + [b] + rest;
          front, todo := front + [b], rest;
        }
      }
    }

    /** The searches of finsh_heap_allocate. */
    method Search(n: nat, strict: bool) returns (header: int, ghost k: nat)
      requires Valid()
      ensures k == First(free, n, strict, 0) && header == (if k < |free| then free[k].start else -1)
    {
      header, k := freeList, 0;
      ghost var back := free;
      while header != -1 && (if strict then length[header] <= (n + Header) % Word else length[header] < (n + Header) % Word)
        invariant k <= |free| && back == free[k..] && Segment(next[..], length[..], header, back, -1)
        invariant First(free, n, strict, 0) == First(free, n, strict, k)
        decreases |back|
      {
        header, back, k := next[header], back[1..], k + 1;
      }
    }

    /** The block found is split, taken off the free list, and put on the list of allocated blocks. */
    method Take(header: nat, n: nat, ghost k: nat)
      requires Valid() && k < |free| && header == free[k].start && n % 4 == 0 && free[k].count >= Header + n
      modifies this, next, length
      ensures Valid() && State() == Taken(old(State()), k, n)
    {
      hide Segment, Sorted, Inv, Insert, Removed;
      ghost var h, b, front, back := State(), free[k], free[..k], free[k + 1..];
      ghost var b', rest := Run(header, n), Run(header + Header + n, b.count - Header - n);
      assert free == front + ([b] + back);
      SplitKeepsInv(h, k, n);
      TakenFacts(h, front, b, back, n);
      SplitSorted(front, b, back, n);
      TakenApart(front, b, back, used, n);
      hide Disjoint, Without, Separate;
      ghost var was, lengths := next[..], length[..];
      Parts(was, lengths, freeList, front, b, back);
      BlockSplit(header, n);
      SplitInList(was, lengths, freeList, front, b, back, n);
      Elsewhere(was, lengths, next[..], length[..], allocateList, used, -1);
      Unlist(header, front, b', rest, back);
      assert Lists(front + ([rest] + back), used);
      PutAllocated(header, b', front + ([rest] + back));
      free, used := front + ([rest] + back), Insert(used, b');
      assert State() == Taken(h, k, n) by { Associative(front, [rest], back); }
    }

    /** The first part of the split block leaves the free list, and its link is cleared. */
    method Unlist(header: nat, ghost front: seq<Run>, ghost b: Run, ghost rest: Run, ghost back: seq<Run>)
      requires Lists(front + ([b] + ([rest] + back)), used) && header == b.start < HeapMax
      requires Sorted(front + ([b] + ([rest] + back))) && Without(used, header)
      requires forall r :: r in front + ([b] + ([rest] + back)) ==> Without(used, r.start)
      modifies `freeList, next
      ensures Lists(front + ([rest] + back), used) && next[header] == -1
    {
      hide Segment, Sorted, Removed;
      ghost var runs := front + ([b] + ([rest] + back));
      ghost var was := next[..];
      Corners(front, b, [rest] + back);
      HeaderOf(was, length[..], freeList, front, b, [rest] + back);
      RemoveBetween(front, [rest] + back, b);
      freeList := BlockRemove(next, length, freeList, header, runs);
      Elsewhere(was, length[..], next[..], length[..], allocateList, used, -1);
      ghost var was1 := next[..];
      next[header] := -1;
      Elsewhere(was1, length[..], next[..], length[..], allocateList, used, -1);
      Elsewhere(was1, length[..], next[..], length[..], freeList, front + ([rest] + back), -1);
    }

    method PutAllocated(header: nat, ghost b: Run, ghost free': seq<Run>)
      requires Lists(free', used) && header == b.start < HeapMax && length[header] == b.count && next[header] == -1
      requires Sorted(used) && Without(used, header) && Without(free', header) && Separate(free', used)
      modifies `allocateList, next
      ensures Lists(free', Insert(used, b))
    {
      hide Segment, Sorted, Insert;
      ghost var was := next[..];
      allocateList := BlockInsert(next, length, allocateList, header, used);
      ListKept(was, length[..], next[..], length[..], freeList, free', used, header);
    }

    /** finsh_heap_allocate: the address of the data, if there is room. */
    method Allocate(size: nat, variables: seq<Option<nat>>) returns (data: Option<nat>)
      requires Valid() && NoOverflow(size)
      modifies this, next, length
      ensures Valid() && State() == FinshHeapSpec.Allocate(old(State()), size, Roots(variables)).0
      ensures data == (match FinshHeapSpec.Allocate(old(State()), size, Roots(variables)).1
                       case None => None
                       case Some(start) => Some(start + Header))
    {
      hide Segment, Inv, Collected, Taken, First;
      var n := Rounded(size);
      var header; ghost var k;
      header, k := Search(n, true);
      FirstIs(free, n, true, 0);
      if header == -1 {
        Collect(variables);
        header, k := Search(n, false);
        FirstIs(free, n, false, 0);
        if header == -1 {
          return None;
        }
      }
      Take(header, n, k);
      return Some(header + Header);
    }
  }

  /** What the invariant says about a free block that is split. */
  lemma TakenFacts(h: Heap, front: seq<Run>, b: Run, back: seq<Run>, n: nat)
    requires Inv(h) && h.free == front + ([b] + back) && b.count >= Header + n
    ensures b.start + Header + n < HeapMax && Sorted(front + ([b] + back)) && Sorted(h.used)
    ensures Disjoint(front + ([b] + back), h.used) && Without(front, b.start) && Without(back, b.start)
  {
    TilesMeans(h.free, h.used, 0, false);
    hide Tiles, Inv, Sorted, Disjoint;
    Corners(front, b, back);
    InArena(h, b);
  }

  lemma SplitKeepsInv(h: Heap, k: nat, n: nat)
    requires Inv(h) && k < |h.free| && n % 4 == 0 && h.free[k].count >= Header + n
    ensures Inv(Taken(h, k, n))
  {
    TakenTiles(h.free, h.used, 0, false, k, n);
  }

  lemma InArena(h: Heap, b: Run)
    requires From(h.free, 0) && b in h.free
    ensures End(b) <= HeapMax
  {
  }

  lemma TakenApart(front: seq<Run>, b: Run, back: seq<Run>, used: seq<Run>, n: nat)
    requires Disjoint(front + ([b] + back), used) && b.count >= Header + n
    requires Without(front, b.start) && Without(back, b.start)
    ensures var b', rest := Run(b.start, n), Run(b.start + Header + n, b.count - Header - n);
            && Without(used, b.start) && Without(used, rest.start)
            && (forall r :: r in front + ([b'] + ([rest] + back)) ==> Without(used, r.start))
            && Without(front + ([rest] + back), b.start) && Separate(front + ([rest] + back), used)
  {
    assert b in front + ([b] + back);
    assert forall r :: r in front || r in back ==> r in front + ([b] + back);
  }

  lemma SplitSorted(front: seq<Run>, b: Run, back: seq<Run>, n: nat)
    requires Sorted(front + ([b] + back)) && b.count >= Header + n
    ensures var b', rest := Run(b.start, n), Run(b.start + Header + n, b.count - Header - n);
            && Sorted(front + ([b'] + ([rest] + back)))
            && Without(front, rest.start) && Without(back, rest.start)
  {
    var b', rest := Run(b.start, n), Run(b.start + Header + n, b.count - Header - n);
    SortedAround(front, b, back);
    SortedJoin([rest], back);
    SortedJoin([b'], [rest] + back);
    SortedJoin(front, [b'] + ([rest] + back));
  }

  /** The blocks around b do not reach into it. */
  lemma SortedAround(front: seq<Run>, b: Run, back: seq<Run>)
    requires Sorted(front + ([b] + back))
    ensures Sorted(front) && Sorted(back)
    ensures (forall r :: r in front ==> End(r) <= b.start) && (forall r :: r in back ==> End(b) <= r.start)
  {
    var list := front + ([b] + back);
    var m := |front|;
    assert list[m] == b;
    assert forall i :: 0 <= i < m ==> list[i] == front[i];
    assert forall i :: 0 <= i < |back| ==> list[m + 1 + i] == back[i];
  }

  lemma SortedJoin(front: seq<Run>, back: seq<Run>)
    requires Sorted(front) && Sorted(back) && forall f, r :: f in front && r in back ==> End(f) <= r.start
    ensures Sorted(front + back)
  {
    var list := front + back;
    assert forall i :: 0 <= i < |front| ==> list[i] == front[i] && list[i] in front;
    assert forall i :: |front| <= i < |list| ==> list[i] == back[i - |front|] && list[i] in back;
  }

  lemma Parts(next: seq<int>, length: seq<nat>, p: int, front: seq<Run>, b: Run, back: seq<Run>)
    requires Segment(next, length, p, front + ([b] + back), -1)
    ensures b.start < |next| == |length| && length[b.start] == b.count
  {
    HeaderOf(next, length, p, front, b, back);
  }

  /** The list after finsh_block_split. */
  lemma SplitInList(next: seq<int>, length: seq<nat>, p: int, front: seq<Run>, b: Run, back: seq<Run>, n: nat)
    requires Segment(next, length, p, front + ([b] + back), -1) && b.count >= Header + n
    requires Without(front, b.start) && Without(back, b.start)
    requires Without(front, b.start + Header + n) && Without(back, b.start + Header + n)
    ensures b.start < |next| == |length|
    ensures var r, c: nat := b.start + Header + n, b.count - Header - n;
            r < |next| ==>
              Segment(next[r := next[b.start]][b.start := r], length[r := c][b.start := n], p,
                      front + ([Run(b.start, n)] + ([Run(r, c)] + back)), -1)
  {
    HeaderOf(next, length, p, front, b, back);
    Suffix(next, length, p, front, [b] + back);
    assert ([b] + back)[1..] == back;
    Suffix(next, length, b.start, [b], back);
    var r, c: nat := b.start + Header + n, b.count - Header - n;
    if r < |next| {
      var next', length' := next[r := next[b.start]][b.start := r], length[r := c][b.start := n];
      Elsewhere(next, length, next', length', p, front, b.start);
      Elsewhere(next, length, next', length', StartOf(back), back, -1);
      assert ([Run(r, c)] + back)[1..] == back;
      assert ([Run(b.start, n)] + ([Run(r, c)] + back))[1..] == [Run(r, c)] + back;
      assert Segment(next', length', r, [Run(r, c)] + back, -1);
      Join(next', length', p, front, b.start, [Run(b.start, n)] + ([Run(r, c)] + back), -1);
    }
  }

  /** The addresses the variables in use point to. */
  function Roots(variables: seq<Option<nat>>): set<nat> {
    set v | v in variables && v.Some? :: v.value
  }

  lemma RootsAre(variables: seq<Option<nat>>, p: nat)
    ensures p in Roots(variables) <==> exists v :: 0 <= v < |variables| && variables[v] == Some(p)
  {
    if p in Roots(variables) { assert Some(p) in variables; }
  }

  lemma FirstOf(next: seq<int>, length: seq<nat>, p: int, runs: seq<Run>)
    requires Segment(next, length, p, runs, -1)
    ensures p == StartOf(runs) && [] + runs == runs
  {
  }

  /** Freeing a block of the list. */
  lemma FoundAt(h: Heap, front: seq<Run>, b: Run, rest: seq<Run>)
    requires Inv(h) && h.used == front + ([b] + rest)
    ensures Find(h.used, b.start) == Some(b) && FinshHeapSpec.Free(h, b.start).used == front + rest
  {
    TilesMeans(h.free, h.used, 0, false);
    Corners(front, b, rest);
    RemoveBetween(front, rest, b);
    FindBetween(front, b, rest);
  }

  lemma {:induction false} FindBetween(front: seq<Run>, b: Run, rest: seq<Run>)
    requires Without(front, b.start)
    ensures Find(front + ([b] + rest), b.start) == Some(b)
    decreases |front|
  {
    if front != [] {
      assert front[0] in front && (front + ([b] + rest))[1..] == front[1..] + ([b] + rest);
      assert forall r :: r in front[1..] ==> r in front;
      FindBetween(front[1..], b, rest);
    }
  }

  lemma {:induction false} Holds(next: seq<int>, length: seq<nat>, p: int, runs: seq<Run>, b: Run)
    requires Segment(next, length, p, runs, -1) && b in runs
    ensures b.start < |next| == |length| && length[b.start] == b.count
    decreases |runs|
  {
    if b != runs[0] {
      assert runs == [runs[0]] + runs[1..];
      Holds(next, length, next[p], runs[1..], b);
    }
  }

  /** What the invariant says about an allocated block and the lists. */
  lemma BlockFacts(h: Heap, start: nat)
    requires Inv(h) && Find(h.used, start).Some?
    ensures var b, used' := Find(h.used, start).value, Removed(h.used, start);
            && b in h.used && b.start == start && Sorted(h.free) && Sorted(h.used)
            && Separate(h.free, h.used) && Separate(used', h.free) && Without(h.free, start) && Without(used', start)
            && (forall f :: f in h.free ==> End(f) <= b.start || End(b) <= f.start)
            && h.free != [] && h.free[|h.free| - 1].start > start
  {
    TilesMeans(h.free, h.used, 0, false);
    FreeBehind(h.free, h.used, 0, false);
    FreeTakes(h, start);
    var j := FindIs(h.used, start);
    assert h.used[j] in h.used;
    hide Tiles, Sorted, From, Removed, Freed;
    forall f | f in h.free
      ensures Without(h.used, f.start)
    {
    }
  }

  lemma Apart(front: seq<Run>, b: Run, back: seq<Run>, free: seq<Run>, used: seq<Run>)
    requires free == front + back && Separate(used, free) && Without(used, b.start)
    ensures Separate(used, front + ([b] + back))
  {
  }
}
