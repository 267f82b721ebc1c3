/** memheap.c in place: the headers of the blocks are linked in a ring by address, those of the free blocks in a second
    ring through the header of the free list. A block is named by the offset of its header in the pool; the header of the
    free list, outside the pool, by the size of the pool. */
module Memheaps {
  import opened Prelude
  import opened Lists
  import opened Rings
  import opened MemheapSpec

  class Memheap {
    const size: nat
    const next: array<int>
    const prev: array<int>
    const nextFree: array<int>
    const prevFree: array<int>
    const used: array<bool>
    var available: int
    var maxUsed: int
    ghost var starts: seq<nat>
    ghost var free: seq<nat>

    /** The fields of the headers are places of their own. */
    ghost predicate Fields()
      reads this
    {
      && next.Length == prev.Length == nextFree.Length == prevFree.Length == used.Length == size + 1
      && next != prev && next != nextFree && next != prevFree && prev != nextFree && prev != prevFree
      && nextFree != prevFree
    }

    /** Both rings are as the ghost fields say, and the free list has exactly the blocks that are not marked as used. */
    ghost predicate Valid()
      reads this, next, prev, nextFree, prevFree, used
    {
      && Fields()
      && Ring(next[..], prev[..], starts)
      && Ring(nextFree[..], prevFree[..], [size] + free)
      && Marked(used[..], starts, free)
    }

    ghost function State(): Pool
      reads this
    {
      Pool(size, starts, free, available, maxUsed)
    }

    /** rt_memheap_init; `size` is the size of the pool rounded down to 8 bytes. */
    constructor (size: nat)
      requires size >= 2 * Header
      ensures Valid() && State() == Initial(size)
      ensures fresh(next) && fresh(prev) && fresh(nextFree) && fresh(prevFree) && fresh(used)
    {
      this.size := size;
      next, prev := new int[size + 1], new int[size + 1];
      nextFree, prevFree := new int[size + 1], new int[size + 1];
      used := new bool[size + 1](_ => false);
      available := size - 2 * Header;
      maxUsed := size - (size - 2 * Header);
      starts, free := [0, size - Header], [0];
      new;
      hide Ring;
      var header := size;
      nextFree[header], prevFree[header] := header, header;
      next[0] := size - Header;
      prev[0] := next[0];
      nextFree[0] := nextFree[header];
      prevFree[0] := header;
      prevFree[nextFree[header]] := 0;
      nextFree[header] := 0;
      var tailer := size - Header;
      used[tailer] := true;
      next[tailer], prev[tailer] := 0, 0;
      assert [size] + free == [size, 0];
      RingOfTwo(next[..], prev[..], 0, tailer);
      RingOfTwo(nextFree[..], prevFree[..], size, 0);
    }

    /** Take a block off the free list. */
    method UnlinkFree(s: nat)
      requires Fields() && Ring(nextFree[..], prevFree[..], [size] + free) && s in free
      modifies nextFree, prevFree
      ensures Ring(nextFree[..], prevFree[..], [size] + Without<nat>(free, s))
    {
      ghost var next0, prev0 := nextFree[..], prevFree[..];
      ghost var k := WithoutIs<nat>(free, s);
      RingRemove(next0, prev0, [size] + free, k + 1);
      WithoutRing(size, free, s, k);
      var after, before := nextFree[s], prevFree[s];
      prevFree[after] := before;
      nextFree[before] := after;
      assert nextFree[..] == next0[before := after] && prevFree[..] == prev0[after := before];
    }

    /** Put a block in front of the free list. */
    method PushFree(s: nat)
      requires Fields() && Ring(nextFree[..], prevFree[..], [size] + free) && s < size && s !in free
      modifies nextFree, prevFree
      ensures Ring(nextFree[..], prevFree[..], [size] + ([s] + free))
    {
      ghost var next0, prev0 := nextFree[..], prevFree[..];
      RingInsert(next0, prev0, [size] + free, 0, s);
      assert ([size] + free)[..1] + [s] + ([size] + free)[1..] == [size] + ([s] + free);
      var header := size;
      var first := nextFree[header];
      nextFree[s] := first;
      prevFree[s] := header;
      prevFree[first] := s;
      nextFree[header] := s;
      assert nextFree[..] == next0[s := first][header := s] && prevFree[..] == prev0[first := s][s := header];
    }

    /** Link block x behind block i. */
    method InsertBlock(ghost i: nat, s: nat, x: nat)
      requires Fields() && Ring(next[..], prev[..], starts) && i < |starts| && starts[i] == s && x < size && x !in starts
      modifies next, prev
      ensures Ring(next[..], prev[..], starts[..i + 1] + [x] + starts[i + 1..])
    {
      ghost var next0, prev0 := next[..], prev[..];
      RingInsert(next0, prev0, starts, i, x);
      var after := next[s];
      prev[x] := s;
      next[x] := after;
      prev[after] := x;
      next[s] := x;
      assert next[..] == next0[x := after][s := x] && prev[..] == prev0[after := x][x := s];
    }

    /** Unlink block i from the ring. */
    method RemoveBlock(ghost i: nat, s: nat)
      requires Fields() && Ring(next[..], prev[..], starts) && 0 < i < |starts| && starts[i] == s
      modifies next, prev
      ensures Ring(next[..], prev[..], starts[..i] + starts[i + 1..])
    {
      ghost var next0, prev0 := next[..], prev[..];
      RingRemove(next0, prev0, starts, i);
      var before, after := prev[s], next[s];
      next[before] := after;
      prev[after] := before;
      assert next[..] == next0[before := after] && prev[..] == prev0[after := before];
    }

    /** MEMITEM_SIZE. */
    method ItemSize(s: nat) returns (n: int)
      requires Valid() && Tiles(starts, size) && s in starts && s + Header < size
      ensures n == RoomOf(starts, s)
    {
      ghost var i := IndexOf(starts, s);
      IndexIs(starts, size, i);
      assert LinkedAt(next[..], prev[..], starts, i);
      n := next[s] - s - Header;
    }

    /** The search of rt_memheap_alloc along the free list. */
    method Search(n: nat) returns (s: nat, room: int, ghost k: nat)
      requires Valid() && Inv(State()) && n > 0
      ensures k == FirstFit(State(), n, 0)
      ensures room >= n <==> k < |free|
      ensures k < |free| ==> s == free[k] && room == RoomOf(starts, s)
    {
      ghost var list := [size] + free;
      assert LinkedAt(nextFree[..], prevFree[..], list, 0);
      s, room, k := nextFree[size], 0, 0;
      while s != size && room < n
        invariant k <= |free| && s == (if k < |free| then free[k] else size)
        invariant room < n ==> FirstFit(State(), n, 0) == FirstFit(State(), n, k)
        invariant room >= n ==> FirstFit(State(), n, 0) == k < |free| && room == RoomOf(starts, s)
        decreases |free| - k, if room < n then 1 else 0
      {
        assert s in free;
        room := ItemSize(s);
        if room < n {
          assert LinkedAt(nextFree[..], prevFree[..], list, k + 1);
          s := nextFree[s];
          k := k + 1;
        }
      }
      assert k < |free| ==> free[k] != size;
    }

    /** rt_memheap_alloc: the offset of the memory, if there is any. */
    method Alloc(bytes: nat) returns (memory: Option<nat>)
      requires Valid() && Inv(State()) && bytes < 0x1_0000_0000
      modifies this, next, prev, nextFree, prevFree, used
      ensures Valid() && State() == MemheapSpec.Alloc(old(State()), bytes).0
      ensures memory == (match MemheapSpec.Alloc(old(State()), bytes).1
                         case None => None
                         case Some(s) => Some(s + Header))
    {
      hide Ring, Marked, Inv, Taken, FirstFit;
      var n := (bytes + 7) % 0x1_0000_0000 / 8 * 8;
      if n < MinAlloc {
        n := MinAlloc;
      }
      memory := None;
      if n < available {
        var s, room; ghost var k;
        s, room, k := Search(n);
        if room >= n {
          TakeBlock(s, room, n);
          memory := Some(s + Header);
        }
      }
    }

    /** The block found is split when there is room for another header and the minimum, and marked as used. */
    method TakeBlock(s: nat, room: int, n: nat)
      requires Valid() && Inv(State()) && s in free && room == RoomOf(starts, s) >= n
      modifies this, next, prev, nextFree, prevFree, used
      ensures Valid() && State() == Taken(old(State()), IndexOf(old(starts), s), n)
    {
      hide Distinct, Ring, Without, Tiles, FreeSum, Marked;
      FreeBlock(State(), s);
      ghost var i := IndexOf(starts, s);
      IndexIs(starts, size, i);
      if room >= n + Header + MinAlloc {
        Split(i, s, n);
        available := available - n - Header;
      } else {
        available := available - room;
        TakeWhole(s);
      }
      if size - available > maxUsed {
        maxUsed := size - available;
      }
    }

    method Split(ghost i: nat, s: nat, n: nat)
      requires Valid() && Inv(State()) && s in free && i + 1 < |starts| && starts[i] == s
      requires Room(starts, i) >= n + Header + MinAlloc
      modifies `starts, `free, next, prev, nextFree, prevFree, used
      ensures Valid() && starts == old(starts)[..i + 1] + [s + n + Header] + old(starts)[i + 1..]
      ensures free == [s + n + Header] + Without<nat>(old(free), s)
    {
      var x := s + n + Header;
      hide Ring, Without, Distinct, Inv, Marked;
      SplitFacts(State(), used[..], i, x);
      ghost var used0 := used[..];
      used[x] := false;
      InsertBlock(i, s, x);
      starts := starts[..i + 1] + [x] + starts[i + 1..];
      ClearLinks(s);
      free := Without<nat>(free, s);
      PushFree(x);
      free := [x] + free;
      used[s] := true;
      assert used[..] == used0[x := false][s := true];
    }

    method TakeWhole(s: nat)
      requires Valid() && s in free && s in starts && s < size
      modifies `free, nextFree, prevFree, used
      ensures Valid() && free == Without<nat>(old(free), s)
    {
      WithoutKeepsOthers<nat>(free, s) by { FreeIsDistinct(nextFree[..], prevFree[..], size, free); }
      hide Ring, Without, Distinct;
      ClearLinks(s);
      free := Without<nat>(free, s);
      used[s] := true;
    }

    /** Remove the header from the free list, and clear its links. */
    method ClearLinks(s: nat)
      requires Fields() && Ring(nextFree[..], prevFree[..], [size] + free) && s in free && s < size
      modifies nextFree, prevFree
      ensures Ring(nextFree[..], prevFree[..], [size] + Without<nat>(free, s))
    {
      WithoutKeepsOthers<nat>(free, s) by { FreeIsDistinct(nextFree[..], prevFree[..], size, free); }
      hide Ring, Without, Distinct;
      UnlinkFree(s);
      ghost var next1, prev1 := nextFree[..], prevFree[..];
      nextFree[s] := -1;
      prevFree[s] := -1;
      RingElsewhere(next1, prev1, [size] + Without<nat>(free, s), nextFree[..], prevFree[..]);
    }

    /** The pool is p, but for the block h: it may be missing from the free list, in front of which it belongs. */
    ghost predicate Nearly(p: Pool, h: nat, listed: bool)
      reads this, next, prev, nextFree, prevFree, used
    {
      && Fields() && p.size == size && p.starts == starts && p.available == available && p.maxUsed == maxUsed
      && p.free == (if listed then free else [h] + free)
      && Ring(next[..], prev[..], starts)
      && Ring(nextFree[..], prevFree[..], [size] + free)
      && Marked(used[..], starts, p.free)
    }

    /** Join block i, which is being freed, with the one before if that is free. */
    method MergeLeft(ghost p: Pool, ghost i: nat, s: nat) returns (h: nat, merged: bool)
      requires Nearly(p, s, false) && Sound(p) && i + 1 < |starts| && starts[i] == s
      modifies `starts, `available, next, prev
      ensures merged <==> i > 0 && p.starts[i - 1] in p.free
      ensures Nearly(if merged then Merged(p, i - 1) else p, h, merged)
      ensures h == if merged then p.starts[i - 1] else s
    {
      Neighbours(next[..], prev[..], p, i);
      h, merged := s, false;
      assert prev[s] in starts;
      if !used[prev[s]] {
        hide Ring, Marked, Distinct, Without, Tiles, FreeSum;
        available := available + Header;
        h, merged := prev[s], true;
        RemoveBlock(i, s);
        starts := starts[..i] + starts[i + 1..];
        MergedMarks(used[..], p, i - 1);
      }
    }

    /** Join block j with the one behind it if that is free. */
    method MergeRight(ghost p: Pool, ghost j: nat, h: nat, ghost listed: bool)
      requires Nearly(p, h, listed) && Sound(p) && j + 1 < |starts| && starts[j] == h && h in p.free
      modifies `starts, `available, `free, next, prev, nextFree, prevFree
      ensures Nearly(MergedRight(p, j), h, listed) && Sound(MergedRight(p, j))
    {
      hide Ring, Distinct, Tiles, FreeSum, Sound, Without;
      Neighbours(next[..], prev[..], p, j);
      assert next[h] in starts;
      if !used[next[h]] {
        hide Marked;
        MergedKeeps(p, j);
        available := available + Header;
        var after := next[h];
        WithoutBehind(h, free, after);
        RemoveBlock(j + 1, after);
        starts := starts[..j + 1] + starts[j + 2..];
        UnlinkFree(after);
        free := Without<nat>(free, after);
        MergedMarks(used[..], p, j);
      }
    }

    /** rt_memheap_free of the memory of block s. */
    method Free(s: nat)
      requires Valid() && Inv(State()) && s in starts && s !in free && s + Header < size
      modifies this, next, prev, nextFree, prevFree, used
      ensures Valid() && State() == MemheapSpec.Free(old(State()), IndexOf(old(starts), s))
    {
      hide Ring, Marked, Distinct, Tiles, FreeSum, Without, Apart;
      ghost var p, i := State(), IndexOf(starts, s);
      Ends(p);
      FreeFacts(p, used[..], s);
      ReleasedKeeps(p, i);
      var room := ItemSize(s);
      ghost var was := used[..];
      used[s] := false;
      assert used[..] == was[s := false];
      available := available + room;
      ghost var p1 := Released(p, i);
      var h, merged := MergeLeft(p1, i, s);
      ghost var p2, j := if merged then Merged(p1, i - 1) else p1, if merged then i - 1 else i;
      if merged { LeftIsSound(p1, i - 1); }
      MergeRight(p2, j, h, merged);
      if !merged {
        DistinctTail([h] + free);
        assert ([h] + free)[1..] == free;
        PushFree(h);
        free := [h] + free;
      }
    }
  }

  lemma RingOfTwo(next: seq<int>, prev: seq<int>, a: nat, b: nat)
    requires a != b && a < |next| == |prev| && b < |next|
    requires next[a] == prev[a] == b && next[b] == prev[b] == a
    ensures Ring(next, prev, [a, b])
  {
  }

  /** The neighbours of block i that the links lead to, and when they are marked as used. */
  lemma Neighbours(next: seq<int>, prev: seq<int>, p: Pool, i: nat)
    requires Ring(next, prev, p.starts) && Sound(p) && i + 1 < |p.starts|
    ensures var s := p.starts[i];
            && s < |next| && s < |prev| && next[s] == p.starts[i + 1] > s
            && prev[s] == p.starts[if i > 0 then i - 1 else |p.starts| - 1]
            && (i == 0 ==> prev[s] !in p.free)
  {
    assert Room(p.starts, i) >= 0;
    var before := if i > 0 then i - 1 else |p.starts| - 1;
    assert Succ(before, |p.starts|) == i;
    assert LinkedAt(next, prev, p.starts, i) && LinkedAt(next, prev, p.starts, before);
  }

  lemma WithoutBehind(h: nat, free: seq<nat>, s: nat)
    requires s != h
    ensures Without<nat>([h] + free, s) == [h] + Without<nat>(free, s)
    ensures s in [h] + free ==> s in free
  {
  }

  lemma FreeFacts(p: Pool, used: seq<bool>, s: nat)
    requires Inv(p) && s in p.starts && s !in p.free && s + Header < p.size && Marked(used, p.starts, p.free)
    ensures s < |used| && Marked(used[s := false], p.starts, [s] + p.free)
    ensures IndexOf(p.starts, s) + 1 < |p.starts| && RoomOf(p.starts, s) == Room(p.starts, IndexOf(p.starts, s))
  {
  }

  lemma LeftIsSound(p: Pool, i: nat)
    requires Sound(p) && i + 2 < |p.starts| && p.starts[i] in p.free && p.starts[i + 1] in p.free
    ensures var p' := Merged(p, i);
            Sound(p') && i + 1 < |p'.starts| && p'.starts[i] == p.starts[i] && p'.starts[i] in p'.free
  {
    MergedKeeps(p, i);
    WithoutKeepsOthers<nat>(p.free, p.starts[i + 1]);
    AllIncreasing(p.starts, p.size);
  }

  lemma MergedMarks(used: seq<bool>, p: Pool, i: nat)
    requires Sound(p) && i + 1 < |p.starts| && p.starts[i + 1] in p.free && Marked(used, p.starts, p.free)
    ensures Marked(used, Merged(p, i).starts, Merged(p, i).free)
  {
    FreeBlock(p, p.starts[i + 1]);
    IndexIs(p.starts, p.size, i + 1);
    AllIncreasing(p.starts, p.size);
    MergedMembers(p.starts, i);
    WithoutKeepsOthers<nat>(p.free, p.starts[i + 1]);
  }

  lemma SplitFacts(p: Pool, used: seq<bool>, i: nat, x: nat)
    requires Inv(p) && i + 1 < |p.starts| && p.starts[i] in p.free && Marked(used, p.starts, p.free)
    requires p.starts[i] + Header <= x && x + Header <= p.starts[i + 1] && |used| == p.size + 1
    ensures var s := p.starts[i];
            && s < x < p.size && x !in p.starts && x !in p.free && x !in Without<nat>(p.free, s)
            && Marked(used[x := false][s := true], p.starts[..i + 1] + [x] + p.starts[i + 1..],
                      [x] + Without<nat>(p.free, s))
  {
    var s := p.starts[i];
    TailerBehind(p, i);
    SplitMembers(p, i, x);
    FreeInPool(p);
    WithoutKeepsOthers<nat>(p.free, s);
    hide Without, Distinct, Inv;
    MarkedSplit(used, p.starts, p.free, p.starts[..i + 1] + [x] + p.starts[i + 1..], [x] + Without<nat>(p.free, s), s, x);
  }

  lemma MarkedSplit(used: seq<bool>, starts: seq<nat>, free: seq<nat>, starts': seq<nat>, free': seq<nat>, s: nat, x: nat)
    requires Marked(used, starts, free) && s in starts && x !in starts && x < |used|
    requires forall y :: y in starts' <==> y in starts || y == x
    requires forall y :: y in free' <==> y == x || (y in free && y != s)
    ensures s < |used| && Marked(used[x := false][s := true], starts', free')
  {
  }

  lemma FreeInPool(p: Pool)
    requires Inv(p)
    ensures Distinct(p.free) && forall s :: s in p.free ==> s in p.starts && s + Header < p.size
    ensures forall s :: s in p.starts ==> s < p.size
  {
    AllIncreasing(p.starts, p.size);
  }

  lemma FreeIsDistinct(next: seq<int>, prev: seq<int>, size: nat, free: seq<nat>)
    requires Ring(next, prev, [size] + free)
    ensures Distinct(free) && size !in free && |next| == |prev|
  {
    DistinctTail([size] + free);
    assert ([size] + free)[1..] == free;
  }

  lemma WithoutRing(size: nat, free: seq<nat>, s: nat, k: nat)
    requires k < |free| && Without<nat>(free, s) == free[..k] + free[k + 1..]
    ensures ([size] + free)[..k + 1] + ([size] + free)[k + 2..] == [size] + Without<nat>(free, s)
  {
  }

  /** A block of the ring is marked as used iff it is not on the free list. */
  ghost predicate Marked(used: seq<bool>, starts: seq<nat>, free: seq<nat>) {
    forall s :: s in starts ==> s < |used| && (used[s] <==> s !in free)
  }
}
