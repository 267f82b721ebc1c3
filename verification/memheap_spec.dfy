/** The memory pools of memheap.c: blocks that tile a pool, each with a header of 24 bytes, the last one a used block of
    no size; and the list of the free blocks. */
module MemheapSpec {
  import opened Prelude
  import opened Lists

  /** RT_MEMHEAP_SIZE, and RT_MEMHEAP_MINIALLOC. */
  const Header: nat := 24
  const MinAlloc: nat := 12

  /** `starts` are the offsets of the blocks in the order of the ring, the tailer last; `free` those of the free blocks in
      the order of the free list. */
  datatype Pool = Pool(size: nat, starts: seq<nat>, free: seq<nat>, available: int, maxUsed: int)

  /** What a request is rounded to: RT_ALIGN in 32-bit arithmetic, and at least the minimum. */
  function Request(size: nat): (n: nat)
    requires size < 0x1_0000_0000
    ensures MinAlloc <= n && n % 4 == 0 && (n >= size <==> size <= 0xFFFF_FFF8)
  {
    var n := (size + 7) % 0x1_0000_0000 / 8 * 8;
    if n < MinAlloc then MinAlloc else n
  }

  function IndexOf(starts: seq<nat>, s: nat): (i: nat)
    requires s in starts
    ensures i < |starts| && starts[i] == s
  {
    if starts[0] == s then 0 else 1 + IndexOf(starts[1..], s)
  }

  /** MEMITEM_SIZE of block i. */
  function Room(starts: seq<nat>, i: nat): int
    requires i + 1 < |starts|
  {
    starts[i + 1] - starts[i] - Header
  }

  function RoomOf(starts: seq<nat>, s: nat): int {
    if s in starts && IndexOf(starts, s) + 1 < |starts| then Room(starts, IndexOf(starts, s)) else 0
  }

  /** The first block of the free list from k on that has room, or the end of the list. */
  function FirstFit(p: Pool, n: nat, k: nat): (r: nat)
    requires k <= |p.free|
    ensures k <= r <= |p.free|
    decreases |p.free| - k
  {
    if k == |p.free| || RoomOf(p.starts, p.free[k]) >= n then k else FirstFit(p, n, k + 1)
  }

  function Max(a: int, b: int): int { if a < b then b else a }

  /** Block i, which is free and has room for n bytes, is split or taken whole. */
  function Taken(p: Pool, i: nat, n: nat): Pool
    requires i + 1 < |p.starts|
  {
    var s := p.starts[i];
    var left := p.available - (if Room(p.starts, i) >= n + Header + MinAlloc then n + Header else Room(p.starts, i));
    var free := Without<nat>(p.free, s);
    if Room(p.starts, i) >= n + Header + MinAlloc then
      var x := s + n + Header;
      Pool(p.size, p.starts[..i + 1] + [x] + p.starts[i + 1..], [x] + free, left, Max(p.maxUsed, p.size - left))
    else
      Pool(p.size, p.starts, free, left, Max(p.maxUsed, p.size - left))
  }

  /** rt_memheap_alloc: the pool after the call, and the block of the memory returned. */
  function Alloc(p: Pool, size: nat): (Pool, Option<nat>)
    requires size < 0x1_0000_0000
  {
    var n := Request(size);
    var k := FirstFit(p, n, 0);
    if n >= p.available || k == |p.free| then (p, None)
    else
      var s := p.free[k];
      if s in p.starts && IndexOf(p.starts, s) + 1 < |p.starts| then
        (Taken(p, IndexOf(p.starts, s), n), Some(s))
      else (p, None)
  }

  /** Block i becomes free. */
  function Released(p: Pool, i: nat): Pool
    requires i + 1 < |p.starts|
  {
    p.(free := [p.starts[i]] + p.free, available := p.available + Room(p.starts, i))
  }

  /** The free blocks i and i + 1 become one. */
  function Merged(p: Pool, i: nat): Pool
    requires i + 1 < |p.starts|
  {
    p.(starts := p.starts[..i + 1] + p.starts[i + 2..], free := Without<nat>(p.free, p.starts[i + 1]),
       available := p.available + Header)
  }

  function MergedRight(p: Pool, i: nat): Pool
    requires i + 1 < |p.starts|
  {
    if p.starts[i + 1] in p.free then Merged(p, i) else p
  }

  /** rt_memheap_free of the memory of block i. */
  function Free(p: Pool, i: nat): Pool
    requires i + 1 < |p.starts|
  {
    var p1 := Released(p, i);
    if i > 0 && p.starts[i - 1] in p.free then MergedRight(Merged(p1, i - 1), i - 1) else MergedRight(p1, i)
  }

  // ---------------------------------------------------------------- invariant

  /** The blocks tile the pool. */
  ghost predicate Tiles(starts: seq<nat>, size: nat) {
    && |starts| >= 2 && starts[0] == 0 && starts[|starts| - 1] + Header == size
    && forall i :: 0 <= i < |starts| - 1 ==> Room(starts, i) >= 0
  }

  /** The total room of the free blocks. */
  function FreeSum(starts: seq<nat>, free: seq<nat>): int {
    if |starts| < 2 then 0
    else (if starts[0] in free then starts[1] - starts[0] - Header else 0) + FreeSum(starts[1..], free)
  }

  ghost predicate FreeOk(p: Pool) {
    && Distinct(p.free)
    && (forall s :: s in p.free ==> s in p.starts && s + Header < p.size)
    && p.available == FreeSum(p.starts, p.free) && p.size - p.available <= p.maxUsed
  }

  ghost predicate Apart(p: Pool) {
    forall i :: 0 <= i < |p.starts| - 1 ==> !(p.starts[i] in p.free && p.starts[i + 1] in p.free)
  }

  ghost predicate Sound(p: Pool) { Tiles(p.starts, p.size) && FreeOk(p) }

  ghost predicate Inv(p: Pool) { Sound(p) && Apart(p) }

  // ---------------------------------------------------------------- sums

  function Gap(a: nat, b: nat, free: seq<nat>): int { if a in free then b - a - Header else 0 }

  /** A sum, around block i. */
  lemma {:induction false} SumAt(starts: seq<nat>, free: seq<nat>, i: nat)
    requires i + 1 < |starts|
    ensures FreeSum(starts, free)
         == FreeSum(starts[..i + 1], free) + Gap(starts[i], starts[i + 1], free) + FreeSum(starts[i + 1..], free)
    decreases i
  {
    if i > 0 {
      SumAt(starts[1..], free, i - 1);
      assert starts[..i + 1][1..] == starts[1..][..i];
      assert starts[1..][i..] == starts[i + 1..];
    }
  }

  /** Only which blocks are free matters. */
  lemma {:induction false} SumSame(starts: seq<nat>, free: seq<nat>, free': seq<nat>)
    requires forall i :: 0 <= i < |starts| - 1 ==> (starts[i] in free <==> starts[i] in free')
    ensures FreeSum(starts, free) == FreeSum(starts, free')
    decreases |starts|
  {
    if |starts| >= 2 {
      assert forall i :: 0 <= i < |starts| - 2 ==> starts[1..][i] == starts[i + 1];
      SumSame(starts[1..], free, free');
    }
  }

  /** Blocks are in increasing order. */
  lemma {:induction false} Increasing(starts: seq<nat>, size: nat, i: nat, j: nat)
    requires Tiles(starts, size) && i < j < |starts|
    ensures starts[i] + Header <= starts[j]
    decreases j
  {
    assert Room(starts, j - 1) >= 0;
    if i < j - 1 {
      Increasing(starts, size, i, j - 1);
    }
  }

  lemma AllIncreasing(starts: seq<nat>, size: nat)
    requires Tiles(starts, size)
    ensures forall i, j :: 0 <= i < j < |starts| ==> starts[i] + Header <= starts[j]
    ensures Distinct(starts)
  {
    forall i, j | 0 <= i < j < |starts|
      ensures starts[i] + Header <= starts[j]
    {
      Increasing(starts, size, i, j);
    }
  }

  lemma IndexIs(starts: seq<nat>, size: nat, i: nat)
    requires Tiles(starts, size) && i < |starts|
    ensures IndexOf(starts, starts[i]) == i
    ensures i + 1 < |starts| ==> RoomOf(starts, starts[i]) == Room(starts, i)
  {
    AllIncreasing(starts, size);
  }

  // ---------------------------------------------------------------- alloc

  /** What remains of a split block is a free block of its own. */
  lemma SplitTiles(p: Pool, i: nat, x: nat)
    requires Tiles(p.starts, p.size) && i + 1 < |p.starts|
    requires p.starts[i] + Header <= x && x + Header <= p.starts[i + 1]
    ensures Tiles(p.starts[..i + 1] + [x] + p.starts[i + 1..], p.size)
  {
    var starts := p.starts[..i + 1] + [x] + p.starts[i + 1..];
    assert starts[i + 1] == x;
    assert forall k :: 0 <= k < |starts| && k != i + 1 ==> starts[k] == p.starts[if k <= i then k else k - 1];
    forall k | 0 <= k < |starts| - 1
      ensures Room(starts, k) >= 0
    {
      if k < i { assert Room(p.starts, k) >= 0; }
      if k > i + 1 { assert Room(p.starts, k - 1) >= 0; }
    }
  }

  lemma SplitMembers(p: Pool, i: nat, x: nat)
    requires Tiles(p.starts, p.size) && i + 1 < |p.starts|
    requires p.starts[i] + Header <= x && x + Header <= p.starts[i + 1]
    ensures forall s :: s in p.starts[..i + 1] + [x] + p.starts[i + 1..] <==> s in p.starts || s == x
    ensures x !in p.starts
  {
    assert p.starts == p.starts[..i + 1] + p.starts[i + 1..];
    AllIncreasing(p.starts, p.size);
    forall k | 0 <= k < |p.starts|
      ensures p.starts[k] != x
    {
      assert k < i ==> p.starts[k] <= p.starts[i];
      assert k > i + 1 ==> p.starts[i + 1] <= p.starts[k];
    }
  }

  /** Blocks up to i, and blocks behind it, are as free as before. */
  lemma TakenSums(p: Pool, i: nat, free: seq<nat>)
    requires Tiles(p.starts, p.size) && i + 1 < |p.starts|
    requires forall s :: s in p.starts && s != p.starts[i] ==> (s in free <==> s in p.free)
    ensures FreeSum(p.starts[..i + 1], free) == FreeSum(p.starts[..i + 1], p.free)
    ensures FreeSum(p.starts[i + 1..], free) == FreeSum(p.starts[i + 1..], p.free)
  {
    AllIncreasing(p.starts, p.size);
    SumSame(p.starts[..i + 1], free, p.free);
    SumSame(p.starts[i + 1..], free, p.free);
  }

  /** Taking block i whole. */
  lemma TakenWholeKeeps(p: Pool, i: nat, n: nat)
    requires Inv(p) && i + 1 < |p.starts| && p.starts[i] in p.free
    requires 0 <= n <= Room(p.starts, i) < n + Header + MinAlloc
    ensures Inv(Taken(p, i, n))
  {
    var p', s := Taken(p, i, n), p.starts[i];
    WithoutKeepsOthers<nat>(p.free, s);
    hide Distinct, Without;
    TakenSums(p, i, p'.free);
    SumAt(p.starts, p.free, i);
    SumAt(p.starts, p'.free, i);
  }

  lemma SplitSums(p: Pool, i: nat, x: nat, free: seq<nat>)
    requires Tiles(p.starts, p.size) && i + 1 < |p.starts| && x !in p.starts && p.starts[i] in p.free
    requires forall s :: s in free <==> s == x || (s in p.free && s != p.starts[i])
    ensures FreeSum(p.starts[..i + 1] + [x] + p.starts[i + 1..], free)
         == FreeSum(p.starts, p.free) - Room(p.starts, i) + (p.starts[i + 1] - x - Header)
  {
    var starts := p.starts[..i + 1] + [x] + p.starts[i + 1..];
    TakenSums(p, i, free);
    SumAt(p.starts, p.free, i);
    SumAt(starts, free, i);
    assert starts[..i + 1] == p.starts[..i + 1] && starts[i + 1..] == [x] + p.starts[i + 1..];
    assert ([x] + p.starts[i + 1..])[1..] == p.starts[i + 1..];
    AllIncreasing(p.starts, p.size);
  }

  lemma SplitApart(p: Pool, i: nat, x: nat, free: seq<nat>)
    requires Apart(p) && i + 1 < |p.starts| && x !in p.starts && p.starts[i] in p.free
    requires forall s :: s in free <==> s == x || (s in p.free && s != p.starts[i])
    ensures var starts := p.starts[..i + 1] + [x] + p.starts[i + 1..];
            forall k :: 0 <= k < |starts| - 1 ==> !(starts[k] in free && starts[k + 1] in free)
  {
    var starts := p.starts[..i + 1] + [x] + p.starts[i + 1..];
    assert starts[i + 1] == x && starts[i] == p.starts[i];
    forall k | 0 <= k < |starts| - 1
      ensures !(starts[k] in free && starts[k + 1] in free)
    {
      if k < i {
        assert starts[k] == p.starts[k] && starts[k + 1] == p.starts[k + 1];
      } else if k > i {
        assert starts[k + 1] == p.starts[k];
        assert k > i + 1 ==> starts[k] == p.starts[k - 1];
      }
    }
  }

  /** Splitting block i. */
  lemma TakenSplitKeeps(p: Pool, i: nat, n: nat)
    requires Inv(p) && i + 1 < |p.starts| && p.starts[i] in p.free
    requires Room(p.starts, i) >= n + Header + MinAlloc
    ensures Inv(Taken(p, i, n))
  {
    var p', s := Taken(p, i, n), p.starts[i];
    var x := s + n + Header;
    SplitTiles(p, i, x);
    SplitMembers(p, i, x);
    WithoutKeepsOthers<nat>(p.free, s);
    assert p'.free == [x] + Without<nat>(p.free, s);
    DistinctTail(p'.free);
    hide Without, Distinct, Tiles;
    assert x + Header < p.size by { TailerBehind(p, i); }
    SplitSums(p, i, x, p'.free);
    SplitApart(p, i, x, p'.free);
    hide FreeSum;
    assert FreeOk(p');
  }

  lemma TailerBehind(p: Pool, i: nat)
    requires Tiles(p.starts, p.size) && i + 1 < |p.starts|
    ensures p.starts[i + 1] < p.size
  {
    AllIncreasing(p.starts, p.size);
  }

  lemma {:induction false} FirstFitIs(p: Pool, n: nat, k: nat)
    requires k <= |p.free|
    ensures var r := FirstFit(p, n, k);
            (forall j :: k <= j < r ==> RoomOf(p.starts, p.free[j]) < n)
            && (r < |p.free| ==> RoomOf(p.starts, p.free[r]) >= n)
    decreases |p.free| - k
  {
    if k < |p.free| && RoomOf(p.starts, p.free[k]) < n {
      FirstFitIs(p, n, k + 1);
    }
  }

  lemma AllocKeeps(p: Pool, size: nat)
    requires Inv(p) && size < 0x1_0000_0000
    ensures Inv(Alloc(p, size).0)
  {
    var n := Request(size);
    var k := FirstFit(p, n, 0);
    FirstFitIs(p, n, 0);
    if n < p.available && k < |p.free| {
      FreeBlock(p, p.free[k]);
      var i := IndexOf(p.starts, p.free[k]);
      IndexIs(p.starts, p.size, i);
      hide Tiles, FreeOk, Apart, Taken;
      if Room(p.starts, i) >= n + Header + MinAlloc {
        TakenSplitKeeps(p, i, n);
      } else {
        TakenWholeKeeps(p, i, n);
      }
    }
  }

  lemma FreeBlock(p: Pool, s: nat)
    requires Sound(p) && s in p.free
    ensures s in p.starts && IndexOf(p.starts, s) + 1 < |p.starts|
  {
  }

  /** An allocation fails exactly when as much as all the available memory is asked for, or no free block has room; and
      otherwise it returns a block that was free, is used now, and has room. */
  lemma AllocComplete(p: Pool, size: nat)
    requires Inv(p) && size < 0x1_0000_0000
    ensures var (p', r) := Alloc(p, size);
            && (r.None? <==> Request(size) >= p.available || forall s :: s in p.free ==> RoomOf(p.starts, s) < Request(size))
            && (r.None? ==> p' == p)
            && (r.Some? ==> r.value in p.free && r.value in p'.starts && r.value !in p'.free
                            && RoomOf(p'.starts, r.value) >= Request(size))
  {
    var n := Request(size);
    var k := FirstFit(p, n, 0);
    FirstFitIs(p, n, 0);
    if k < |p.free| {
      FreeBlock(p, p.free[k]);
      if n < p.available {
        TakenBlock(p, IndexOf(p.starts, p.free[k]), n);
      }
    } else {
      assert forall s :: s in p.free ==> exists j :: 0 <= j < |p.free| && p.free[j] == s;
    }
  }

  lemma TakenBlock(p: Pool, i: nat, n: nat)
    requires Inv(p) && i + 1 < |p.starts| && p.starts[i] in p.free && RoomOf(p.starts, p.starts[i]) >= n
    ensures var p', s := Taken(p, i, n), p.starts[i];
            s in p'.starts && s !in p'.free && RoomOf(p'.starts, s) >= n
  {
    var p', s := Taken(p, i, n), p.starts[i];
    IndexIs(p.starts, p.size, i);
    WithoutKeepsOthers<nat>(p.free, s);
    if Room(p.starts, i) >= n + Header + MinAlloc {
      SplitTiles(p, i, s + n + Header);
      SplitMembers(p, i, s + n + Header);
      assert p'.free == [s + n + Header] + Without<nat>(p.free, s);
      assert p'.starts[i] == s && p'.starts[i + 1] == s + n + Header;
      IndexIs(p'.starts, p'.size, i);
    }
  }

  // ---------------------------------------------------------------- free

  /** Block i may be freed: it is used, and not the tailer. */
  ghost predicate Live(p: Pool, i: nat) {
    i + 1 < |p.starts| && p.starts[i] !in p.free
  }

  lemma ReleasedKeeps(p: Pool, i: nat)
    requires Sound(p) && Live(p, i)
    ensures Sound(Released(p, i))
  {
    var p' := Released(p, i);
    AllIncreasing(p.starts, p.size);
    TakenSums(p, i, p'.free);
    SumAt(p.starts, p.free, i);
    SumAt(p.starts, p'.free, i);
    assert forall s :: s in p'.free <==> s == p.starts[i] || s in p.free;
    assert Room(p.starts, i) >= 0;
    Increasing(p.starts, p.size, i, |p.starts| - 1);
  }

  lemma MergedTiles(p: Pool, i: nat)
    requires Tiles(p.starts, p.size) && i + 2 < |p.starts|
    ensures Tiles(p.starts[..i + 1] + p.starts[i + 2..], p.size)
  {
    var starts := p.starts[..i + 1] + p.starts[i + 2..];
    assert forall k :: 0 <= k < |starts| ==> starts[k] == p.starts[if k <= i then k else k + 1];
    forall k | 0 <= k < |starts| - 1
      ensures Room(starts, k) >= 0
    {
      assert Room(p.starts, if k <= i then k else k + 1) >= 0;
      assert Room(p.starts, i + 1) >= 0;
    }
  }

  lemma MergedMembers(starts: seq<nat>, i: nat)
    requires Distinct(starts) && i + 1 < |starts|
    ensures forall s :: s in starts[..i + 1] + starts[i + 2..] <==> s in starts && s != starts[i + 1]
  {
    assert starts == starts[..i + 1] + [starts[i + 1]] + starts[i + 2..];
  }

  lemma MergedSums(p: Pool, i: nat, free: seq<nat>)
    requires Tiles(p.starts, p.size) && i + 2 < |p.starts| && p.starts[i] in p.free && p.starts[i + 1] in p.free
    requires forall s :: s in free <==> s in p.free && s != p.starts[i + 1]
    ensures FreeSum(p.starts[..i + 1] + p.starts[i + 2..], free) == FreeSum(p.starts, p.free) + Header
  {
    var starts, left, right := p.starts[..i + 1] + p.starts[i + 2..], p.starts[..i + 1], p.starts[i + 2..];
    AllIncreasing(p.starts, p.size);
    SumSame(left, free, p.free);
    SumSame(right, free, p.free);
    SumAt(p.starts, p.free, i);
    SumNext(p.starts, p.free, i + 1);
    SumAt(starts, free, i);
    assert starts[..i + 1] == left && starts[i + 1..] == right;
    hide FreeSum;
  }

  lemma SumNext(starts: seq<nat>, free: seq<nat>, i: nat)
    requires i + 1 < |starts|
    ensures FreeSum(starts[i..], free) == Gap(starts[i], starts[i + 1], free) + FreeSum(starts[i + 1..], free)
  {
    assert starts[i..][1..] == starts[i + 1..];
  }

  lemma MergedKeeps(p: Pool, i: nat)
    requires Sound(p) && i + 1 < |p.starts| && p.starts[i] in p.free && p.starts[i + 1] in p.free
    ensures Sound(Merged(p, i))
  {
    FreeBlock(p, p.starts[i + 1]);
    IndexIs(p.starts, p.size, i + 1);
    WithoutKeepsOthers<nat>(p.free, p.starts[i + 1]);
    MergedTiles(p, i);
    AllIncreasing(p.starts, p.size);
    MergedMembers(p.starts, i);
    MergedSums(p, i, Without<nat>(p.free, p.starts[i + 1]));
  }

  /** Two neighbours are both free at most at i. */
  ghost predicate ApartBut(p: Pool, i: int) {
    forall k :: 0 <= k < |p.starts| - 1 && k != i ==> !(p.starts[k] in p.free && p.starts[k + 1] in p.free)
  }

  lemma MergedApart(p: Pool, i: nat)
    requires Sound(p) && i + 2 < |p.starts| && p.starts[i] in p.free && p.starts[i + 1] in p.free
    ensures var starts, free := p.starts[..i + 1] + p.starts[i + 2..], Without<nat>(p.free, p.starts[i + 1]);
            forall k :: 0 <= k < |starts| - 1 ==>
              && (k < i ==> (starts[k] in free && starts[k + 1] in free <==> p.starts[k] in p.free && p.starts[k + 1] in p.free))
              && (k == i ==> (starts[k] in free && starts[k + 1] in free <==> p.starts[k + 2] in p.free))
              && (k > i ==> (starts[k] in free && starts[k + 1] in free <==> p.starts[k + 1] in p.free && p.starts[k + 2] in p.free))
  {
    var starts, free := p.starts[..i + 1] + p.starts[i + 2..], Without<nat>(p.free, p.starts[i + 1]);
    MergedFree(p, i);
    hide Without, Sound;
    assert forall k :: 0 <= k < |starts| ==> (starts[k] in free <==> p.starts[if k <= i then k else k + 1] in p.free);
  }

  lemma MergedFree(p: Pool, i: nat)
    requires Sound(p) && i + 1 < |p.starts| && p.starts[i + 1] in p.free
    ensures var starts, free := p.starts[..i + 1] + p.starts[i + 2..], Without<nat>(p.free, p.starts[i + 1]);
            forall k :: 0 <= k < |starts| ==> (starts[k] in free <==> p.starts[if k <= i then k else k + 1] in p.free)
  {
    AllIncreasing(p.starts, p.size);
    WithoutKeepsOthers<nat>(p.free, p.starts[i + 1]);
    hide Without;
  }

  lemma MergedRightKeeps(p: Pool, i: nat)
    requires Sound(p) && ApartBut(p, i) && i + 1 < |p.starts| && p.starts[i] in p.free
    ensures Inv(MergedRight(p, i))
  {
    if p.starts[i + 1] in p.free {
      FreeBlock(p, p.starts[i + 1]);
      IndexIs(p.starts, p.size, i + 1);
      MergedKeeps(p, i);
      MergedApart(p, i);
      hide Sound, Without;
      var p' := Merged(p, i);
      forall k | 0 <= k < |p'.starts| - 1
        ensures !(p'.starts[k] in p'.free && p'.starts[k + 1] in p'.free)
      {
        assert k < i ==> !(p.starts[k] in p.free && p.starts[k + 1] in p.free);
        assert k >= i ==> !(p.starts[k + 1] in p.free && p.starts[k + 2] in p.free);
      }
    }
  }

  /** Joining with the block before. */
  lemma MergedLeftKeeps(p: Pool, i: nat)
    requires Sound(p) && 0 < i && i + 1 < |p.starts| && p.starts[i - 1] in p.free && p.starts[i] in p.free
    requires forall k :: 0 <= k < |p.starts| - 1 && k != i && k != i - 1 ==> !(p.starts[k] in p.free && p.starts[k + 1] in p.free)
    ensures var p' := Merged(p, i - 1);
            Sound(p') && ApartBut(p', i - 1) && i < |p'.starts| && p'.starts[i - 1] in p'.free
  {
    MergedKeeps(p, i - 1);
    MergedApart(p, i - 1);
    AllIncreasing(p.starts, p.size);
    WithoutKeepsOthers<nat>(p.free, p.starts[i]);
    hide Sound, Without;
    var p' := Merged(p, i - 1);
    forall k | 0 <= k < |p'.starts| - 1 && k != i - 1
      ensures !(p'.starts[k] in p'.free && p'.starts[k + 1] in p'.free)
    {
      assert k < i - 1 ==> !(p.starts[k] in p.free && p.starts[k + 1] in p.free);
      assert k > i - 1 ==> !(p.starts[k + 1] in p.free && p.starts[k + 2] in p.free);
    }
  }

  lemma ReleasedApart(p: Pool, i: nat)
    requires Inv(p) && Live(p, i)
    ensures var p' := Released(p, i);
            && (forall k :: 0 <= k < |p.starts| - 1 && k != i && k != i - 1 ==>
                  !(p'.starts[k] in p'.free && p'.starts[k + 1] in p'.free))
            && (i > 0 && p.starts[i - 1] !in p.free ==> ApartBut(p', i))
            && (i == 0 ==> ApartBut(p', i))
            && forall k :: 0 <= k < |p.starts| && k != i ==> (p'.starts[k] in p'.free <==> p.starts[k] in p.free)
  {
    AllIncreasing(p.starts, p.size);
    hide Tiles, FreeOk;
  }

  lemma FreeKeeps(p: Pool, i: nat)
    requires Inv(p) && Live(p, i)
    ensures Inv(Free(p, i))
  {
    ReleasedKeeps(p, i);
    ReleasedApart(p, i);
    var p1 := Released(p, i);
    hide Sound, Merged, MergedRight, ApartBut;
    if i > 0 && p.starts[i - 1] in p.free {
      assert p1.starts[i - 1] in p1.free;
      MergedLeftKeeps(p1, i);
      MergedRightKeeps(Merged(p1, i - 1), i - 1);
    } else {
      MergedRightKeeps(p1, i);
    }
  }

  // ---------------------------------------------------------------- other blocks stay

  ghost predicate UsedAt(starts: seq<nat>, free: seq<nat>, k: int, s: nat, e: nat) {
    0 <= k < |starts| - 1 && starts[k] == s && starts[k + 1] == e && s !in free
  }

  /** The block at s is allocated, and the next one begins at e. */
  ghost predicate Allocated(p: Pool, s: nat, e: nat) { UsedIn(p.starts, p.free, s, e) }

  ghost predicate UsedIn(starts: seq<nat>, free: seq<nat>, s: nat, e: nat) {
    exists k :: UsedAt(starts, free, k, s, e)
  }

  /** The blocks allocated are the same, apart from the one at x. */
  ghost predicate SameBut(p: Pool, p': Pool, x: nat) {
    forall s, e :: s != x ==> (Allocated(p', s, e) <==> Allocated(p, s, e))
  }

  lemma TakenWholeOthers(p: Pool, i: nat, n: nat)
    requires Distinct(p.free) && i + 1 < |p.starts| && p.starts[i] in p.free && Room(p.starts, i) < n + Header + MinAlloc
    ensures SameBut(p, Taken(p, i, n), p.starts[i])
  {
    var p' := Taken(p, i, n);
    WithoutKeepsOthers<nat>(p.free, p.starts[i]);
    hide Without, Distinct;
    forall s, e | s != p.starts[i]
      ensures Allocated(p', s, e) <==> Allocated(p, s, e)
    {
      assert forall k :: UsedAt(p'.starts, p'.free, k, s, e) <==> UsedAt(p.starts, p.free, k, s, e);
    }
  }

  lemma SplitOthers(p: Pool, i: nat, x: nat, free: seq<nat>, s: nat, e: nat)
    requires i + 1 < |p.starts| && s != p.starts[i] && x !in p.starts
    requires forall y :: y in free <==> y == x || (y in p.free && y != p.starts[i])
    ensures UsedIn(p.starts[..i + 1] + [x] + p.starts[i + 1..], free, s, e) <==> Allocated(p, s, e)
  {
    var starts := p.starts[..i + 1] + [x] + p.starts[i + 1..];
    assert starts[i + 1] == x;
    assert forall k :: 0 <= k < |starts| && k != i + 1 ==> starts[k] == p.starts[if k <= i then k else k - 1];
    if Allocated(p, s, e) {
      var k :| UsedAt(p.starts, p.free, k, s, e);
      assert s in p.starts;
      assert UsedAt(starts, free, if k < i then k else k + 1, s, e);
    }
    if k :| UsedAt(starts, free, k, s, e) {
      assert k != i && k != i + 1;
      assert UsedAt(p.starts, p.free, if k < i then k else k - 1, s, e);
    }
  }

  lemma TakenSplitOthers(p: Pool, i: nat, n: nat)
    requires Sound(p) && i + 1 < |p.starts| && p.starts[i] in p.free && Room(p.starts, i) >= n + Header + MinAlloc
    ensures SameBut(p, Taken(p, i, n), p.starts[i])
  {
    var p', x := Taken(p, i, n), p.starts[i] + n + Header;
    SplitMembers(p, i, x);
    WithoutKeepsOthers<nat>(p.free, p.starts[i]);
    assert p'.free == [x] + Without<nat>(p.free, p.starts[i]);
    hide Without, Sound;
    forall s, e | s != p.starts[i]
      ensures Allocated(p', s, e) <==> Allocated(p, s, e)
    {
      SplitOthers(p, i, x, p'.free, s, e);
    }
  }

  /** An allocation leaves every other allocated block where it is and as large as it is. */
  lemma AllocOthers(p: Pool, size: nat)
    requires Inv(p) && size < 0x1_0000_0000
    ensures var (p', r) := Alloc(p, size);
            match r case None => p' == p case Some(b) => SameBut(p, p', b) && forall e :: !Allocated(p, b, e)
  {
    var n := Request(size);
    var k := FirstFit(p, n, 0);
    if n < p.available && k < |p.free| {
      FreeBlock(p, p.free[k]);
      var i := IndexOf(p.starts, p.free[k]);
      hide Tiles, Apart, Taken, SameBut;
      if Room(p.starts, i) >= n + Header + MinAlloc {
        TakenSplitOthers(p, i, n);
      } else {
        TakenWholeOthers(p, i, n);
      }
    }
  }

  lemma JoinOthers(p: Pool, i: nat, free: seq<nat>, s: nat, e: nat)
    requires i + 1 < |p.starts| && p.starts[i] in p.free && p.starts[i + 1] in p.free && p.starts[i] in free
    requires forall k :: 0 <= k < |p.starts| && k != i + 1 ==> (p.starts[k] in free <==> p.starts[k] in p.free)
    ensures UsedIn(p.starts[..i + 1] + p.starts[i + 2..], free, s, e) <==> Allocated(p, s, e)
  {
    var starts := p.starts[..i + 1] + p.starts[i + 2..];
    assert forall k :: 0 <= k < |starts| ==> starts[k] == p.starts[if k <= i then k else k + 1];
    if Allocated(p, s, e) {
      var k :| UsedAt(p.starts, p.free, k, s, e);
      assert k != i && k != i + 1;
      assert UsedAt(starts, free, if k < i then k else k - 1, s, e);
    }
    if k :| UsedAt(starts, free, k, s, e) {
      assert k != i;
      assert UsedAt(p.starts, p.free, if k < i then k else k + 1, s, e);
    }
  }

  lemma MergedOthers(p: Pool, i: nat)
    requires Sound(p) && i + 1 < |p.starts| && p.starts[i] in p.free && p.starts[i + 1] in p.free
    ensures forall s, e :: Allocated(Merged(p, i), s, e) <==> Allocated(p, s, e)
  {
    var free := Without<nat>(p.free, p.starts[i + 1]);
    WithoutKeepsOthers<nat>(p.free, p.starts[i + 1]);
    AllIncreasing(p.starts, p.size);
    assert Merged(p, i).starts == p.starts[..i + 1] + p.starts[i + 2..] && Merged(p, i).free == free;
    assert forall k :: 0 <= k < |p.starts| && k != i + 1 ==> p.starts[k] != p.starts[i + 1];
    hide Without, Sound, Merged, UsedIn, Distinct;
    forall s, e
      ensures Allocated(Merged(p, i), s, e) <==> Allocated(p, s, e)
    {
      JoinOthers(p, i, free, s, e);
    }
  }

  lemma ReleasedOthers(p: Pool, i: nat)
    requires Sound(p) && i + 1 < |p.starts|
    ensures SameBut(p, Released(p, i), p.starts[i]) && forall e :: !Allocated(Released(p, i), p.starts[i], e)
  {
    var p' := Released(p, i);
    forall s, e | s != p.starts[i]
      ensures Allocated(p', s, e) <==> Allocated(p, s, e)
    {
      assert forall k :: UsedAt(p'.starts, p'.free, k, s, e) <==> UsedAt(p.starts, p.free, k, s, e);
    }
  }

  lemma MergedRightOthers(p: Pool, i: nat)
    requires Sound(p) && i + 1 < |p.starts| && p.starts[i] in p.free
    ensures forall s, e :: Allocated(MergedRight(p, i), s, e) <==> Allocated(p, s, e)
  {
    hide Sound, Allocated, Merged;
    if p.starts[i + 1] in p.free {
      MergedOthers(p, i);
    }
  }

  lemma MergedSame(p: Pool, i: nat)
    requires Sound(p) && i + 1 < |p.starts| && p.starts[i] in p.free && p.starts[i + 1] in p.free
    ensures i + 1 < |Merged(p, i).starts| && Merged(p, i).starts[i] == p.starts[i] && p.starts[i] in Merged(p, i).free
  {
    FreeBlock(p, p.starts[i + 1]);
    IndexIs(p.starts, p.size, i + 1);
    AllIncreasing(p.starts, p.size);
    WithoutKeepsOthers<nat>(p.free, p.starts[i + 1]);
  }

  /** A release takes exactly its own block from the allocated ones; every other one stays where and as large as it is. */
  lemma FreeOthers(p: Pool, i: nat)
    requires Inv(p) && Live(p, i)
    ensures SameBut(p, Free(p, i), p.starts[i]) && forall e :: !Allocated(Free(p, i), p.starts[i], e)
  {
    ReleasedKeeps(p, i);
    ReleasedOthers(p, i);
    var p1 := Released(p, i);
    assert p1.starts == p.starts && p1.free == [p.starts[i]] + p.free;
    hide Sound, Merged, MergedRight, Allocated, Released, Apart;
    if i > 0 && p.starts[i - 1] in p.free {
      assert p1.starts[i - 1] in p1.free && p1.starts[i] in p1.free;
      MergedKeeps(p1, i - 1);
      MergedSame(p1, i - 1);
      MergedOthers(p1, i - 1);
      MergedRightOthers(Merged(p1, i - 1), i - 1);
    } else {
      assert p1.starts[i] in p1.free;
      MergedRightOthers(p1, i);
    }
  }

  // ---------------------------------------------------------------- runs

  datatype Op = AllocOp(size: nat) | FreeOp(start: nat)

  /** Memory may be freed that was allocated and not freed since. */
  ghost predicate Legal(p: Pool, op: Op) {
    match op
    case AllocOp(size) => size < 0x1_0000_0000
    case FreeOp(s) => s in p.starts && s !in p.free && s + Header < p.size
  }

  ghost function Perform(p: Pool, op: Op): Pool
    requires Sound(p) && Legal(p, op)
  {
    match op
    case AllocOp(size) => Alloc(p, size).0
    case FreeOp(s) => Free(p, IndexOf(p.starts, s))
  }

  ghost predicate Reaches(p: Pool, ops: seq<Op>, p': Pool)
    decreases |ops|
  {
    if ops == [] then p' == p
    else Sound(p) && Legal(p, ops[0]) && Reaches(Perform(p, ops[0]), ops[1..], p')
  }

  /** rt_memheap_init. */
  function Initial(size: nat): Pool
    requires size >= 2 * Header
  {
    Pool(size, [0, size - Header], [0], size - 2 * Header, 2 * Header)
  }

  lemma InitialInv(size: nat)
    requires size >= 2 * Header
    ensures Inv(Initial(size))
  {
    assert Initial(size).starts[1..] == [size - Header];
  }

  lemma PerformKeeps(p: Pool, op: Op)
    requires Inv(p) && Legal(p, op)
    ensures Inv(Perform(p, op)) && Perform(p, op).size == p.size
  {
    match op
    case AllocOp(size) => AllocKeeps(p, size);
    case FreeOp(s) => FreeKeeps(p, IndexOf(p.starts, s));
  }

  lemma {:induction false} RunKeeps(p: Pool, ops: seq<Op>, p': Pool)
    requires Inv(p) && Reaches(p, ops, p')
    ensures Inv(p') && p'.size == p.size
    decreases |ops|
  {
    if ops != [] {
      hide Tiles, FreeOk, Apart, Legal, Perform;
      PerformKeeps(p, ops[0]);
      RunKeeps(Perform(p, ops[0]), ops[1..], p');
    }
  }

  lemma PerformOthers(p: Pool, op: Op, s: nat, e: nat)
    requires Inv(p) && Legal(p, op) && Allocated(p, s, e) && op != FreeOp(s)
    ensures Allocated(Perform(p, op), s, e)
  {
    hide Allocated, Alloc, Free;
    match op
    case AllocOp(size) => AllocOthers(p, size);
    case FreeOp(x) => FreeOthers(p, IndexOf(p.starts, x));
  }

  /** A block that is allocated and not freed stays where it is and as large as it is, over any run. */
  lemma {:induction false} BlockStays(p: Pool, ops: seq<Op>, p': Pool, s: nat, e: nat)
    requires Inv(p) && Reaches(p, ops, p') && Allocated(p, s, e) && FreeOp(s) !in ops
    ensures Allocated(p', s, e)
    decreases |ops|
  {
    if ops != [] {
      hide Tiles, FreeOk, Apart, Legal, Perform, Allocated;
      PerformKeeps(p, ops[0]);
      PerformOthers(p, ops[0], s, e);
      BlockStays(Perform(p, ops[0]), ops[1..], p', s, e);
    }
  }

  /** In every state that allocations and frees reach: headers and rooms of all blocks add up to the pool, the available
      size is the room of the free blocks, different blocks have disjoint memory inside the pool, and no free block has a
      free neighbour. When nothing is allocated, there is one free block with all the memory. */
  lemma PoolsTile(size: nat, ops: seq<Op>, p: Pool)
    requires size >= 2 * Header && Reaches(Initial(size), ops, p)
    ensures p.size == size && p.available == FreeSum(p.starts, p.free) && Apart(p)
    ensures UsedSum(p.starts, p.free) + p.available + Header * |p.starts| == size
    ensures forall i, j :: 0 <= i < j < |p.starts| - 1 ==>
      p.starts[i] + Header + Room(p.starts, i) <= p.starts[j] && p.starts[j] + Header + Room(p.starts, j) <= size - Header
    ensures (forall s :: s in p.starts && s + Header < size ==> s in p.free) ==>
      p.starts == [0, size - Header] && p.available == size - 2 * Header
  {
    hide Reaches, FreeSum, UsedSum, Tiles, Distinct;
    InitialInv(size);
    RunKeeps(Initial(size), ops, p);
    Ends(p);
    Total(p.starts, p.free);
    Disjoint(p.starts, size);
    if forall s :: s in p.starts && s + Header < size ==> s in p.free {
      TwoBlocks(p);
    }
  }

  lemma Ends(p: Pool)
    requires Tiles(p.starts, p.size)
    ensures |p.starts| >= 2 && p.starts[0] == 0 && p.starts[|p.starts| - 1] + Header == p.size
  {
  }

  lemma Disjoint(starts: seq<nat>, size: nat)
    requires Tiles(starts, size)
    ensures forall i, j :: 0 <= i < j < |starts| - 1 ==>
      starts[i] + Header + Room(starts, i) <= starts[j] && starts[j] + Header + Room(starts, j) <= size - Header
  {
    AllIncreasing(starts, size);
    forall i, j | 0 <= i < j < |starts| - 1
      ensures starts[i] + Header + Room(starts, i) <= starts[j]
      ensures starts[j] + Header + Room(starts, j) <= size - Header
    {
      assert j > i + 1 ==> starts[i + 1] + Header <= starts[j];
      assert j + 1 < |starts| - 1 ==> starts[j + 1] + Header <= starts[|starts| - 1];
    }
  }

  lemma TwoBlocks(p: Pool)
    requires Inv(p) && forall s :: s in p.starts && s + Header < p.size ==> s in p.free
    ensures p.starts == [0, p.size - Header] && p.available == p.size - 2 * Header
  {
    if |p.starts| > 2 {
      Increasing(p.starts, p.size, 0, |p.starts| - 1);
      Increasing(p.starts, p.size, 1, |p.starts| - 1);
      assert false;
    }
    Increasing(p.starts, p.size, 0, 1);
    assert p.starts[0] in p.starts;
    assert p.starts[0] in p.free;
    assert |p.starts[1..]| == 1 && FreeSum(p.starts[1..], p.free) == 0;
  }

  function UsedSum(starts: seq<nat>, free: seq<nat>): int {
    if |starts| < 2 then 0
    else (if starts[0] in free then 0 else starts[1] - starts[0] - Header) + UsedSum(starts[1..], free)
  }

  lemma {:induction false} Total(starts: seq<nat>, free: seq<nat>)
    requires |starts| > 0
    ensures FreeSum(starts, free) + UsedSum(starts, free) + Header * |starts|
         == starts[|starts| - 1] - starts[0] + Header
    decreases |starts|
  {
    if |starts| > 1 {
      Total(starts[1..], free);
    }
  }

  // ---------------------------------------------------------------- alignment

  ghost predicate Aligned(p: Pool) { AllAligned(p.starts) }

  ghost predicate AllAligned(starts: seq<nat>) {
    forall i :: 0 <= i < |starts| ==> starts[i] % 8 == 0
  }

  /** Blocks stay aligned to 8 bytes, except that splitting off the minimum of 12 bytes leaves one that is not. */
  lemma AllocAlignment(p: Pool, size: nat)
    requires Inv(p) && Aligned(p) && size < 0x1_0000_0000
    ensures var n := Request(size);
            var k := FirstFit(p, n, 0);
            Aligned(Alloc(p, size).0) <==>
              n > MinAlloc || n >= p.available || k == |p.free| || RoomOf(p.starts, p.free[k]) < n + Header + MinAlloc
  {
    var n := Request(size);
    var k := FirstFit(p, n, 0);
    hide Tiles, FreeOk, Apart, Aligned, Taken, FirstFit;
    FirstFitIs(p, n, 0);
    if n < p.available && k < |p.free| {
      FreeBlock(p, p.free[k]);
      TakenAlignment(p, IndexOf(p.starts, p.free[k]), n);
    }
  }

  lemma TakenAlignment(p: Pool, i: nat, n: nat)
    requires Aligned(p) && i + 1 < |p.starts| && Room(p.starts, i) >= n >= MinAlloc && (n == MinAlloc || n % 8 == 0)
    ensures Aligned(Taken(p, i, n)) <==> n > MinAlloc || Room(p.starts, i) < n + Header + MinAlloc
  {
    var s := p.starts[i];
    if Room(p.starts, i) >= n + Header + MinAlloc {
      hide Room;
      assert s % 8 == 0;
      SumAligned(s, n);
      InsertedAlignment(p.starts, i, s + n + Header);
      hide AllAligned;
    }
  }

  lemma SumAligned(s: nat, n: nat)
    requires s % 8 == 0
    ensures (s + n + Header) % 8 == n % 8
  {
  }

  lemma InsertedAlignment(starts: seq<nat>, i: nat, x: nat)
    requires i < |starts| && AllAligned(starts)
    ensures AllAligned(starts[..i + 1] + [x] + starts[i + 1..]) <==> x % 8 == 0
  {
    var l := starts[..i + 1] + [x] + starts[i + 1..];
    assert l[i + 1] == x;
    assert forall j :: 0 <= j < |l| && j != i + 1 ==> l[j] == starts[if j <= i then j else j - 1];
  }

  /** All the memory of a new pool cannot be allocated at once, although its one block has room. */
  lemma WholePoolIsRefused(size: nat)
    requires size >= 2 * Header + 16 && size % 8 == 0 && size < 0x1_0000_0000
    ensures Alloc(Initial(size), size - 2 * Header).1 == None
    ensures RoomOf(Initial(size).starts, 0) == size - 2 * Header
  {
  }
}
