/** What an allocation of memheap.c takes from the free blocks: no more than was asked for, unless too little would be
    left. */
module MemheapLaws {
  import opened Prelude
  import opened Lists
  import opened MemheapSpec

  /** The free block [s, f) serves a request of n bytes: what is left over is a free block of its own if it can hold a
      header and a smallest block, and goes with the block otherwise. No other free block changes. */
  ghost predicate Placed(p: Pool, p': Pool, s: nat, f: nat, n: nat) {
    var e := if f - s - Header >= n + Header + MinAlloc then s + Header + n else f;
    && Allocated(p', s, e)
    && (forall x :: x in p'.free <==> (x in p.free && x != s) || (e != f && x == e))
    && p'.available == p.available - (if e != f then e - s else f - s - Header)
    && (e != f ==> Neighbours(p'.starts, e, f))
  }

  /** The block at e ends where the one at f begins. */
  ghost predicate Neighbours(starts: seq<nat>, e: nat, f: nat) {
    exists k :: 0 <= k < |starts| - 1 && starts[k] == e && starts[k + 1] == f
  }

  lemma TakenWholePlaced(p: Pool, i: nat, n: nat)
    requires Inv(p) && i + 1 < |p.starts| && p.starts[i] in p.free && n <= Room(p.starts, i) < n + Header + MinAlloc
    ensures Placed(p, Taken(p, i, n), p.starts[i], p.starts[i + 1], n)
  {
    var p' := Taken(p, i, n);
    WithoutKeepsOthers<nat>(p.free, p.starts[i]);
    hide Without, Inv;
    assert UsedAt(p'.starts, p'.free, i, p.starts[i], p.starts[i + 1]);
  }

  lemma TakenSplitPlaced(p: Pool, i: nat, n: nat)
    requires Inv(p) && i + 1 < |p.starts| && p.starts[i] in p.free && Room(p.starts, i) >= n + Header + MinAlloc
    ensures Placed(p, Taken(p, i, n), p.starts[i], p.starts[i + 1], n)
  {
    var p', x := Taken(p, i, n), p.starts[i] + n + Header;
    WithoutKeepsOthers<nat>(p.free, p.starts[i]);
    hide Without, Inv;
    assert p'.starts[i] == p.starts[i] && p'.starts[i + 1] == x && p'.starts[i + 2] == p.starts[i + 1];
    assert p'.free == [x] + Without<nat>(p.free, p.starts[i]);
    assert UsedAt(p'.starts, p'.free, i, p.starts[i], x);
    assert Neighbours(p'.starts, x, p.starts[i + 1]);
  }

  /** An allocation takes the first block of the free list with room, cut to the size wanted; the rest stays free. */
  lemma AllocPlaces(p: Pool, size: nat)
    requires Inv(p) && size < 0x1_0000_0000 && Alloc(p, size).1.Some?
    ensures var n, s := Request(size), Alloc(p, size).1.value;
            && (exists k :: 0 <= k < |p.free| && p.free[k] == s && forall j :: 0 <= j < k ==> RoomOf(p.starts, p.free[j]) < n)
            && exists f: nat :: Neighbours(p.starts, s, f) && f - s - Header >= n && Placed(p, Alloc(p, size).0, s, f, n)
  {
    var n := Request(size);
    var k := FirstFit(p, n, 0);
    FirstFitIs(p, n, 0);
    FreeBlock(p, p.free[k]);
    var i := IndexOf(p.starts, p.free[k]);
    assert p.starts[i] == p.free[k];
    assert Neighbours(p.starts, p.starts[i], p.starts[i + 1]);
    if Room(p.starts, i) >= n + Header + MinAlloc {
      TakenSplitPlaced(p, i, n);
    } else {
      TakenWholePlaced(p, i, n);
    }
    hide Inv, Taken, Placed, Neighbours;
  }
}
