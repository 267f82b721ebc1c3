/** What rt_malloc, rt_free and rt_realloc do to the free blocks of mem.c: a split leaves the rest free, the lowest block
    with room is taken, and what is not live is free. */
module SmallHeapLaws {
  import opened Prelude
  import opened SmallHeapLayout
  import opened SmallHeapSpec

  /** Block i of the list is free and has this extent. */
  ghost predicate FreeBlock(bs: seq<Block>, i: int, end: nat, x: Extent) {
    0 <= i < |bs| && !bs[i].used && x == Extent(bs[i].addr, Next(bs, i, end))
  }

  /** A free block of the heap. */
  ghost predicate FreeExtent(bs: seq<Block>, end: nat, x: Extent) {
    exists i :: FreeBlock(bs, i, end, x)
  }

  /** The free block [a, f) serves a request of n bytes: what is left over stays free if it can hold a header and a
      smallest block, and goes with the block otherwise. No other block changes, and used_mem grows by the block. */
  ghost predicate Placed(h: Heap, h': Heap, a: nat, f: nat, n: nat) {
    var e := if f - a - HDR - n >= HDR + MIN_ALIGNED then a + HDR + n else f;
    && h'.LiveBlocks() == h.LiveBlocks() + {Extent(a, e)}
    && h'.usedMem == h.usedMem + (e - a)
    && forall x :: FreeExtent(h'.blocks, h'.End(), x) <==>
         (FreeExtent(h.blocks, h.End(), x) && x != Extent(a, f)) || (e != f && x == Extent(e, f))
  }

  lemma CutFree(bs: seq<Block>, i: nat, cut: nat, end: nat, x: Extent)
    requires Layout(bs, end) && i < |bs| && !bs[i].used
    ensures FreeExtent(Cut(bs, i, cut), end, x) <==>
            (FreeExtent(bs, end, x) && x.start != bs[i].addr) || x == Extent(cut, Next(bs, i, end))
  {
    hide Layout;
    CutShape(bs, i, cut, end, i);
    var bs' := Cut(bs, i, cut);
    hide Cut, Next;
    if FreeExtent(bs', end, x) {
      var k :| FreeBlock(bs', k, end, x);
      if k != i + 1 {
        var j := if k > i then k - 1 else k;
        CutShape(bs, i, cut, end, j);
        StartsApart(bs, i, j, end);
        assert FreeBlock(bs, j, end, x);
      }
    }
    if FreeExtent(bs, end, x) && x.start != bs[i].addr {
      var k :| FreeBlock(bs, k, end, x);
      CutShape(bs, i, cut, end, k);
      assert FreeBlock(bs', Moved(i, k), end, x);
    }
    assert FreeBlock(bs', i + 1, end, Extent(cut, Next(bs, i, end)));
  }

  lemma StartsApart(bs: seq<Block>, i: nat, j: nat, end: nat)
    requires Layout(bs, end) && i < |bs| && j < |bs| && i != j
    ensures bs[i].addr != bs[j].addr
  {
  }

  /** Where block k stands after the cut. */
  function Moved(i: nat, k: nat): nat { if k > i then k + 1 else k }

  lemma CutShape(bs: seq<Block>, i: nat, cut: nat, end: nat, k: nat)
    requires i < |bs| && k < |bs|
    ensures |Cut(bs, i, cut)| == |bs| + 1
    ensures k != i ==> var bs', j := Cut(bs, i, cut), Moved(i, k);
                       bs'[j] == bs[k] && Next(bs', j, end) == Next(bs, k, end)
    ensures k == i ==> var bs' := Cut(bs, i, cut);
                       bs'[i].used && bs'[i + 1] == Block(cut, false) && Next(bs', i + 1, end) == Next(bs, i, end)
  {
    CutElements(bs, i, cut);
    hide Cut;
  }

  lemma CutElements(bs: seq<Block>, i: nat, cut: nat)
    requires i < |bs|
    ensures var bs' := Cut(bs, i, cut);
            && |bs'| == |bs| + 1 && bs'[i] == Block(bs[i].addr, true) && bs'[i + 1] == Block(cut, false)
            && (forall j: nat :: j < i ==> bs'[j] == bs[j])
            && (forall j: nat :: i + 1 < j < |bs'| ==> bs'[j] == bs[j - 1])
  {
  }

  lemma UsedFree(bs: seq<Block>, i: nat, end: nat, x: Extent)
    requires Layout(bs, end) && i < |bs| && !bs[i].used
    ensures FreeExtent(bs[i := Block(bs[i].addr, true)], end, x) <==> FreeExtent(bs, end, x) && x.start != bs[i].addr
  {
    var bs' := bs[i := Block(bs[i].addr, true)];
    if FreeExtent(bs', end, x) {
      var k :| FreeBlock(bs', k, end, x);
      assert FreeBlock(bs, k, end, x);
    }
    if FreeExtent(bs, end, x) && x.start != bs[i].addr {
      var k :| FreeBlock(bs, k, end, x);
      assert FreeBlock(bs', k, end, x);
    }
  }

  /** Only one free block starts at an address. */
  lemma OneStart(bs: seq<Block>, i: nat, end: nat, x: Extent)
    requires Layout(bs, end) && i < |bs| && FreeExtent(bs, end, x) && x.start == bs[i].addr
    ensures x == Extent(bs[i].addr, Next(bs, i, end))
  {
    var k :| FreeBlock(bs, k, end, x);
    Apart(bs, i, k, end);
  }

  lemma TakenPlaced(h: Heap, i: nat, n: nat)
    requires Inv(h) && i < |h.blocks| && !h.blocks[i].used && n % 8 == 0 && h.Room(i) >= n
    ensures Placed(h, Taken(h, i, n), h.blocks[i].addr, Next(h.blocks, i, h.End()), n)
  {
    hide UsedSum, Live, Layout, FreeExtent;
    var bs, end, a, f := h.blocks, h.End(), h.blocks[i].addr, Next(h.blocks, i, h.End());
    var h' := Taken(h, i, n);
    TakenBlocks(h, i, n);
    forall x
      ensures FreeExtent(h'.blocks, end, x) <==>
              (FreeExtent(bs, end, x) && x != Extent(a, f))
              || (f - a - HDR - n >= HDR + MIN_ALIGNED && x == Extent(a + HDR + n, f))
    {
      if FreeExtent(bs, end, x) && x.start == a {
        OneStart(bs, i, end, x);
      }
      if h.Room(i) >= n + HDR + MIN_ALIGNED {
        CutFree(bs, i, a + HDR + n, end, x);
      } else {
        UsedFree(bs, i, end, x);
      }
    }
  }

  /** The block starts at or above lfree and below mem_size_aligned - size, and of the free blocks there with room it is
      the lowest. */
  ghost predicate LowestFit(h: Heap, a: nat, n: nat) {
    && h.lfree <= a < h.size - n
    && forall x :: FreeExtent(h.blocks, h.End(), x) && h.lfree <= x.start < h.size - n && x.end - x.start - HDR >= n ==>
                     a <= x.start
  }

  /** rt_malloc gives the lowest free block with room in its search, cut to the size wanted; the rest stays free. */
  lemma MallocPlaces(h: Heap, request: nat)
    requires Inv(h) && request < WORD && Malloc(h, request).1.Some?
    ensures var n, a := Wanted(AlignUp(request)), Malloc(h, request).1.value;
            && LowestFit(h, a, n)
            && exists f: nat :: FreeExtent(h.blocks, h.End(), Extent(a, f)) && f - a - HDR >= n
                                && Placed(h, Malloc(h, request).0, a, f, n)
  {
    hide UsedSum, Live, Taken, Placed;
    var n, bs, end := Wanted(AlignUp(request)), h.blocks, h.End();
    var s := Index(bs, h.lfree);
    FirstFitIs(h, s, n, h.size - n);
    var i := FirstFit(h, s, n, h.size - n).value;
    var f := Next(bs, i, end);
    assert FreeBlock(bs, i, end, Extent(bs[i].addr, f));
    TakenPlaced(h, i, n);
    Apart(bs, s, i, end);
    forall x | FreeExtent(bs, end, x) && h.lfree <= x.start < h.size - n && x.end - x.start - HDR >= n
      ensures bs[i].addr <= x.start
    {
      var k :| FreeBlock(bs, k, end, x);
      Apart(bs, k, s, end);
      Apart(bs, k, i, end);
    }
  }

  /** A free block starts at `a` and reaches to `f` at least. */
  ghost predicate FreeFrom(h: Heap, a: nat, f: nat) {
    exists x :: FreeExtent(h.blocks, h.End(), x) && x.start == a && x.end >= f
  }

  /** rt_realloc in place: the same size changes nothing, a smaller size frees the rest if it is more than a header and
      MIN_SIZE, and the block stays where it is. Otherwise the answer is that of rt_malloc. */
  lemma ReallocPlaces(h: Heap, i: nat, newsize: nat)
    requires Inv(h) && i < |h.blocks| && h.blocks[i].used && newsize < WORD
    ensures var (h', r) := Realloc(h, i, newsize);
            var n, a, f := AlignUp(newsize), h.blocks[i].addr, Next(h.blocks, i, h.End());
            if n > h.size then r == None
            else if f - a - HDR == n then h' == h && r == Some(a)
            else if f - a - HDR - n > HDR + MIN_SIZE then
              && r == Some(a)
              && h'.LiveBlocks() == h.LiveBlocks() - {Extent(a, f)} + {Extent(a, a + HDR + n)}
              && h'.usedMem == h.usedMem - (f - a - HDR - n)
              && FreeFrom(h', a + HDR + n, f)
            else r == Malloc(h, n).1
  {
    hide UsedSum, Live, Layout, Coalesced, Malloc;
    var n, a, f := AlignUp(newsize), h.blocks[i].addr, Next(h.blocks, i, h.End());
    if n <= h.size && f - a - HDR - n > HDR + MIN_SIZE {
      ShrunkKeeps(h, i, n);
      RestIsFree(h, i, n);
    } else if n <= h.size && f - a - HDR != n && Malloc(h, n).1.Some? {
      MallocKeeps(h, n);
      LiveIsUsed(h.blocks, h.End(), Extent(a, f));
      FindLive(Malloc(h, n).0.blocks, h.End(), Extent(a, f));
    }
  }

  lemma RestIsFree(h: Heap, i: nat, n: nat)
    requires Inv(h) && i < |h.blocks| && h.blocks[i].used && n % 8 == 0 && n + HDR + MIN_SIZE < h.Room(i)
    ensures var h', a, f := Shrunk(h, i, n), h.blocks[i].addr, Next(h.blocks, i, h.End());
            && h'.usedMem == h.usedMem - (f - a - HDR - n)
            && FreeFrom(h', a + HDR + n, f)
  {
    hide UsedSum, Live;
    ShrunkShape(h, i, n);
    var h' := Shrunk(h, i, n);
    var g := Next(h'.blocks, i + 1, h'.End());
    assert FreeBlock(h'.blocks, i + 1, h'.End(), Extent(h.blocks[i].addr + HDR + n, g));
    if i + 1 < |h.blocks| {
      Apart(h.blocks, i + 1, i + 1, h.End());
    }
    if i + 2 < |h.blocks| {
      Apart(h.blocks, i + 1, i + 2, h.End());
    }
  }

  // ---------------------------------------------------------------- nothing is lost

  ghost predicate Holds(x: Extent, p: nat) { x.start <= p < x.end }

  /** Every byte of the heap is in exactly one of: a live block, a free block. */
  lemma FreeIsRest(h: Heap, p: nat)
    requires Inv(h) && p < h.End()
    ensures (exists x :: FreeExtent(h.blocks, h.End(), x) && Holds(x, p))
       <==> !exists x :: x in h.LiveBlocks() && Holds(x, p)
  {
    hide UsedSum, Live;
    var bs, end := h.blocks, h.End();
    var i := BlockOf(bs, end, p);
    var here := Extent(bs[i].addr, Next(bs, i, end));
    assert Holds(here, p);
    if bs[i].used {
      LiveIsUsed(bs, end, here);
      assert here in h.LiveBlocks();
    } else {
      assert FreeBlock(bs, i, end, here);
    }
    forall x, y | FreeExtent(bs, end, x) && y in h.LiveBlocks()
      ensures !(Holds(x, p) && Holds(y, p))
    {
      var k :| FreeBlock(bs, k, end, x);
      FreeDisjoint(bs, k, end, y);
    }
  }

  /** The block that holds a byte. */
  ghost function BlockOf(bs: seq<Block>, end: nat, p: nat): (i: nat)
    requires Layout(bs, end) && p < end
    ensures i < |bs| && bs[i].addr <= p < Next(bs, i, end)
  {
    BlockFrom(bs, end, p, 0)
  }

  ghost function BlockFrom(bs: seq<Block>, end: nat, p: nat, i: nat): (k: nat)
    requires i < |bs| && bs[i].addr <= p < end
    ensures k < |bs| && bs[k].addr <= p < Next(bs, k, end)
    decreases |bs| - i
  {
    if p < Next(bs, i, end) then i else BlockFrom(bs, end, p, i + 1)
  }

  /** Where block k of one heap starts, block k of another heap with the same live blocks ends too. */
  lemma SameBlock(h: Heap, h': Heap, k: nat)
    requires Inv(h) && Inv(h') && h.size == h'.size && h.LiveBlocks() == h'.LiveBlocks()
    requires k < |h.blocks| && k < |h'.blocks| && h.blocks[k].addr == h'.blocks[k].addr
    ensures h.blocks[k] == h'.blocks[k] && Next(h.blocks, k, h.End()) == Next(h'.blocks, k, h.End())
  {
    hide UsedSum, Live;
    if h.blocks[k].used {
      UsedThere(h, h', k);
    } else if h'.blocks[k].used {
      UsedThere(h', h, k);
    } else {
      NextNotBelow(h, h', k);
      NextNotBelow(h', h, k);
    }
  }

  lemma UsedThere(h: Heap, h': Heap, k: nat)
    requires Inv(h) && Inv(h') && h.size == h'.size && h.LiveBlocks() == h'.LiveBlocks()
    requires k < |h.blocks| && k < |h'.blocks| && h.blocks[k].addr == h'.blocks[k].addr && h.blocks[k].used
    ensures h'.blocks[k].used && Next(h.blocks, k, h.End()) == Next(h'.blocks, k, h.End())
  {
    hide UsedSum, Live;
    var x := Extent(h.blocks[k].addr, Next(h.blocks, k, h.End()));
    LiveIsUsed(h.blocks, h.End(), x);
    FindLive(h'.blocks, h.End(), x);
    Apart(h'.blocks, Index(h'.blocks, x.start), k, h.End());
  }

  lemma NextNotBelow(h: Heap, h': Heap, k: nat)
    requires Inv(h) && Inv(h') && h.size == h'.size && h.LiveBlocks() == h'.LiveBlocks()
    requires k < |h.blocks| && k < |h'.blocks| && h.blocks[k].addr == h'.blocks[k].addr && !h.blocks[k].used
    ensures Next(h'.blocks, k, h.End()) <= Next(h.blocks, k, h.End())
  {
    hide UsedSum, Live;
    Apart(h'.blocks, k, k, h.End());
    if k + 1 < |h.blocks| {
      var x := Extent(h.blocks[k + 1].addr, Next(h.blocks, k + 1, h.End()));
      LiveIsUsed(h.blocks, h.End(), x);
      FindLive(h'.blocks, h.End(), x);
      Apart(h'.blocks, Index(h'.blocks, x.start), k, h.End());
      Apart(h.blocks, k, k + 1, h.End());
    }
  }

  lemma {:induction false} SamePrefix(h: Heap, h': Heap, k: nat)
    requires Inv(h) && Inv(h') && h.size == h'.size && h.LiveBlocks() == h'.LiveBlocks()
    requires k < |h.blocks|
    ensures k < |h'.blocks| && h.blocks[k] == h'.blocks[k]
    ensures Next(h.blocks, k, h.End()) == Next(h'.blocks, k, h.End())
  {
    hide UsedSum, Live, Coalesced;
    if k > 0 {
      SamePrefix(h, h', k - 1);
      Apart(h.blocks, k, k, h.End());
    }
    SameBlock(h, h', k);
  }

  lemma NotEmpty(h: Heap)
    requires Inv(h)
    ensures |h.blocks| > 0
  {
  }

  /** The live blocks determine the whole list: whatever the run, the free blocks are the gaps between them, each gap
      one block, and used_mem is their sum. */
  lemma Canonical(h: Heap, h': Heap)
    requires Inv(h) && Inv(h') && h.size == h'.size && h.LiveBlocks() == h'.LiveBlocks()
    ensures h.blocks == h'.blocks && h.usedMem == h'.usedMem
  {
    hide UsedSum, Live, Layout, Coalesced;
    NotEmpty(h);
    NotEmpty(h');
    SamePrefix(h, h', |h.blocks| - 1);
    SamePrefix(h', h, |h'.blocks| - 1);
    forall k | 0 <= k < |h.blocks|
      ensures h.blocks[k] == h'.blocks[k]
    {
      SamePrefix(h, h', k);
    }
  }

  /** Releasing a block that was just handed out restores the list. */
  lemma RoundTrip(h: Heap, request: nat)
    requires Inv(h) && request < WORD && Malloc(h, request).1.Some?
    ensures var (h1, r) := Malloc(h, request);
            var i := Index(h1.blocks, r.value);
            && i < |h1.blocks| && h1.blocks[i].used
            && Free(h1, i).blocks == h.blocks && Free(h1, i).usedMem == h.usedMem
  {
    hide UsedSum, Live, Layout, Coalesced, Malloc, Free;
    MallocKeeps(h, request);
    var (h1, r) := Malloc(h, request);
    var e: nat :| h1.LiveBlocks() == h.LiveBlocks() + {Extent(r.value, e)}
                  && e - r.value - HDR >= Wanted(AlignUp(request))
                  && forall x :: x in h.LiveBlocks() ==> x.end <= r.value || e <= x.start;
    var x := Extent(r.value, e);
    assert x in h1.LiveBlocks();
    FindLive(h1.blocks, h1.End(), x);
    var i := Index(h1.blocks, r.value);
    FreeKeeps(h1, i);
    assert x !in h.LiveBlocks();
    assert Free(h1, i).LiveBlocks() == h.LiveBlocks();
    Canonical(Free(h1, i), h);
  }
}
