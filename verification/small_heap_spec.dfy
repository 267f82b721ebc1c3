/** rt_malloc, rt_free and rt_realloc of mem.c as functions on the list of blocks, and what holds over every run. */
module SmallHeapSpec {
  import opened Prelude
  import opened SmallHeapLayout

  /** `size` is mem_size_aligned; `lfree` is the offset of the block the search starts at; `usedMem` is used_mem. */
  datatype Heap = Heap(size: nat, blocks: seq<Block>, lfree: nat, usedMem: int) {
    function End(): nat { size + HDR }

    /** Bytes of block i after its header. */
    function Room(i: nat): int
      requires i < |blocks|
    {
      Next(blocks, i, End()) - blocks[i].addr - HDR
    }

    function LiveBlocks(): set<Extent> { Live(blocks, End()) }
  }

  ghost predicate FreeAt(bs: seq<Block>, a: nat) {
    exists i :: 0 <= i < |bs| && !bs[i].used && bs[i].addr == a
  }

  ghost predicate Inv(h: Heap) {
    && h.size % 8 == 0 && h.size + 2 * HDR <= WORD
    && Layout(h.blocks, h.End())
    && Coalesced(h.blocks)
    && (h.lfree == h.End() || FreeAt(h.blocks, h.lfree))
    && h.usedMem == UsedSum(h.blocks, h.End())
    && (h.size >= MIN_ALIGNED ==> LastRoom(h.blocks, h.End()))
  }

  /** No free block lies below lfree. */
  ghost predicate LowestFree(h: Heap) {
    forall i :: 0 <= i < |h.blocks| && !h.blocks[i].used ==> h.lfree <= h.blocks[i].addr
  }

  /** The heap rt_system_heap_init sets up. */
  function Initial(size: nat): Heap {
    Heap(size, [Block(0, false)], 0, 0)
  }

  // ---------------------------------------------------------------- searching

  /** Index of the block at address a, from index i on; |bs| if there is none. */
  function IndexFrom(bs: seq<Block>, i: nat, a: nat): (k: nat)
    requires i <= |bs|
    ensures i <= k <= |bs|
    ensures k < |bs| ==> bs[k].addr == a
    ensures k == |bs| ==> forall j :: i <= j < |bs| ==> bs[j].addr != a
    decreases |bs| - i
  {
    if i == |bs| || bs[i].addr == a then i else IndexFrom(bs, i + 1, a)
  }

  function Index(bs: seq<Block>, a: nat): (k: nat)
    ensures k <= |bs|
    ensures k < |bs| ==> bs[k].addr == a
    ensures k == |bs| ==> forall j :: 0 <= j < |bs| ==> bs[j].addr != a
  {
    IndexFrom(bs, 0, a)
  }

  /** The first free block with room for n, from index i on, among the blocks below `limit`. */
  function FirstFit(h: Heap, i: nat, n: nat, limit: int): (r: Option<nat>)
    requires i <= |h.blocks|
    ensures r.Some? ==> i <= r.value < |h.blocks|
    decreases |h.blocks| - i
  {
    if i == |h.blocks| || h.blocks[i].addr >= limit then None
    else if !h.blocks[i].used && h.Room(i) >= n then Some(i)
    else FirstFit(h, i + 1, n, limit)
  }

  /** Address of the first free block from index i on, or of the sentinel. */
  function FirstFree(bs: seq<Block>, i: nat, end: nat): nat
    requires i <= |bs|
    decreases |bs| - i
  {
    if i == |bs| then end else if !bs[i].used then bs[i].addr else FirstFree(bs, i + 1, end)
  }

  // ---------------------------------------------------------------- operations

  /** Block i is handed out for a request of n bytes, split if the rest can hold a block. */
  function Taken(h: Heap, i: nat, n: nat): Heap
    requires i < |h.blocks|
  {
    var b := h.blocks[i];
    var split := h.Room(i) >= n + HDR + MIN_ALIGNED;
    var bs := if split then Cut(h.blocks, i, b.addr + HDR + n) else h.blocks[i := Block(b.addr, true)];
    Heap(h.size, bs, if b.addr == h.lfree then FirstFree(bs, i, h.End()) else h.lfree,
         h.usedMem + (if split then n + HDR else Next(h.blocks, i, h.End()) - b.addr))
  }

  /** The size searched for: at least MIN_SIZE_ALIGNED. */
  function Wanted(n: nat): nat { if n < MIN_ALIGNED then MIN_ALIGNED else n }

  /** rt_malloc; the result is the header address of the block. */
  function Malloc(h: Heap, request: nat): (Heap, Option<nat>)
    requires request < WORD
  {
    if request == 0 || AlignUp(request) > h.size then (h, None)
    else
      var n := Wanted(AlignUp(request));
      match FirstFit(h, Index(h.blocks, h.lfree), n, h.size - n)
      case None => (h, None)
      case Some(i) => (Taken(h, i, n), Some(h.blocks[i].addr))
  }

  /** lfree after block j has been absorbed by the block before it. */
  function DropLfree(bs: seq<Block>, j: nat, lfree: nat): nat
    requires 0 < j < |bs|
  {
    if lfree == bs[j].addr then bs[j - 1].addr else lfree
  }

  /** lfree after plug_holes at block i. */
  function PlugLfree(bs: seq<Block>, i: nat, lfree: nat): nat
    requires i < |bs|
  {
    var l1 := if i + 1 < |bs| && !bs[i + 1].used then DropLfree(bs, i + 1, lfree) else lfree;
    if i > 0 && !bs[i - 1].used then DropLfree(PlugForward(bs, i), i, l1) else l1
  }

  function Plugged(h: Heap, i: nat): Heap
    requires i < |h.blocks|
  {
    Heap(h.size, Plug(h.blocks, i), PlugLfree(h.blocks, i, h.lfree), h.usedMem)
  }

  /** rt_free of the live block with index i. */
  function Free(h: Heap, i: nat): Heap
    requires i < |h.blocks|
  {
    var a := h.blocks[i].addr;
    Plugged(Heap(h.size, h.blocks[i := Block(a, false)], if a < h.lfree then a else h.lfree,
                 h.usedMem - (Next(h.blocks, i, h.End()) - a)), i)
  }

  /** The in-place path of rt_realloc: block i keeps n bytes, the rest becomes free. */
  function Shrunk(h: Heap, i: nat, n: nat): Heap
    requires i < |h.blocks|
  {
    Plugged(Heap(h.size, Cut(h.blocks, i, h.blocks[i].addr + HDR + n), h.lfree, h.usedMem - (h.Room(i) - n)), i + 1)
  }

  /** rt_realloc of the live block with index i; the result is a header address. */
  function Realloc(h: Heap, i: nat, newsize: nat): (Heap, Option<nat>)
    requires i < |h.blocks| && newsize < WORD
  {
    var n := AlignUp(newsize);
    var a := h.blocks[i].addr;
    if n > h.size then (h, None)
    else if h.Room(i) == n then (h, Some(a))
    else if n + HDR + MIN_SIZE < h.Room(i) then (Shrunk(h, i, n), Some(a))
    else
      var (h1, r) := Malloc(h, n);
      if r == None || Index(h1.blocks, a) == |h1.blocks| then (h1, None)
      else (Free(h1, Index(h1.blocks, a)), r)
  }

  // ---------------------------------------------------------------- what one operation keeps

  lemma {:induction false} FirstFreeIs(bs: seq<Block>, i: nat, end: nat)
    requires i <= |bs|
    ensures FirstFree(bs, i, end) == end || FreeAt(bs, FirstFree(bs, i, end))
    ensures Layout(bs, end) ==>
              forall k :: i <= k < |bs| && !bs[k].used ==> FirstFree(bs, i, end) <= bs[k].addr
    decreases |bs| - i
  {
    if i < |bs| && bs[i].used {
      FirstFreeIs(bs, i + 1, end);
    }
  }

  /** The list after handing out block i, its lfree not yet moved on. */
  lemma TakenBlocks(h: Heap, i: nat, n: nat)
    requires Inv(h) && i < |h.blocks| && !h.blocks[i].used && n % 8 == 0 && h.Room(i) >= n
    ensures var bs, a := Taken(h, i, n).blocks, h.blocks[i].addr;
            && Layout(bs, h.End()) && Coalesced(bs)
            && Taken(h, i, n).usedMem == UsedSum(bs, h.End())
            && i < |bs| && Next(bs, i, h.End()) - a - HDR >= n
            && (LastRoom(h.blocks, h.End()) ==> LastRoom(bs, h.End()))
            && Live(bs, h.End()) == h.LiveBlocks() + {Extent(a, Next(bs, i, h.End()))}
  {
    hide UsedSum, Live, Layout, Coalesced;
    var bs, b, end := h.blocks, h.blocks[i], h.End();
    Aligned(bs, i, end);
    Around(bs, i, end);
    if h.Room(i) >= n + HDR + MIN_ALIGNED {
      CutKeeps(bs, i, b.addr + HDR + n, end);
      CutCoalesced(bs, i, b.addr + HDR + n);
    } else {
      MarkKeeps(bs, i, true, end);
      UseCoalesced(bs, i);
    }
  }

  lemma UseCoalesced(bs: seq<Block>, i: nat)
    requires i < |bs| && Coalesced(bs)
    ensures Coalesced(bs[i := Block(bs[i].addr, true)])
  {
  }

  lemma TakenLfree(h: Heap, i: nat, n: nat)
    requires Inv(h) && i < |h.blocks| && !h.blocks[i].used
    ensures var h' := Taken(h, i, n); h'.lfree == h.End() || FreeAt(h'.blocks, h'.lfree)
  {
    hide UsedSum, Live, Layout, Coalesced;
    var h' := Taken(h, i, n);
    FirstFreeIs(h'.blocks, i, h.End());
    if h.blocks[i].addr != h.lfree && h.lfree != h.End() {
      var k :| 0 <= k < |h.blocks| && !h.blocks[k].used && h.blocks[k].addr == h.lfree;
      assert h'.blocks[if |h'.blocks| > |h.blocks| && k > i then k + 1 else k] == h.blocks[k];
    }
  }

  /** A free block overlaps no live one. */
  lemma FreeDisjoint(bs: seq<Block>, i: nat, end: nat, x: Extent)
    requires Layout(bs, end) && i < |bs| && !bs[i].used && x in Live(bs, end)
    ensures x.end <= bs[i].addr || Next(bs, i, end) <= x.start
  {
    LiveIsUsed(bs, end, x);
    var k :| 0 <= k < |bs| && bs[k].used && x == Extent(bs[k].addr, Next(bs, k, end));
    assert k < i ==> k + 1 == i || bs[k + 1].addr + HDR <= bs[i].addr;
    assert i < k ==> i + 1 == k || bs[i + 1].addr + HDR <= bs[k].addr;
  }

  /** Handing out a free block adds one live block, with room for the request, and changes no other. */
  lemma TakenKeeps(h: Heap, i: nat, n: nat)
    requires Inv(h) && i < |h.blocks| && !h.blocks[i].used && n % 8 == 0 && h.Room(i) >= n
    ensures Inv(Taken(h, i, n))
    ensures LowestFree(h) ==> LowestFree(Taken(h, i, n))
    ensures i < |Taken(h, i, n).blocks|
    ensures var e := Next(Taken(h, i, n).blocks, i, h.End());
            var a := h.blocks[i].addr;
            e - a - HDR >= n
            && Taken(h, i, n).LiveBlocks() == h.LiveBlocks() + {Extent(a, e)}
            && forall x :: x in h.LiveBlocks() ==> x.end <= a || e <= x.start
  {
    hide UsedSum, Live, Layout, Coalesced, FreeAt, LowestFree, Cut;
    TakenBlocks(h, i, n);
    TakenLfree(h, i, n);
    forall x | x in h.LiveBlocks()
      ensures x.end <= h.blocks[i].addr || Next(h.blocks, i, h.End()) <= x.start
    {
      FreeDisjoint(h.blocks, i, h.End(), x);
    }
    assert Next(Taken(h, i, n).blocks, i, h.End()) <= Next(h.blocks, i, h.End()) by { TakenShorter(h, i, n); }
    if LowestFree(h) {
      TakenLowest(h, i, n);
    }
  }

  lemma TakenShorter(h: Heap, i: nat, n: nat)
    requires i < |h.blocks| && h.Room(i) >= n
    ensures i < |Taken(h, i, n).blocks|
    ensures Next(Taken(h, i, n).blocks, i, h.End()) <= Next(h.blocks, i, h.End())
  {
  }

  lemma CutCoalesced(bs: seq<Block>, i: nat, cut: nat)
    requires i < |bs| && Coalesced(bs) && !bs[i].used
    ensures Coalesced(Cut(bs, i, cut))
  {
    var bs' := Cut(bs, i, cut);
    forall k | 0 <= k < |bs'| - 1
      ensures bs'[k].used || bs'[k + 1].used
    {
      if k > i + 1 {
        assert bs'[k] == bs[k - 1] && bs'[k + 1] == bs[k];
      } else if k == i + 1 {
        assert bs'[k + 1] == bs[i + 1];
      }
    }
  }

  lemma TakenLowest(h: Heap, i: nat, n: nat)
    requires Inv(h) && i < |h.blocks| && !h.blocks[i].used && n % 8 == 0 && h.Room(i) >= n
    requires LowestFree(h) && Layout(Taken(h, i, n).blocks, h.End())
    ensures LowestFree(Taken(h, i, n))
  {
    hide UsedSum, Live;
    var h' := Taken(h, i, n);
    FirstFreeIs(h'.blocks, i, h.End());
    forall k | 0 <= k < |h'.blocks| && !h'.blocks[k].used
      ensures h'.lfree <= h'.blocks[k].addr
    {
      if k < i {
        assert h'.blocks[k] == h.blocks[k];
      } else if h.blocks[i].addr != h.lfree {
        assert h.lfree <= h.blocks[i].addr <= h'.blocks[k].addr;
      }
    }
  }

  lemma {:induction false} FirstFitIs(h: Heap, i: nat, n: nat, limit: int)
    requires i <= |h.blocks|
    ensures match FirstFit(h, i, n, limit)
            case Some(k) => i <= k < |h.blocks| && !h.blocks[k].used && h.Room(k) >= n && h.blocks[k].addr < limit
                            && forall j :: i <= j < k ==> h.blocks[j].used || h.Room(j) < n
            case None => Layout(h.blocks, h.End()) ==>
                           forall j :: i <= j < |h.blocks| && h.blocks[j].addr < limit ==>
                             h.blocks[j].used || h.Room(j) < n
    decreases |h.blocks| - i
  {
    if i < |h.blocks| && h.blocks[i].addr < limit && (h.blocks[i].used || h.Room(i) < n) {
      FirstFitIs(h, i + 1, n, limit);
    }
  }

  /** rt_malloc keeps the invariant. A result adds one live block that overlaps no other; it holds the request iff the
      request is not one of the last seven 32-bit sizes, which wrap to zero; no result changes nothing. */
  lemma MallocKeeps(h: Heap, request: nat)
    requires Inv(h) && request < WORD
    ensures var (h', r) := Malloc(h, request);
            Inv(h') && h'.size == h.size && (LowestFree(h) ==> LowestFree(h'))
            && match r
               case None => h' == h
               case Some(a) =>
                 exists e: nat ::
                   && h'.LiveBlocks() == h.LiveBlocks() + {Extent(a, e)}
                   && e - a - HDR >= Wanted(AlignUp(request))
                   && (e - a - HDR >= request <==> request <= WORD - 8)
                   && forall x :: x in h.LiveBlocks() ==> x.end <= a || e <= x.start
  {
    hide Layout, UsedSum, Live, Taken;
    if request != 0 && AlignUp(request) <= h.size {
      var n := Wanted(AlignUp(request));
      FirstFitIs(h, Index(h.blocks, h.lfree), n, h.size - n);
      var f := FirstFit(h, Index(h.blocks, h.lfree), n, h.size - n);
      if f.Some? {
        TakenKeeps(h, f.value, n);
        var a, e := h.blocks[f.value].addr, Next(Taken(h, f.value, n).blocks, f.value, h.End());
        assert Taken(h, f.value, n).LiveBlocks() == h.LiveBlocks() + {Extent(a, e)};
        assert Taken(h, f.value, n).size == h.size by { TakenSize(h, f.value, n); }
        TakenInside(h, f.value, n);
        WrapsToSmall(request);
      }
    }
  }

  /** No block is as large as the sizes that wrap. */
  lemma TakenInside(h: Heap, i: nat, n: nat)
    requires Inv(h) && i < |h.blocks| && h.Room(i) >= n
    ensures i < |Taken(h, i, n).blocks|
    ensures Next(Taken(h, i, n).blocks, i, h.End()) - h.blocks[i].addr - HDR < WORD - 8
  {
    TakenShorter(h, i, n);
  }

  lemma WrapsToSmall(request: nat)
    requires request < WORD
    ensures if request <= WORD - 8 then AlignUp(request) >= request else AlignUp(request) == 0
  {
  }

  lemma MallocZero(h: Heap)
    ensures Malloc(h, 0).1 == None
  {
  }

  /** On a heap with 160 bytes of room, the largest 32-bit request succeeds. */
  lemma WrappedRequest()
    ensures Malloc(Initial(160), 0xFFFF_FFFF).1 == Some(0)
  {
    var h := Initial(160);
    assert Index(h.blocks, h.lfree) == 0;
    assert FirstFit(h, 0, MIN_ALIGNED, 160 - MIN_ALIGNED) == Some(0);
  }

  lemma TakenSize(h: Heap, i: nat, n: nat)
    requires i < |h.blocks|
    ensures Taken(h, i, n).size == h.size
  {
  }

  /** First fit is complete when lfree is the lowest free block: there is no result exactly when the request is zero or
      larger than the heap, or no free block that starts below mem_size_aligned - size has room. The last block of the
      heap is never given whole. */
  lemma MallocComplete(h: Heap, request: nat)
    requires Inv(h) && LowestFree(h) && request < WORD
    ensures Malloc(h, request).1 == None <==>
            || request == 0 || AlignUp(request) > h.size
            || forall i :: 0 <= i < |h.blocks| && !h.blocks[i].used
                           && h.blocks[i].addr < h.size - Wanted(AlignUp(request))
                           ==> h.Room(i) < Wanted(AlignUp(request))
  {
    hide UsedSum, Live;
    if request != 0 && AlignUp(request) <= h.size {
      var n := Wanted(AlignUp(request));
      FirstFitIs(h, Index(h.blocks, h.lfree), n, h.size - n);
    }
  }

  /** lfree is the sentinel or a free block; and, where wanted, no free block lies below it. */
  ghost predicate LfreeOk(bs: seq<Block>, lfree: nat, end: nat, lowest: bool) {
    && (lfree == end || FreeAt(bs, lfree))
    && (lowest ==> forall i :: 0 <= i < |bs| && !bs[i].used ==> lfree <= bs[i].addr)
  }

  lemma DropLfreeOk(bs: seq<Block>, j: nat, lfree: nat, end: nat, lowest: bool)
    requires Layout(bs, end) && 0 < j < |bs| && !bs[j].used && !bs[j - 1].used
    requires LfreeOk(bs, lfree, end, lowest)
    ensures LfreeOk(Drop(bs, j), DropLfree(bs, j, lfree), end, lowest)
  {
    var bs', l' := Drop(bs, j), DropLfree(bs, j, lfree);
    if lfree != end {
      var k :| 0 <= k < |bs| && !bs[k].used && bs[k].addr == lfree;
      assert bs'[if k >= j then k - 1 else k] == if k == j then bs[j - 1] else bs[k];
    }
    forall k | lowest && 0 <= k < |bs'| && !bs'[k].used
      ensures l' <= bs'[k].addr
    {
      assert bs'[k] == bs[if k >= j then k + 1 else k];
    }
  }

  lemma PlugLfreeOk(bs: seq<Block>, i: nat, lfree: nat, end: nat, lowest: bool)
    requires Layout(bs, end) && i < |bs| && !bs[i].used
    requires LfreeOk(bs, lfree, end, lowest)
    ensures LfreeOk(Plug(bs, i), PlugLfree(bs, i, lfree), end, lowest)
  {
    var l1 := lfree;
    var bs1 := PlugForward(bs, i);
    if i + 1 < |bs| && !bs[i + 1].used {
      DropLfreeOk(bs, i + 1, lfree, end, lowest);
      DropLayout(bs, i + 1, end);
      l1 := DropLfree(bs, i + 1, lfree);
    }
    hide Layout, LfreeOk;
    assert bs1[i] == bs[i] && (i > 0 ==> bs1[i - 1] == bs[i - 1]);
    if i > 0 && !bs[i - 1].used {
      DropLfreeOk(bs1, i, l1, end, lowest);
    }
  }

  lemma PluggedKeeps(h: Heap, i: nat, lowest: bool)
    requires h.size % 8 == 0 && h.size + 2 * HDR <= WORD
    requires Layout(h.blocks, h.End()) && i < |h.blocks| && !h.blocks[i].used && CoalescedBut(h.blocks, i)
    requires LfreeOk(h.blocks, h.lfree, h.End(), lowest)
    requires h.usedMem == UsedSum(h.blocks, h.End())
    requires h.size >= MIN_ALIGNED ==> LastRoom(h.blocks, h.End())
    ensures Inv(Plugged(h, i)) && Plugged(h, i).LiveBlocks() == h.LiveBlocks()
    ensures lowest ==> LowestFree(Plugged(h, i))
  {
    hide UsedSum, Live, Layout, CoalescedBut, Coalesced, Plug, PlugLfree, LastRoom;
    PlugKeeps(h.blocks, i, h.End());
    PlugLfreeOk(h.blocks, i, h.lfree, h.End(), lowest);
  }

  lemma FreedLfreeOk(bs: seq<Block>, i: nat, lfree: nat, end: nat, lowest: bool)
    requires Layout(bs, end) && i < |bs| && LfreeOk(bs, lfree, end, lowest)
    ensures var a := bs[i].addr;
            LfreeOk(bs[i := Block(a, false)], if a < lfree then a else lfree, end, lowest)
  {
    var a, bs' := bs[i].addr, bs[i := Block(bs[i].addr, false)];
    assert bs'[i] == Block(a, false);
    if lfree <= a {
      var k :| 0 <= k < |bs| && !bs[k].used && bs[k].addr == lfree;
      assert bs'[k] == Block(bs[k].addr, false);
    }
  }

  /** rt_free keeps the invariant and removes exactly the freed block. */
  lemma FreeKeeps(h: Heap, i: nat)
    requires Inv(h) && i < |h.blocks| && h.blocks[i].used
    ensures Inv(Free(h, i)) && Free(h, i).size == h.size
    ensures Free(h, i).LiveBlocks() == h.LiveBlocks() - {Extent(h.blocks[i].addr, Next(h.blocks, i, h.End()))}
    ensures LowestFree(h) ==> LowestFree(Free(h, i))
  {
    hide UsedSum, Live, Layout, LfreeOk, CoalescedBut, Coalesced, Plug, PlugLfree;
    var a, e, bs := h.blocks[i].addr, Next(h.blocks, i, h.End()), h.blocks[i := Block(h.blocks[i].addr, false)];
    var l := if a < h.lfree then a else h.lfree;
    InvLfree(h);
    FreedLfreeOk(h.blocks, i, h.lfree, h.End(), LowestFree(h));
    MarkCoalesced(h.blocks, i);
    MarkKeeps(h.blocks, i, false, h.End());
    Around(h.blocks, i, h.End());
    PluggedKeeps(Heap(h.size, bs, l, h.usedMem - (e - a)), i, LowestFree(h));
  }

  /** A pointer to a live block passes the range test of rt_free: it lies below heap_end. */
  lemma LivePointerInRange(h: Heap, x: Extent)
    requires Inv(h) && h.size >= MIN_ALIGNED && x in h.LiveBlocks()
    ensures x.start + HDR < h.End()
  {
    LiveIsUsed(h.blocks, h.End(), x);
    var k :| 0 <= k < |h.blocks| && h.blocks[k].used && x == Extent(h.blocks[k].addr, Next(h.blocks, k, h.End()));
    Apart(h.blocks, k, |h.blocks| - 1, h.End());
  }

  lemma InvLfree(h: Heap)
    requires Inv(h)
    ensures LfreeOk(h.blocks, h.lfree, h.End(), LowestFree(h)) && LfreeOk(h.blocks, h.lfree, h.End(), false)
  {
  }

  lemma MarkCoalesced(bs: seq<Block>, i: nat)
    requires i < |bs| && Coalesced(bs)
    ensures CoalescedBut(bs[i := Block(bs[i].addr, false)], i)
  {
  }

  lemma CutLfreeOk(bs: seq<Block>, i: nat, cut: nat, lfree: nat, end: nat)
    requires i < |bs| && bs[i].used && LfreeOk(bs, lfree, end, false)
    ensures LfreeOk(Cut(bs, i, cut), lfree, end, false)
  {
    if lfree != end {
      var k :| 0 <= k < |bs| && !bs[k].used && bs[k].addr == lfree;
      assert Cut(bs, i, cut)[if k > i then k + 1 else k] == bs[k];
    }
  }

  lemma Aligned(bs: seq<Block>, i: nat, end: nat)
    requires Layout(bs, end) && i < |bs|
    ensures bs[i].addr % 8 == 0 && Next(bs, i, end) % 8 == 0 && bs[i].addr + HDR <= Next(bs, i, end) <= end
  {
  }

  /** Shrinking in place keeps the invariant and moves only the end of the block. */
  lemma ShrunkKeeps(h: Heap, i: nat, n: nat)
    requires Inv(h) && i < |h.blocks| && h.blocks[i].used && n % 8 == 0 && n + HDR + MIN_SIZE < h.Room(i)
    ensures Inv(Shrunk(h, i, n)) && Shrunk(h, i, n).size == h.size
    ensures var a := h.blocks[i].addr;
            Shrunk(h, i, n).LiveBlocks()
            == h.LiveBlocks() - {Extent(a, Next(h.blocks, i, h.End()))} + {Extent(a, a + HDR + n)}
  {
    hide UsedSum, Live, Layout, LfreeOk, CoalescedBut, Coalesced, Plug, PlugLfree;
    var cut := h.blocks[i].addr + HDR + n;
    assert h.blocks[i].addr % 8 == 0 by { Aligned(h.blocks, i, h.End()); }
    InvLfree(h);
    CutCoalescedBut(h.blocks, i, cut);
    CutLfreeOk(h.blocks, i, cut, h.lfree, h.End());
    CutKeeps(h.blocks, i, cut, h.End());
    CutLastRoom(h, i, n);
    PluggedKeeps(Heap(h.size, Cut(h.blocks, i, cut), h.lfree, h.usedMem - (h.Room(i) - n)), i + 1, false);
  }

  lemma CutLastRoom(h: Heap, i: nat, n: nat)
    requires Inv(h) && i < |h.blocks| && n % 8 == 0 && n + HDR + MIN_SIZE < h.Room(i)
    ensures h.size >= MIN_ALIGNED ==> LastRoom(Cut(h.blocks, i, h.blocks[i].addr + HDR + n), h.End())
  {
    Aligned(h.blocks, i, h.End());
  }

  lemma CutCoalescedBut(bs: seq<Block>, i: nat, cut: nat)
    requires i < |bs| && Coalesced(bs)
    ensures CoalescedBut(Cut(bs, i, cut), i + 1)
  {
    var bs' := Cut(bs, i, cut);
    forall k | 0 <= k < |bs'| - 1 && k != i + 1 && k + 1 != i + 1
      ensures bs'[k].used || bs'[k + 1].used
    {
      if k > i + 1 {
        assert bs'[k] == bs[k - 1] && bs'[k + 1] == bs[k];
      }
    }
  }

  /** A live block is found again by its address. */
  lemma FindLive(bs: seq<Block>, end: nat, x: Extent)
    requires Layout(bs, end) && x in Live(bs, end)
    ensures Index(bs, x.start) < |bs| && bs[Index(bs, x.start)].used
    ensures Next(bs, Index(bs, x.start), end) == x.end
  {
    LiveIsUsed(bs, end, x);
    var k :| 0 <= k < |bs| && bs[k].used && x == Extent(bs[k].addr, Next(bs, k, end));
    var i := Index(bs, x.start);
    assert i < |bs| && bs[i].addr == bs[k].addr;
    assert i == k;
  }

  /** rt_realloc keeps the invariant. A result replaces the block by one that holds the new size and overlaps no other
      live block; without a result the heap is as it was. */
  lemma ReallocKeeps(h: Heap, i: nat, newsize: nat)
    requires Inv(h) && i < |h.blocks| && h.blocks[i].used && newsize < WORD
    ensures var (h', r) := Realloc(h, i, newsize);
            var old_ := Extent(h.blocks[i].addr, Next(h.blocks, i, h.End()));
            Inv(h') && h'.size == h.size
            && match r
               case None => h' == h
               case Some(q) =>
                 exists e: nat ::
                   && h'.LiveBlocks() == h.LiveBlocks() - {old_} + {Extent(q, e)}
                   && e - q - HDR >= AlignUp(newsize)
                   && (e - q - HDR >= newsize <==> newsize <= WORD - 8)
                   && forall x :: x in h.LiveBlocks() && x != old_ ==> x.end <= q || e <= x.start
  {
    hide UsedSum, Live, Coalesced, Free, Shrunk, Malloc, Layout;
    var n, a, end := AlignUp(newsize), h.blocks[i].addr, Next(h.blocks, i, h.End());
    var x := Extent(a, end);
    var (h', r) := Realloc(h, i, newsize);
    assert x in h.LiveBlocks() by { LiveIsUsed(h.blocks, h.End(), x); }
    OthersDisjoint(h, x);
    if n > h.size {
    } else if h.Room(i) == n {
      assert h'.LiveBlocks() == h.LiveBlocks() - {x} + {Extent(a, end)};
    } else if n + HDR + MIN_SIZE < h.Room(i) {
      ShrunkKeeps(h, i, n);
      assert h'.LiveBlocks() == h.LiveBlocks() - {x} + {Extent(a, a + HDR + n)};
    } else {
      MallocKeeps(h, n);
      var (h1, q) := Malloc(h, n);
      if q.Some? {
        var e: nat :| h1.LiveBlocks() == h.LiveBlocks() + {Extent(q.value, e)}
                      && e - q.value - HDR >= Wanted(AlignUp(n))
                      && forall y :: y in h.LiveBlocks() ==> y.end <= q.value || e <= y.start;
        assert AlignUp(n) == n;
        WrapsToSmall(newsize);
        MallocZero(h);
        FindLive(h1.blocks, h1.End(), x);
        FreeKeeps(h1, Index(h1.blocks, a));
        assert h'.LiveBlocks() == h.LiveBlocks() - {x} + {Extent(q.value, e)};
      }
    }
  }

  lemma OthersDisjoint(h: Heap, x: Extent)
    requires Inv(h) && x in h.LiveBlocks()
    ensures forall y :: y in h.LiveBlocks() && y != x ==> y.end <= x.start || x.end <= y.start
  {
    forall y | y in h.LiveBlocks() && y != x
      ensures y.end <= x.start || x.end <= y.start
    {
      LiveDisjoint(h.blocks, h.End(), x, y);
    }
  }

  // ---------------------------------------------------------------- runs

  /** A call. Release and resize name a live block by its header address; anything else is not a legal call. */
  datatype Op = OpMalloc(request: nat) | OpFree(start: nat) | OpRealloc(start: nat, newsize: nat)

  predicate Legal(h: Heap, op: Op) {
    match op
    case OpMalloc(n) => n < WORD
    case OpFree(a) => Index(h.blocks, a) < |h.blocks| && h.blocks[Index(h.blocks, a)].used
    case OpRealloc(a, n) => n < WORD && Index(h.blocks, a) < |h.blocks| && h.blocks[Index(h.blocks, a)].used
  }

  function Perform(h: Heap, op: Op): Heap
    requires Legal(h, op)
  {
    match op
    case OpMalloc(n) => Malloc(h, n).0
    case OpFree(a) => Free(h, Index(h.blocks, a))
    case OpRealloc(a, n) => Realloc(h, Index(h.blocks, a), n).0
  }

  /** Heaps reached by a list of legal calls from a fresh heap. */
  ghost predicate Reaches(h: Heap, ops: seq<Op>, h': Heap)
    decreases |ops|
  {
    if ops == [] then h' == h
    else Legal(h, ops[0]) && Reaches(Perform(h, ops[0]), ops[1..], h')
  }

  lemma InitialInv(size: nat)
    requires size % 8 == 0 && size + 2 * HDR <= WORD
    ensures Inv(Initial(size)) && LowestFree(Initial(size)) && Initial(size).LiveBlocks() == {}
  {
    var b := Block(0, false);
    One(b, size + HDR);
    assert Initial(size).blocks[0] == b;
  }

  lemma PerformKeeps(h: Heap, op: Op)
    requires Inv(h) && Legal(h, op)
    ensures Inv(Perform(h, op))
    ensures LowestFree(h) && !op.OpRealloc? ==> LowestFree(Perform(h, op))
  {
    hide Inv, LowestFree, Malloc, Free, Realloc;
    match op
    case OpMalloc(n) => MallocKeeps(h, n);
    case OpFree(a) => FreeKeeps(h, Index(h.blocks, a));
    case OpRealloc(a, n) => ReallocKeeps(h, Index(h.blocks, a), n);
  }

  /** Every run keeps the invariant; a run without rt_realloc also keeps lfree the lowest free block. */
  lemma {:induction false} RunKeeps(h: Heap, ops: seq<Op>, h': Heap)
    requires Inv(h) && Reaches(h, ops, h')
    ensures Inv(h')
    ensures LowestFree(h) && (forall op :: op in ops ==> !op.OpRealloc?) ==> LowestFree(h')
    decreases |ops|
  {
    hide Inv, LowestFree, Perform, Legal;
    if ops != [] {
      PerformKeeps(h, ops[0]);
      assert forall op :: op in ops[1..] ==> op in ops;
      RunKeeps(Perform(h, ops[0]), ops[1..], h');
    }
  }

  /** Whatever the run and the order of the releases: once nothing is live, the heap is one free block again. */
  lemma AllFreed(size: nat, ops: seq<Op>, h: Heap)
    requires size % 8 == 0 && size + 2 * HDR <= WORD
    requires Reaches(Initial(size), ops, h) && h.LiveBlocks() == {}
    ensures h.blocks == [Block(0, false)] && h.usedMem == 0
  {
    InitialInv(size);
    RunKeeps(Initial(size), ops, h);
    assert |h.blocks| > 1 ==> h.blocks[0].used || h.blocks[0 + 1].used;
    forall k | 0 <= k < |h.blocks|
      ensures !h.blocks[k].used
    {
      LiveIsUsed(h.blocks, h.End(), Extent(h.blocks[k].addr, Next(h.blocks, k, h.End())));
    }
    assert h.blocks == [h.blocks[0]];
    One(h.blocks[0], h.End());
  }

  /** After a block has shrunk in place, lfree is the lowest free block iff it was below the block, or was the block just
      behind it, with which the rest is merged. */
  lemma ShrinkLowest(h: Heap, i: nat, n: nat)
    requires Inv(h) && LowestFree(h)
    requires i < |h.blocks| && h.blocks[i].used && n % 8 == 0 && n + HDR + MIN_SIZE < h.Room(i)
    ensures LowestFree(Shrunk(h, i, n))
       <==> h.lfree < h.blocks[i].addr || (i + 1 < |h.blocks| && h.lfree == h.blocks[i + 1].addr)
  {
    hide UsedSum, Live, Coalesced, Layout, Shrunk;
    var cut, bs, h' := h.blocks[i].addr + HDR + n, h.blocks, Shrunk(h, i, n);
    ShrunkShape(h, i, n);
    BlockOrder(bs, i, h.End());
    assert h'.blocks[i + 1] == Block(cut, false);
    if i + 1 < |bs| && h.lfree == bs[i + 1].addr {
      FreeBlockAt(bs, i + 1, h.End());
      assert forall k :: 0 <= k < i ==> bs[k].used;
    }
    if h.lfree < bs[i].addr || (i + 1 < |bs| && h.lfree == bs[i + 1].addr) {
      forall k | 0 <= k < |h'.blocks| && !h'.blocks[k].used
        ensures h'.lfree <= h'.blocks[k].addr
      {
        assert k < i ==> h'.blocks[k] == bs[k];
        var merge := i + 1 < |bs| && !bs[i + 1].used;
        assert k > i + 1 ==> h'.blocks[k] == bs[if merge then k else k - 1];
      }
    }
  }

  /** What shrinking block i makes of the list and of lfree. */
  lemma ShrunkShape(h: Heap, i: nat, n: nat)
    requires i < |h.blocks| && h.blocks[i].used
    ensures var bs, cut, h' := h.blocks, h.blocks[i].addr + HDR + n, Shrunk(h, i, n);
            var merge := i + 1 < |bs| && !bs[i + 1].used;
            && |h'.blocks| == |bs| + (if merge then 0 else 1)
            && (forall k :: 0 <= k < i ==> h'.blocks[k] == bs[k])
            && h'.blocks[i] == Block(bs[i].addr, true) && h'.blocks[i + 1] == Block(cut, false)
            && (forall k :: i + 1 < k < |h'.blocks| ==> h'.blocks[k] == bs[if merge then k else k - 1])
            && h'.lfree == (if merge && h.lfree == bs[i + 1].addr then cut else h.lfree)
  {
    var bs1 := Cut(h.blocks, i, h.blocks[i].addr + HDR + n);
    assert bs1[i].used;
    assert forall k :: 0 <= k < i ==> bs1[k] == h.blocks[k];
    assert forall k :: i + 1 < k < |bs1| ==> bs1[k] == h.blocks[k - 1];
  }

  /** The block at the address of lfree is free. */
  lemma FreeBlockAt(bs: seq<Block>, j: nat, end: nat)
    requires Layout(bs, end) && j < |bs| && (bs[j].addr == end || FreeAt(bs, bs[j].addr))
    ensures !bs[j].used
  {
    var k :| 0 <= k < |bs| && !bs[k].used && bs[k].addr == bs[j].addr;
    Apart(bs, k, j, end);
  }

  /** Blocks in front of block i and behind it. */
  lemma BlockOrder(bs: seq<Block>, i: nat, end: nat)
    requires Layout(bs, end) && i < |bs|
    ensures forall k :: 0 <= k < i ==> bs[k].addr < bs[i].addr
    ensures forall k :: i < k < |bs| ==> Next(bs, i, end) <= bs[k].addr
    ensures Next(bs, i, end) <= end && bs[i].addr < end
  {
    forall k | i < k < |bs|
      ensures Next(bs, i, end) <= bs[k].addr
    {
      Apart(bs, i, k, end);
    }
  }

  /** Shrinking a block in place does not lower lfree: afterwards a free block can lie below it. */
  lemma ShrinkLeavesLfree()
    ensures var h := Malloc(Initial(160), 64).0;
            var h1 := Malloc(h, 16).0;
            var h2 := Realloc(h1, 0, 16).0;
            LowestFree(h1) && !LowestFree(h2)
  {
    var h0 := Initial(160);
    assert FirstFit(h0, 0, 64, 96) == Some(0);
    var h := Malloc(h0, 64).0;
    assert h.blocks == [Block(0, true), Block(80, false)];
    assert FirstFree(h.blocks, 0, 176) == FirstFree(h.blocks, 1, 176) == 80;
    assert h.lfree == 80;
    assert Index(h.blocks, 80) == IndexFrom(h.blocks, 1, 80) == 1;
    assert FirstFit(h, 1, 16, 144) == Some(1);
    var h1 := Malloc(h, 16).0;
    assert h1.blocks == [Block(0, true), Block(80, true), Block(112, false)];
    assert FirstFree(h1.blocks, 1, 176) == FirstFree(h1.blocks, 2, 176) == 112;
    assert h1.lfree == 112;
    var h2 := Realloc(h1, 0, 16).0;
    assert h2.blocks == [Block(0, true), Block(32, false), Block(80, true), Block(112, false)];
    assert !h2.blocks[1].used && h2.blocks[1].addr < h2.lfree;
  }

  /** In a heap of 0 or 8 bytes a request that passes the size test makes mem_size_aligned - size wrap below zero. The
      search then stops at nothing: no block has room, and the sentinel, used and below the wrapped bound, follows
      itself. */
  lemma TinyHeapSearch(h: Heap, request: nat)
    requires Inv(h) && h.size < MIN_ALIGNED && 0 < request < WORD && AlignUp(request) <= h.size
    ensures h.size - Wanted(AlignUp(request)) < 0
    ensures h.End() < WORD + h.size - Wanted(AlignUp(request))
    ensures forall i :: 0 <= i < |h.blocks| ==> h.Room(i) < Wanted(AlignUp(request))
  {
  }
}
