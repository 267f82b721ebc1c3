/** The heap of mem.c in place: headers at offsets of one memory, linked by next and prev, with the bytes of the live
    blocks in between. */
module SmallHeap {
  import opened Prelude
  import opened SmallHeapLayout
  import opened SmallHeapSpec

  type Byte = bv8

  const HEAP_MAGIC: nat := 0x1ea0

  /** struct heap_mem. */
  datatype Header = Header(magic: nat, used: bool, next: nat, prev: nat)

  /** Header `x` is the one of block i of the list. */
  ghost predicate Matches(x: Header, bs: seq<Block>, i: nat, end: nat)
    requires i < |bs|
  {
    && x.used == bs[i].used && x.next == Next(bs, i, end) && (x.used ==> x.magic == HEAP_MAGIC)
    && x.prev == PrevOf(bs, i)
  }

  /** The headers in memory at the block addresses are those of the list. The prev link of the sentinel is not kept. */
  ghost predicate Represents(hs: seq<Header>, bs: seq<Block>, end: nat) {
    && |hs| == end + HDR && Layout(bs, end)
    && (forall i {:trigger Matches(hs[bs[i].addr], bs, i, end)} ::
          0 <= i < |bs| ==> Matches(hs[bs[i].addr], bs, i, end))
    && hs[end].used && hs[end].next == end
  }

  /** The same outside the given offsets. */
  ghost predicate SameBut<T>(a: seq<T>, b: seq<T>, s: set<nat>) {
    |a| == |b| && forall k :: 0 <= k < |a| && k !in s ==> a[k] == b[k]
  }

  /** Address of the block before block k. */
  function PrevOf(bs: seq<Block>, k: nat): nat
    requires k < |bs|
  {
    if k == 0 then 0 else bs[k - 1].addr
  }

  lemma CutAt(bs: seq<Block>, i: nat, cut: nat, k: nat, end: nat)
    requires i < |bs| && k < |bs| + 1
    ensures var bs' := Cut(bs, i, cut);
            |bs'| == |bs| + 1
            && (k < i ==> bs'[k] == bs[k] && Next(bs', k, end) == Next(bs, k, end) && PrevOf(bs', k) == PrevOf(bs, k))
            && (k == i ==> bs'[k] == Block(bs[i].addr, true) && Next(bs', k, end) == cut && PrevOf(bs', k) == PrevOf(bs, i))
            && (k == i + 1 ==> bs'[k] == Block(cut, false) && Next(bs', k, end) == Next(bs, i, end)
                               && PrevOf(bs', k) == bs[i].addr)
            && (k > i + 1 ==> bs'[k] == bs[k - 1] && Next(bs', k, end) == Next(bs, k - 1, end)
                              && PrevOf(bs', k) == if k == i + 2 then cut else PrevOf(bs, k - 1))
  {
  }

  lemma DropAt(bs: seq<Block>, j: nat, k: nat, end: nat)
    requires 0 < j < |bs| && k < |bs| - 1
    ensures var bs' := Drop(bs, j);
            |bs'| == |bs| - 1
            && (k < j ==> bs'[k] == bs[k] && PrevOf(bs', k) == PrevOf(bs, k)
                          && Next(bs', k, end) == if k == j - 1 then Next(bs, j, end) else Next(bs, k, end))
            && (k >= j ==> bs'[k] == bs[k + 1] && Next(bs', k, end) == Next(bs, k + 1, end)
                           && PrevOf(bs', k) == if k == j then bs[j - 1].addr else PrevOf(bs, k + 1))
  {
  }

  lemma RepresentsCut(hs: seq<Header>, hs': seq<Header>, bs: seq<Block>, i: nat, cut: nat, end: nat)
    requires Represents(hs, bs, end) && i < |bs|
    requires cut % 8 == 0 && bs[i].addr + HDR <= cut && cut + HDR <= Next(bs, i, end)
    requires SameBut(hs, hs', {bs[i].addr, cut, Next(bs, i, end)})
    requires hs'[bs[i].addr] == Header(HEAP_MAGIC, true, cut, hs[bs[i].addr].prev)
    requires !hs'[cut].used && hs'[cut].next == Next(bs, i, end) && hs'[cut].prev == bs[i].addr
    requires Next(bs, i, end) < end ==> hs'[Next(bs, i, end)] == hs[Next(bs, i, end)].(prev := cut)
    requires hs'[end] == hs[end]
    ensures Represents(hs', Cut(bs, i, cut), end)
  {
    hide Layout, Cut;
    CutLayout(bs, i, cut, end);
    Apart(bs, i, i, end);
    var bs' := Cut(bs, i, cut);
    assert |bs'| == |bs| + 1 by { CutAt(bs, i, cut, 0, end); }
    forall k | 0 <= k < |bs'|
      ensures 0 <= bs'[k].addr < |hs'| && Matches(hs'[bs'[k].addr], bs', k, end)
    {
      CutAt(bs, i, cut, k, end);
      var k0 := if k <= i then k else k - 1;
      assert Matches(hs[bs[k0].addr], bs, k0, end);
      Apart(bs, k0, i, end);
      if k0 > i + 1 {
        Apart(bs, i + 1, k0, end);
      }
    }
  }

  lemma RepresentsMark(hs: seq<Header>, hs': seq<Header>, bs: seq<Block>, i: nat, used: bool, end: nat)
    requires Represents(hs, bs, end) && i < |bs| && bs[i].addr < |hs'|
    requires SameBut(hs, hs', {bs[i].addr})
    requires var x := hs'[bs[i].addr];
             x.used == used && x.next == hs[bs[i].addr].next && x.prev == hs[bs[i].addr].prev
             && (used ==> x.magic == HEAP_MAGIC)
    ensures Represents(hs', bs[i := Block(bs[i].addr, used)], end)
  {
    hide Layout;
    Apart(bs, i, i, end);
    var bs' := bs[i := Block(bs[i].addr, used)];
    MarkLayout(bs, i, used, end);
    forall k | 0 <= k < |bs'|
      ensures 0 <= bs'[k].addr < |hs'| && Matches(hs'[bs'[k].addr], bs', k, end)
    {
      Apart(bs, k, i, end);
      assert Matches(hs[bs[k].addr], bs, k, end);
    }
  }

  lemma RepresentsDrop(hs: seq<Header>, hs': seq<Header>, bs: seq<Block>, j: nat, end: nat)
    requires Represents(hs, bs, end) && 0 < j < |bs|
    requires SameBut(hs, hs', {bs[j - 1].addr, Next(bs, j, end)})
    requires hs'[bs[j - 1].addr] == hs[bs[j - 1].addr].(next := Next(bs, j, end))
    requires hs'[Next(bs, j, end)] == hs[Next(bs, j, end)].(prev := bs[j - 1].addr)
    ensures Represents(hs', Drop(bs, j), end)
  {
    hide Layout, Drop;
    DropLayout(bs, j, end);
    Apart(bs, j - 1, j, end);
    Apart(bs, j, j, end);
    var bs' := Drop(bs, j);
    assert |bs'| == |bs| - 1 by { DropAt(bs, j, 0, end); }
    forall k | 0 <= k < |bs'|
      ensures 0 <= bs'[k].addr < |hs'| && Matches(hs'[bs'[k].addr], bs', k, end)
    {
      DropAt(bs, j, k, end);
      var k0 := if k < j then k else k + 1;
      assert Matches(hs[bs[k0].addr], bs, k0, end);
      Apart(bs, k0, j - 1, end);
      Apart(bs, k0, j, end);
      if k0 > j + 1 {
        Apart(bs, j + 1, k0, end);
      }
    }
  }

  /** Two memories agree on the bytes of the given live blocks. */
  ghost predicate SameBytes(a: seq<Byte>, b: seq<Byte>, live: set<Extent>) {
    |a| == |b| && forall x, k :: x in live && x.start + HDR <= k < x.end && k < |a| ==> a[k] == b[k]
  }

  /** Writing over the header of any block leaves the bytes of every live block alone. */
  lemma HeaderOutsideLive(bs: seq<Block>, end: nat, i: nat, x: Extent)
    requires Layout(bs, end) && i <= |bs| && x in Live(bs, end)
    ensures var p := if i < |bs| then bs[i].addr else end;
            p + HDR <= x.start + HDR || x.end <= p
  {
    LiveIsUsed(bs, end, x);
    var k :| 0 <= k < |bs| && bs[k].used && x == Extent(bs[k].addr, Next(bs, k, end));
    assert k < i < |bs| ==> k + 1 == i || bs[k + 1].addr + HDR <= bs[i].addr;
  }

  class Heap {
    const size: nat
    const hdr: array<Header>
    const bytes: array<Byte>
    var lfree: nat
    var usedMem: int
    ghost var blocks: seq<Block>

    ghost predicate Framed()
      reads this, hdr
    {
      && size % 8 == 0 && size + 2 * HDR <= WORD
      && hdr as object != bytes && hdr.Length == bytes.Length == size + 2 * HDR
      && Represents(hdr[..], blocks, size + HDR)
    }

    ghost function State(): SmallHeapSpec.Heap
      reads this
    {
      SmallHeapSpec.Heap(size, blocks, lfree, usedMem)
    }

    ghost predicate Valid()
      reads this, hdr
    {
      Framed() && Inv(State())
    }

    /** rt_system_heap_init, once the aligned size is known. */
    constructor (size: nat)
      requires size % 8 == 0 && size + 2 * HDR <= WORD
      ensures Valid() && State() == Initial(size) && fresh(hdr) && fresh(bytes)
    {
      this.size := size;
      hdr := new Header[size + 2 * HDR](_ => Header(0, false, 0, 0));
      bytes := new Byte[size + 2 * HDR](_ => 0);
      lfree, usedMem := 0, 0;
      blocks := [Block(0, false)];
      new;
      hdr[0] := Header(HEAP_MAGIC, false, size + HDR, 0);
      hdr[size + HDR] := Header(HEAP_MAGIC, true, size + HDR, size + HDR);
      assert Matches(hdr[..][0], blocks, 0, size + HDR);
      InitialInv(size);
    }

    /** Store a header. Its 16 bytes of memory get some value; no other byte changes. */
    method PutHeader(p: nat, h: Header)
      requires hdr as object != bytes && hdr.Length == bytes.Length && p + HDR <= hdr.Length
      modifies hdr, bytes
      ensures hdr[..] == old(hdr[..])[p := h]
      ensures forall k :: 0 <= k < bytes.Length && !(p <= k < p + HDR) ==> bytes[k] == old(bytes[k])
    {
      hdr[p] := h;
      var k := p;
      while k < p + HDR
        invariant p <= k <= p + HDR && hdr[..] == old(hdr[..])[p := h]
        invariant forall j :: 0 <= j < bytes.Length && !(p <= j < p + HDR) ==> bytes[j] == old(bytes[j])
      {
        bytes[k] := *;
        k := k + 1;
      }
    }

    /** Store the header of block i of the list (the sentinel for i = |blocks|). */
    method PutBlock(p: nat, h: Header, ghost i: nat)
      requires hdr as object != bytes && hdr.Length == bytes.Length == size + 2 * HDR && Layout(blocks, size + HDR)
      requires i <= |blocks| && p == if i < |blocks| then blocks[i].addr else size + HDR
      modifies hdr, bytes
      ensures hdr[..] == old(hdr[..])[p := h]
      ensures SameBytes(old(bytes[..]), bytes[..], Live(blocks, size + HDR))
    {
      PutHeader(p, h);
      forall x, k | x in Live(blocks, size + HDR) && x.start + HDR <= k < x.end && k < bytes.Length
        ensures old(bytes[k]) == bytes[k]
      {
        HeaderOutsideLive(blocks, size + HDR, i, x);
      }
    }

    /** The merge step of plug_holes: block j, at `nmem`, is absorbed by the block before it, at `mem`. */
    method Absorb(mem: nat, nmem: nat, ghost j: nat)
      requires Framed() && 0 < j < |blocks| && !blocks[j].used && !blocks[j - 1].used
      requires mem == blocks[j - 1].addr && nmem == blocks[j].addr
      modifies this, hdr, bytes
      ensures Framed() && usedMem == old(usedMem)
      ensures blocks == Drop(old(blocks), j) && lfree == DropLfree(old(blocks), j, old(lfree))
      ensures SameBytes(old(bytes[..]), bytes[..], Live(blocks, size + HDR))
    {
      hide Live, SameBytes, Layout, Drop;
      ghost var hs, end := hdr[..], size + HDR;
      if lfree == nmem {
        lfree := mem;
      }
      Apart(blocks, j - 1, j, end);
      Apart(blocks, j, j, end);
      var next := hdr[nmem].next;
      assert next == Next(blocks, j, end) by { assert Matches(hs[blocks[j].addr], blocks, j, end); }
      PutBlock(mem, hdr[mem].(next := next), j - 1);
      ghost var b1 := bytes[..];
      PutBlock(next, hdr[next].(prev := mem), j + 1);
      RepresentsDrop(hs, hdr[..], blocks, j, end);
      DropKeeps(blocks, j, end);
      SameBytesTrans(old(bytes[..]), b1, bytes[..], Live(blocks, end));
      blocks := Drop(blocks, j);
    }

    /** plug_holes. */
    method PlugHoles(mem: nat, ghost i: nat)
      requires Framed() && i < |blocks| && !blocks[i].used && blocks[i].addr == mem
      modifies this, hdr, bytes
      ensures Framed()
      ensures State() == Plugged(old(State()), i)
      ensures SameBytes(old(bytes[..]), bytes[..], Live(blocks, size + HDR))
    {
      hide Live, SameBytes, Layout;
      SameBytesRefl(bytes[..], Live(blocks, size + HDR));
      ghost var end, hs := size + HDR, hdr[..];
      Apart(blocks, i, i, end);
      assert Matches(hs[blocks[i].addr], blocks, i, end);
      var nmem := hdr[mem].next;
      assert i + 1 < |blocks| ==> nmem < end && Matches(hs[blocks[i + 1].addr], blocks, i + 1, end) by {
        if i + 1 < |blocks| {
          Apart(blocks, i + 1, i + 1, end);
        }
      }
      if mem != nmem && !hdr[nmem].used && nmem != size + HDR {
        Absorb(mem, nmem, i + 1);
      }
      assert blocks == PlugForward(old(blocks), i);
      assert blocks[i].addr == mem && !blocks[i].used && (i > 0 ==> blocks[i - 1] == old(blocks)[i - 1]);
      ghost var b1, hs1 := bytes[..], hdr[..];
      Apart(blocks, i, i, end);
      assert Matches(hs1[blocks[i].addr], blocks, i, end);
      var pmem := hdr[mem].prev;
      if i > 0 {
        Apart(blocks, i - 1, i, end);
        assert Matches(hs1[blocks[i - 1].addr], blocks, i - 1, end);
      }
      if pmem != mem && !hdr[pmem].used {
        DropKeeps(blocks, i, end);
        Absorb(pmem, mem, i);
        SameBytesTrans(old(bytes[..]), b1, bytes[..], Live(blocks, end));
      }
    }

    /** Block i is cut at `ptr2`: it stays, used, in front, and a free block begins at `ptr2`. */
    method SplitBlock(ptr: nat, ptr2: nat, magic2: nat, ghost i: nat)
      requires Framed() && i < |blocks| && blocks[i].addr == ptr && ptr2 % 8 == 0
      requires ptr + HDR <= ptr2 && ptr2 + HDR <= Next(blocks, i, size + HDR)
      modifies this, hdr, bytes
      ensures Framed() && usedMem == old(usedMem) && lfree == old(lfree)
      ensures blocks == Cut(old(blocks), i, ptr2)
      ensures SameBytes(old(bytes[..]), bytes[..], Live(blocks, size + HDR))
    {
      hide Live, SameBytes, Layout, Cut;
      ghost var end, hs, bs := size + HDR, hdr[..], blocks;
      Apart(bs, i, i, end);
      assert Matches(hs[bs[i].addr], bs, i, end);
      var next := hdr[ptr].next;
      CutLayout(bs, i, ptr2, end);
      CutAt(bs, i, ptr2, i, end);
      CutAt(bs, i, ptr2, i + 1, end);
      blocks := Cut(bs, i, ptr2);
      PutBlock(ptr2, Header(magic2, false, next, ptr), i + 1);
      ghost var b1 := bytes[..];
      PutBlock(ptr, Header(HEAP_MAGIC, true, ptr2, hdr[ptr].prev), i);
      ghost var b2 := bytes[..];
      SameBytesTrans(old(bytes[..]), b1, b2, Live(blocks, end));
      if next != size + HDR {
        assert i + 2 < |blocks| && blocks[i + 2].addr == next;
        Apart(blocks, i + 2, i + 2, end);
        PutBlock(next, hdr[next].(prev := ptr2), i + 2);
        SameBytesTrans(old(bytes[..]), b2, bytes[..], Live(blocks, end));
      }
      RepresentsCut(hs, hdr[..], bs, i, ptr2, end);
    }

    /** Move lfree to the next free block, or to the sentinel. */
    method AdvanceLfree(ghost i: nat)
      requires Framed() && i < |blocks| && lfree == blocks[i].addr
      modifies `lfree
      ensures lfree == FirstFree(blocks, i, size + HDR)
    {
      hide Layout;
      ghost var k, end, hs := i, size + HDR, hdr[..];
      Apart(blocks, i, i, end);
      assert Matches(hs[blocks[i].addr], blocks, i, end);
      while hdr[lfree].used && lfree != size + HDR
        invariant i <= k <= |blocks|
        invariant lfree == if k < |blocks| then blocks[k].addr else end
        invariant k < |blocks| ==> lfree < end && Matches(hs[blocks[k].addr], blocks, k, end)
        invariant FirstFree(blocks, i, end) == FirstFree(blocks, k, end)
        decreases |blocks| - k
      {
        lfree := hdr[lfree].next;
        k := k + 1;
        if k < |blocks| {
          Apart(blocks, k, k, end);
          assert Matches(hs[blocks[k].addr], blocks, k, end);
        }
      }
    }

    /** The body of the search loop of rt_malloc, for a block with room. */
    method Take(ptr: nat, n: nat, ghost i: nat)
      requires Valid() && i < |blocks| && blocks[i] == Block(ptr, false) && n % 8 == 0 && State().Room(i) >= n
      modifies this, hdr, bytes
      ensures Valid() && State() == Taken(old(State()), i, n)
      ensures SameBytes(old(bytes[..]), bytes[..], old(State().LiveBlocks()))
    {
      hide Live, SameBytes, Layout, Cut, Inv, UsedSum;
      ghost var end, hs, bs, h0 := size + HDR, hdr[..], blocks, State();
      TakenKeeps(h0, i, n);
      Apart(bs, i, i, end);
      Aligned(bs, i, end);
      assert Matches(hs[bs[i].addr], bs, i, end);
      var next := hdr[ptr].next;
      if next - (ptr + HDR) >= n + HDR + MIN_ALIGNED {
        var ptr2 := ptr + HDR + n;
        SplitBlock(ptr, ptr2, hdr[ptr2].magic, i);
        usedMem := usedMem + (n + HDR);
        CutAt(bs, i, ptr2, i, end);
      } else {
        MarkLayout(bs, i, true, end);
        blocks := bs[i := Block(ptr, true)];
        PutBlock(ptr, hdr[ptr].(used := true, magic := HEAP_MAGIC), i);
        RepresentsMark(hs, hdr[..], bs, i, true, end);
        usedMem := usedMem + (next - ptr);
      }
      assert blocks == Taken(h0, i, n).blocks && blocks[i].addr == ptr;
      SameBytesSubset(old(bytes[..]), bytes[..], h0.LiveBlocks(), Live(blocks, end));
      if ptr == lfree {
        AdvanceLfree(i);
      }
    }

    /** rt_malloc. A heap smaller than the smallest block must not be asked for a size it could seem to hold. */
    method Malloc(request: nat) returns (r: Option<nat>)
      requires Valid() && request < WORD
      requires request == 0 || AlignUp(request) > size || size >= MIN_ALIGNED
      modifies this, hdr, bytes
      ensures Valid()
      ensures State() == SmallHeapSpec.Malloc(old(State()), request).0
      ensures match SmallHeapSpec.Malloc(old(State()), request).1
              case None => r == None
              case Some(a) => r == Some(a + HDR)
      ensures SameBytes(old(bytes[..]), bytes[..], old(State().LiveBlocks()))
    {
      hide Live, SameBytes, Layout, Taken, UsedSum, AlignUp;
      SameBytesRefl(bytes[..], State().LiveBlocks());
      if request == 0 {
        return None;
      }
      var n := AlignUp(request);
      if n > size {
        return None;
      }
      if n < MIN_ALIGNED {
        n := MIN_ALIGNED;
      }
      var ptr := lfree;
      ghost var h, hs, end := State(), hdr[..], size + HDR;
      ghost var i0 := Index(blocks, lfree);
      ghost var i := i0;
      while ptr < size - n
        invariant i0 <= i <= |blocks| && State() == h && hdr[..] == hs && bytes[..] == old(bytes[..])
        invariant ptr == if i < |blocks| then blocks[i].addr else end
        invariant FirstFit(h, i0, n, size - n) == FirstFit(h, i, n, size - n)
        decreases |blocks| - i
      {
        assert i < |blocks|;
        Apart(blocks, i, i, end);
        assert Matches(hs[blocks[i].addr], blocks, i, end);
        if !hdr[ptr].used && hdr[ptr].next - (ptr + HDR) >= n {
          Take(ptr, n, i);
          return Some(ptr + HDR);
        }
        ptr := hdr[ptr].next;
        i := i + 1;
      }
      return None;
    }

    /** The range test of rt_free and rt_realloc on a pointer. */
    predicate InHeap(p: Option<int>) { p.Some? && 0 <= p.value < size + HDR }

    /** rt_free of a live block; a null pointer and a pointer outside the heap are ignored. */
    method Free(rmem: Option<int>)
      requires Valid()
      requires InHeap(rmem) ==> rmem.value >= HDR && Legal(State(), OpFree(rmem.value - HDR))
      modifies this, hdr, bytes
      ensures Valid()
      ensures State() == if InHeap(rmem) then Perform(old(State()), OpFree(rmem.value - HDR)) else old(State())
      ensures SameBytes(old(bytes[..]), bytes[..], State().LiveBlocks())
    {
      hide Live, SameBytes, Layout, UsedSum, Plug, PlugLfree;
      if rmem == None || rmem.value < 0 || rmem.value >= size + HDR {
        SameBytesRefl(bytes[..], State().LiveBlocks());
        return;
      }
      var mem := rmem.value - HDR;
      ghost var end, hs, bs, h0 := size + HDR, hdr[..], blocks, State();
      ghost var i := Index(bs, mem);
      FreeKeeps(h0, i);
      Apart(bs, i, i, end);
      assert Matches(hs[bs[i].addr], bs, i, end);
      assert hdr[mem].used && hdr[mem].magic == HEAP_MAGIC;
      MarkLayout(bs, i, false, end);
      blocks := bs[i := Block(mem, false)];
      PutBlock(mem, hdr[mem].(used := false, magic := 0), i);
      RepresentsMark(hs, hdr[..], bs, i, false, end);
      ghost var b1 := bytes[..];
      if mem < lfree {
        lfree := mem;
      }
      usedMem := usedMem - (hdr[mem].next - mem);
      MarkKeeps(bs, i, false, end);
      ghost var marked := Live(blocks, end);
      PlugHoles(mem, i);
      assert Live(blocks, end) <= marked;
      SameBytesSubset(b1, bytes[..], Live(blocks, end), Live(blocks, end));
      SameBytesSubset(old(bytes[..]), b1, Live(blocks, end), marked);
      SameBytesTrans(old(bytes[..]), b1, bytes[..], Live(blocks, end));
    }

    /** rt_memcpy on addresses of this memory: blocks of four words, then words, then bytes, when both addresses are
        word-aligned and there is enough to copy; bytes only otherwise. */
    method MemCopy(dst: nat, src: nat, count: nat)
      requires dst + count <= bytes.Length && src + count <= bytes.Length
      requires dst + count <= src || src + count <= dst
      modifies bytes
      ensures CopiedTo(old(bytes[..]), bytes[..], dst, src, count)
    {
      ghost var m := bytes[..];
      assert CopiedTo(m, m, dst, src, 0);
      hide CopiedTo;
      var done := 0;
      if count >= 16 && dst % 4 == 0 && src % 4 == 0 {
        while count - done >= 16
          invariant 0 <= done <= count && CopiedTo(m, bytes[..], dst, src, done)
        {
          CopyWord(m, dst, src, done, count);
          CopyWord(m, dst, src, done + 4, count);
          CopyWord(m, dst, src, done + 8, count);
          CopyWord(m, dst, src, done + 12, count);
          done := done + 16;
        }
        while count - done >= 4
          invariant 0 <= done <= count && CopiedTo(m, bytes[..], dst, src, done)
        {
          CopyWord(m, dst, src, done, count);
          done := done + 4;
        }
      }
      while done < count
        invariant 0 <= done <= count && CopiedTo(m, bytes[..], dst, src, done)
      {
        CopyByte(m, dst, src, done, count);
        done := done + 1;
      }
    }

    /** Copy the byte at distance `done`. */
    method CopyByte(ghost m: seq<Byte>, dst: nat, src: nat, done: nat, count: nat)
      requires dst + count <= bytes.Length && src + count <= bytes.Length && done < count
      requires dst + count <= src || src + count <= dst
      requires CopiedTo(m, bytes[..], dst, src, done)
      modifies bytes
      ensures CopiedTo(m, bytes[..], dst, src, done + 1)
    {
      assert bytes[..][src + done] == m[src + done];
      bytes[dst + done] := bytes[src + done];
    }

    /** Copy the word at distance `done`. */
    method CopyWord(ghost m: seq<Byte>, dst: nat, src: nat, done: nat, count: nat)
      requires dst + count <= bytes.Length && src + count <= bytes.Length && done + 4 <= count
      requires dst + count <= src || src + count <= dst
      requires CopiedTo(m, bytes[..], dst, src, done)
      modifies bytes
      ensures CopiedTo(m, bytes[..], dst, src, done + 4)
    {
      var d, s := dst + done, src + done;
      assert forall k :: s <= k < s + 4 ==> bytes[..][k] == m[k];
      bytes[d], bytes[d + 1], bytes[d + 2], bytes[d + 3] := bytes[s], bytes[s + 1], bytes[s + 2], bytes[s + 3];
    }

    /** rt_realloc of a live block, a null pointer, or a pointer outside the heap. */
    method Realloc(rmem: Option<int>, request: nat) returns (r: Option<int>)
      requires Valid() && request < WORD && size >= MIN_ALIGNED
      requires InHeap(rmem) ==> rmem.value >= HDR && Legal(State(), OpRealloc(rmem.value - HDR, request))
      modifies this, hdr, bytes
      ensures Valid()
      ensures InHeap(rmem) && r.Some? ==> r.value >= HDR
      ensures InHeap(rmem) ==>
                Resized(old(State()), old(bytes[..]), rmem.value - HDR, request, State(), bytes[..],
                        if r.Some? then Some(r.value - HDR) else None)
      ensures AlignUp(request) > size ==> r == None && State() == old(State()) && bytes[..] == old(bytes[..])
      ensures rmem == None && AlignUp(request) <= size ==>
                var (h, a) := SmallHeapSpec.Malloc(old(State()), AlignUp(request));
                && State() == h && r == (if a.Some? then Some(a.value + HDR) else None)
                && SameBytes(old(bytes[..]), bytes[..], old(State().LiveBlocks()))
      ensures rmem.Some? && !InHeap(rmem) ==> State() == old(State()) && bytes[..] == old(bytes[..])
                                              && r == if AlignUp(request) > size then None else rmem
    {
      hide Live, SameBytes, Layout, UsedSum, AlignUp, Plug, PlugLfree, Cut, Copied, Resized, Inv;
      var newsize := AlignUp(request);
      if newsize > size {
        if InHeap(rmem) {
          SameBytesRefl(bytes[..], State().LiveBlocks());
          ResizedNot(State(), bytes[..], rmem.value - HDR, request, bytes[..]);
        }
        return None;
      }
      if rmem == None {
        var p := Malloc(newsize);
        return if p.Some? then Some(p.value as int) else None;
      }
      if !InHeap(rmem) {
        return rmem;
      }
      var mem := rmem.value - HDR;
      ghost var i := Index(blocks, mem);
      Apart(blocks, i, i, size + HDR);
      assert Matches(hdr[..][blocks[i].addr], blocks, i, size + HDR);
      var room := hdr[mem].next - mem - HDR;
      if room == newsize {
        ResizedSame(State(), bytes[..], mem, request);
        return rmem;
      }
      if newsize + HDR + MIN_SIZE < room {
        Shrink(mem, newsize, i);
        ResizedShrunk(old(State()), old(bytes[..]), mem, request, bytes[..]);
        return rmem;
      }
      var p := MoveTo(mem, room, newsize, i, request);
      return if p.Some? then Some(p.value + HDR) else None;
    }

    /** The split path of rt_realloc. */
    method Shrink(mem: nat, n: nat, ghost i: nat)
      requires Valid() && i < |blocks| && blocks[i] == Block(mem, true) && n % 8 == 0
      requires n + HDR + MIN_SIZE < State().Room(i)
      modifies this, hdr, bytes
      ensures Valid() && State() == Shrunk(old(State()), i, n)
      ensures SameBytes(old(bytes[..]), bytes[..], State().LiveBlocks())
    {
      hide Live, SameBytes, Layout, UsedSum, Plug, PlugLfree, Cut;
      ghost var end, hs, bs, h0 := size + HDR, hdr[..], blocks, State();
      ShrunkKeeps(h0, i, n);
      Apart(bs, i, i, end);
      Aligned(bs, i, end);
      assert Matches(hs[bs[i].addr], bs, i, end);
      usedMem := usedMem - (hdr[mem].next - mem - HDR - n);
      SplitBlock(mem, mem + HDR + n, HEAP_MAGIC, i);
      ghost var b1, cut := bytes[..], Live(blocks, end);
      CutAt(bs, i, mem + HDR + n, i + 1, end);
      PlugHoles(mem + HDR + n, i + 1);
      CutLive(h0, i, n);
      SameBytesSubset(old(bytes[..]), b1, Live(blocks, end), cut);
      SameBytesTrans(old(bytes[..]), b1, bytes[..], Live(blocks, end));
    }

    /** The copying path of rt_realloc: allocate, copy, release. */
    method MoveTo(mem: nat, room: nat, n: nat, ghost i: nat, ghost request: nat) returns (r: Option<nat>)
      requires Valid() && i < |blocks| && blocks[i] == Block(mem, true) && i == Index(blocks, mem)
      requires request < WORD && n == AlignUp(request) <= size && size >= MIN_ALIGNED
      requires room == State().Room(i) && room != n && !(n + HDR + MIN_SIZE < room)
      modifies this, hdr, bytes
      ensures Valid()
      ensures Resized(old(State()), old(bytes[..]), mem, request, State(), bytes[..], r)
    {
      hide Live, SameBytes, Layout, UsedSum, Plug, PlugLfree, Cut, Copied, CopiedTo, Resized, Inv, SmallHeapSpec.Malloc;
      ghost var end, h0, b0 := size + HDR, State(), bytes[..];
      ghost var x := Extent(mem, mem + HDR + room);
      assert x in h0.LiveBlocks() by { LiveIsUsed(blocks, end, x); }
      assert AlignUp(n) == n;
      MallocKeeps(h0, n);
      var q := Malloc(n);
      if q == None {
        ResizedNot(h0, b0, mem, request, bytes[..]);
        return None;
      }
      ghost var e: nat :| State().LiveBlocks() == h0.LiveBlocks() + {Extent(q.value - HDR, e)}
                          && e - q.value >= Wanted(n)
                          && forall y :: y in h0.LiveBlocks() ==> y.end <= q.value - HDR || e <= y.start;
      ghost var h1 := State();
      CopyAndFree(mem, room, n, q.value, h0, b0, Extent(q.value - HDR, e));
      ResizedMoved(h0, b0, mem, request, bytes[..], h1, q.value - HDR);
      return Some(q.value - HDR);
    }

    /** The block at `mem` is copied to the new block `y`, whose data starts at `to`, and released. */
    method CopyAndFree(mem: nat, room: nat, n: nat, to: nat, ghost h0: SmallHeapSpec.Heap, ghost b0: seq<Byte>, ghost y: Extent)
      requires Valid() && size >= MIN_ALIGNED && h0.size == size
      requires Extent(mem, mem + HDR + room) in h0.LiveBlocks()
      requires State().LiveBlocks() == h0.LiveBlocks() + {y} && y.start + HDR == to && to + n <= y.end
      requires forall x :: x in h0.LiveBlocks() ==> x.end <= y.start || y.end <= x.start
      requires SameBytes(b0, bytes[..], h0.LiveBlocks())
      modifies this, hdr, bytes
      ensures Valid() && Legal(old(State()), OpFree(mem)) && State() == Perform(old(State()), OpFree(mem))
      ensures var x := Extent(mem, mem + HDR + room);
              SameBytes(b0, bytes[..], h0.LiveBlocks() - {x}) && Copied(b0, bytes[..], x, y.start, n)
    {
      hide Live, SameBytes, Layout, UsedSum, Plug, PlugLfree, Cut, Copied, CopiedTo, Inv;
      ghost var h1, b1, x := State(), bytes[..], Extent(mem, mem + HDR + room);
      LiveInside(h1, x);
      LiveInside(h1, y);
      var count := if room < n then room else n;
      MemCopy(to, mem + HDR, count);
      ghost var b2 := bytes[..];
      CopyOutside(b0, b1, b2, h0.LiveBlocks(), y.start, y.end, mem + HDR, count);
      ReleasedLive(h0, h1, x, y);
      LivePointerInRange(h1, x);
      Free(Some(mem + HDR));
      MovedBytes(b0, b1, b2, bytes[..], h0.LiveBlocks(), x, y, n, count);
    }
  }

  /** rt_realloc of the live block at `mem`: the new heap is the specified one; a result holds the first bytes of the
      old block, as many as both sizes have, and no other live block changes; without a result nothing changes. */
  ghost predicate Resized(h: SmallHeapSpec.Heap, b: seq<Byte>, mem: nat, request: nat,
                          h': SmallHeapSpec.Heap, b': seq<Byte>, r: Option<nat>)
  {
    && Legal(h, OpRealloc(mem, request))
    && h' == Perform(h, OpRealloc(mem, request))
    && var i := Index(h.blocks, mem);
       var x := Extent(mem, Next(h.blocks, i, h.End()));
       && r == SmallHeapSpec.Realloc(h, i, request).1
       && SameBytes(b, b', h.LiveBlocks() - (if r.Some? then {x} else {}))
       && (r.Some? ==> Copied(b, b', x, r.value, AlignUp(request)))
  }

  /** The first bytes of the block, as many as it and the new size have, are now at `p`. */
  ghost predicate Copied(a: seq<Byte>, b: seq<Byte>, x: Extent, p: nat, newsize: nat) {
    x.start + HDR <= x.end &&
    var room := x.end - x.start - HDR;
    var n := if room < newsize then room else newsize;
    |a| == |b| && x.end <= |a| && p + HDR + n <= |b|
    && b[p + HDR..p + HDR + n] == a[x.start + HDR..x.start + HDR + n]
  }

  /** `done` bytes at `src` of memory `m` are at `dst` in memory `c`; nothing else differs. */
  ghost predicate CopiedTo(m: seq<Byte>, c: seq<Byte>, dst: nat, src: nat, done: nat) {
    && |m| == |c| && dst + done <= |m| && src + done <= |m|
    && (forall k :: dst <= k < dst + done ==> c[k] == m[k - dst + src])
    && forall k :: 0 <= k < |m| && !(dst <= k < dst + done) ==> c[k] == m[k]
  }

  lemma ResizedNot(h: SmallHeapSpec.Heap, b: seq<Byte>, mem: nat, request: nat, b': seq<Byte>)
    requires Legal(h, OpRealloc(mem, request)) && SameBytes(b, b', h.LiveBlocks())
    requires SmallHeapSpec.Realloc(h, Index(h.blocks, mem), request) == (h, None)
    ensures Resized(h, b, mem, request, h, b', None)
  {
    assert h.LiveBlocks() - {} == h.LiveBlocks();
  }

  lemma ResizedMoved(h: SmallHeapSpec.Heap, b: seq<Byte>, mem: nat, request: nat, b': seq<Byte>,
                     h1: SmallHeapSpec.Heap, to: nat)
    requires Legal(h, OpRealloc(mem, request)) && AlignUp(request) <= h.size
    requires var room := h.Room(Index(h.blocks, mem));
             room != AlignUp(request) && !(AlignUp(request) + HDR + MIN_SIZE < room)
    requires SmallHeapSpec.Malloc(h, AlignUp(request)) == (h1, Some(to))
    requires Legal(h1, OpFree(mem))
    requires var x := Extent(mem, Next(h.blocks, Index(h.blocks, mem), h.End()));
             SameBytes(b, b', h.LiveBlocks() - {x}) && Copied(b, b', x, to, AlignUp(request))
    ensures Resized(h, b, mem, request, Perform(h1, OpFree(mem)), b', Some(to))
  {
    hide Live, UsedSum, Layout, SmallHeapSpec.Free, SmallHeapSpec.Malloc, SameBytes, Copied;
  }

  lemma ResizedSame(h: SmallHeapSpec.Heap, b: seq<Byte>, mem: nat, request: nat)
    requires Legal(h, OpRealloc(mem, request)) && AlignUp(request) <= h.size
    requires h.Room(Index(h.blocks, mem)) == AlignUp(request)
    requires h.End() <= |b| && Inv(h)
    ensures Resized(h, b, mem, request, h, b, Some(mem))
  {
    hide Live, UsedSum;
    var i := Index(h.blocks, mem);
    Apart(h.blocks, i, i, h.End());
  }

  lemma ResizedShrunk(h: SmallHeapSpec.Heap, a: seq<Byte>, mem: nat, request: nat, b: seq<Byte>)
    requires Inv(h) && Legal(h, OpRealloc(mem, request)) && AlignUp(request) <= h.size
    requires AlignUp(request) + HDR + MIN_SIZE < h.Room(Index(h.blocks, mem))
    requires SameBytes(a, b, Shrunk(h, Index(h.blocks, mem), AlignUp(request)).LiveBlocks()) && h.End() <= |a|
    ensures Resized(h, a, mem, request, Shrunk(h, Index(h.blocks, mem), AlignUp(request)), b, Some(mem))
  {
    hide Live, UsedSum, Shrunk, Layout, Inv;
    var i, n := Index(h.blocks, mem), AlignUp(request);
    var x, y := Extent(mem, Next(h.blocks, i, h.End())), Extent(mem, mem + HDR + n);
    ShrunkKeeps(h, i, n);
    assert x in h.LiveBlocks() by { LiveIsUsed(h.blocks, h.End(), x); }
    LiveInside(h, x);
    SameRange(a, b, Shrunk(h, i, n).LiveBlocks(), y, mem + HDR, n);
    SameBytesSubset(a, b, h.LiveBlocks() - {x}, Shrunk(h, i, n).LiveBlocks());
  }

  /** Before the holes are plugged, the live blocks after the cut are those the heap ends up with. */
  lemma CutLive(h: SmallHeapSpec.Heap, i: nat, n: nat)
    requires Inv(h) && i < |h.blocks| && h.blocks[i].used && n % 8 == 0 && n + HDR + MIN_SIZE < h.Room(i)
    ensures Live(Cut(h.blocks, i, h.blocks[i].addr + HDR + n), h.End()) == Shrunk(h, i, n).LiveBlocks()
  {
    hide Live, UsedSum, Layout, Shrunk;
    Aligned(h.blocks, i, h.End());
    ShrunkKeeps(h, i, n);
    CutKeeps(h.blocks, i, h.blocks[i].addr + HDR + n, h.End());
  }

  lemma LiveInside(h: SmallHeapSpec.Heap, x: Extent)
    requires Inv(h) && x in h.LiveBlocks()
    ensures x.start + HDR <= x.end <= h.End()
  {
    LiveDisjoint(h.blocks, h.End(), x, x);
  }

  /** Releasing block x after block y has been added to the live blocks. */
  lemma ReleasedLive(h0: SmallHeapSpec.Heap, h1: SmallHeapSpec.Heap, x: Extent, y: Extent)
    requires Inv(h1) && x in h0.LiveBlocks() && h1.LiveBlocks() == h0.LiveBlocks() + {y}
    requires x != y
    ensures Legal(h1, OpFree(x.start))
    ensures Perform(h1, OpFree(x.start)).LiveBlocks() == h0.LiveBlocks() - {x} + {y}
  {
    hide Live, UsedSum, Layout, SmallHeapSpec.Free;
    FindLive(h1.blocks, h1.End(), x);
    FreeKeeps(h1, Index(h1.blocks, x.start));
  }

  lemma CopyOutside(a: seq<Byte>, b: seq<Byte>, c: seq<Byte>, live: set<Extent>, to: nat, e: nat, src: nat, count: nat)
    requires SameBytes(a, b, live) && CopiedTo(b, c, to + HDR, src, count) && to + HDR + count <= e
    requires forall y :: y in live ==> y.end <= to || e <= y.start
    ensures SameBytes(a, c, live)
  {
    forall y, k | y in live && y.start + HDR <= k < y.end && k < |a|
      ensures a[k] == c[k]
    {
      assert a[k] == b[k];
    }
  }

  /** Copying into the new block and then releasing the old one. */
  lemma MovedBytes(a: seq<Byte>, b: seq<Byte>, c: seq<Byte>, d: seq<Byte>,
                   live: set<Extent>, x: Extent, y: Extent, n: nat, count: nat)
    requires SameBytes(a, b, live) && SameBytes(a, c, live) && SameBytes(c, d, live - {x} + {y}) && x in live
    requires x.start + HDR <= x.end <= |a| && y.start + HDR + n <= y.end <= |a| && |b| == |c|
    requires count == if x.end - x.start - HDR < n then x.end - x.start - HDR else n
    requires CopiedTo(b, c, y.start + HDR, x.start + HDR, count)
    ensures SameBytes(a, d, live - {x}) && Copied(a, d, x, y.start, n)
  {
    assert c[y.start + HDR..y.start + HDR + count] == b[x.start + HDR..x.start + HDR + count];
    SameRange(a, b, live, x, x.start + HDR, count);
    SameRange(c, d, live - {x} + {y}, y, y.start + HDR, count);
  }

  lemma SameRange(a: seq<Byte>, b: seq<Byte>, live: set<Extent>, x: Extent, from: nat, count: nat)
    requires SameBytes(a, b, live) && x in live && x.start + HDR <= from && from + count <= x.end <= |a|
    ensures a[from..from + count] == b[from..from + count]
  {
  }

  lemma SameBytesSubset(a: seq<Byte>, b: seq<Byte>, live: set<Extent>, more: set<Extent>)
    requires SameBytes(a, b, more) && live <= more
    ensures SameBytes(a, b, live)
  {
  }

  lemma SameBytesRefl(a: seq<Byte>, live: set<Extent>)
    ensures SameBytes(a, a, live)
  {
  }

  lemma SameBytesTrans(a: seq<Byte>, b: seq<Byte>, c: seq<Byte>, live: set<Extent>)
    requires SameBytes(a, b, live) && SameBytes(b, c, live)
    ensures SameBytes(a, c, live)
  {
  }
}
