/** Whole runs of the slab allocator. */
module SlabRuns {
  import opened Prelude
  import opened Lists
  import opened LinkedRuns
  import opened PageList
  import opened SlabSpec
  import opened SlabZones

  datatype Op = MallocOp(size: nat) | FreeOp(p: nat)

  ghost predicate Legal(s: Slab, op: Op) {
    match op
    case MallocOp(size) => size < 0x1_0000_0000
    case FreeOp(p) => Allocated(s, p)
  }

  function Perform(s: Slab, op: Op): Slab {
    match op
    case MallocOp(size) => Malloc(s, size).0
    case FreeOp(p) => Free(s, p)
  }

  ghost predicate Reaches(s: Slab, ops: seq<Op>, s': Slab)
    decreases |ops|
  {
    if ops == [] then s' == s else Legal(s, ops[0]) && Reaches(Perform(s, ops[0]), ops[1..], s')
  }

  /** rt_system_heap_init: all pages free but those of the memusage array. */
  function Initial(pages: nat, zonePages: nat): Slab {
    var all := Pages(pages, [Run(0, pages)], map[]);
    var table := (pages * 4 + PageSize - 1) / PageSize;
    Slab(Take(all, table).0, zonePages, seq(pages, _ => FreePage), map[], seq(ZoneClasses, _ => []), [], {}, {})
  }

  lemma InitialInv(pages: nat, zonePages: nat)
    requires pages > 0 && ZonePagesOk(zonePages)
    ensures Inv(Initial(pages, zonePages))
  {
    var all := Pages(pages, [Run(0, pages)], map[]);
    InitialPages(0, pages);
    assert PagesOk(all);
    var table := (pages * 4 + PageSize - 1) / PageSize;
    if Take(all, table).1.Some? {
      TakeKeeps(all, table);
    }
    hide PagesOk, Take;
  }

  lemma {:induction false} RunKeeps(s: Slab, ops: seq<Op>, s': Slab)
    requires Inv(s) && Reaches(s, ops, s')
    ensures Inv(s')
    decreases |ops|
  {
    if ops != [] {
      hide Inv, Malloc, Free, Allocated;
      match ops[0] {
        case MallocOp(size) => MallocKeeps(s, size);
        case FreeOp(p) => FreeKeeps(s, p);
      }
      RunKeeps(Perform(s, ops[0]), ops[1..], s');
    }
  }

  // ---------------------------------------------------------------- what callers see

  /** p is the address of an allocated block of n bytes, in the pages from a on. */
  ghost predicate Block(s: Slab, p: nat, n: nat, a: nat) {
    || (p in s.live && a in s.zones && Issued(a, s.zones[a], p) && s.zones[a].index < ZoneClasses
        && n == SizeOf(s.zones[a].index))
    || (a in s.large && a in s.ps.areas && p == a * PageSize && n == s.ps.areas[a] * PageSize)
  }

  lemma BlockInside(s: Slab, p: nat, n: nat, a: nat)
    requires Inv(s) && Block(s, p, n, a)
    ensures a in s.ps.areas && n > 0 && a * PageSize <= p && p + n <= (a + s.ps.areas[a]) * PageSize
    ensures a + s.ps.areas[a] <= s.ps.size && Taken(s.ps.free, a, s.ps.areas[a])
  {
    hide Issued, Max, ClassOk, Distinct;
    if p in s.live && a in s.zones && Issued(a, s.zones[a], p) && s.zones[a].index < ZoneClasses
       && n == SizeOf(s.zones[a].index) {
      ZoneFits(s, a);
      IssuedInside(s.zonePages, a, s.zones[a], p);
    }
    LargeHasPages(s, a);
  }

  /** Two blocks of one zone. */
  lemma SameZone(z: nat, zone: Zone, p: nat, q: nat)
    requires zone.index < ZoneClasses && Issued(z, zone, p) && Issued(z, zone, q) && p < q
    ensures p + SizeOf(zone.index) <= q
  {
    var i: nat :| i <= zone.uindex && p == Chunk(z, zone.index, i);
    var j: nat :| j <= zone.uindex && q == Chunk(z, zone.index, j);
    hide Chunk, SizeOf;
    if i < j {
      ChunksApart(z, zone.index, i, j);
    } else if j < i {
      ChunksApart(z, zone.index, j, i);
    }
  }

  /** Different allocated blocks are disjoint, inside the heap, and outside the free pages. */
  lemma BlocksApart(s: Slab, p: nat, n: nat, a: nat, q: nat, m: nat, b: nat)
    requires Inv(s) && Block(s, p, n, a) && Block(s, q, m, b) && p < q
    ensures p + n <= q && q + m <= s.ps.size * PageSize
    ensures forall page: nat :: p < (page + 1) * PageSize && page * PageSize < p + n ==> !IsFree(s.ps.free, page)
  {
    BlockInside(s, p, n, a);
    BlockInside(s, q, m, b);
    hide Issued, Max, ClassOk, Distinct, ZoneOk, IsFree;
    if a == b {
      BlocksOfArea(s, p, n, a, q, m);
    } else {
      AreasApart(s.ps, a, b);
    }
    Multiples(b + s.ps.areas[b], s.ps.size, PageSize);
    forall page: nat | p < (page + 1) * PageSize && page * PageSize < p + n
      ensures !IsFree(s.ps.free, page)
    {
      assert a <= page < a + s.ps.areas[a];
    }
  }

  lemma AreasApart(ps: Pages, a: nat, b: nat)
    requires PagesOk(ps) && a in ps.areas && b in ps.areas && a != b
    ensures (a + ps.areas[a]) * PageSize <= b * PageSize || (b + ps.areas[b]) * PageSize <= a * PageSize
  {
  }

  lemma BlocksOfArea(s: Slab, p: nat, n: nat, a: nat, q: nat, m: nat)
    requires Inv(s) && Block(s, p, n, a) && Block(s, q, m, a) && p < q
    ensures p + n <= q
  {
    hide Issued, Max, ClassOk, Distinct, ZoneOk, PagesOk;
    assert a in s.zones ==> a !in s.large;
    if a in s.zones {
      SameZone(a, s.zones[a], p, q);
    }
  }

  /** rt_malloc returns a block that was not allocated, as large as asked for, or nothing, changing nothing. */
  lemma MallocGives(s: Slab, size: nat)
    requires Inv(s) && size < 0x1_0000_0000
    ensures var (s', r) := Malloc(s, size);
            && (r.None? ==> s' == s)
            && (r.Some? ==> !Allocated(s, r.value) && Allocated(s', r.value)
                            && exists n, a :: n >= size && Block(s', r.value, n, a))
  {
    var (s', r) := Malloc(s, size);
    if size >= Limit(s.zonePages) || size >= 16384 {
      MallocLargeKeeps(s, size);
      if r.Some? {
        LargeGives(s, size);
      }
    } else if size > 0 {
      ZoneIndexIs(size);
      ClassOfRequest(s.zonePages, size);
      var index := ZoneIndex(size).1;
      if s.heads[index] != [] {
        MallocZoneKeeps(s, index);
        var z := s.heads[index][0];
        SmallGives(s, s', z, r.value, index, size);
      } else if ZoneSpace(s).1.Some? {
        ZoneSpaceKeeps(s);
        var z := ZoneSpace(s).1.value;
        hide Inv, Chunk, Max;
        NewZoneKeeps(ZoneSpace(s).0, z, index);
        SmallGives(s, s', z, r.value, index, size);
      }
    }
  }

  /** The pages of a large request: none for the sizes whose rounding wraps. */
  lemma LargePages(size: nat)
    requires size < 0x1_0000_0000
    ensures var n := (size + PageSize - 1) % 0x1_0000_0000 / PageSize;
            if size <= 0xFFFF_F000 then n == (size + PageSize - 1) / PageSize && n * PageSize >= size else n == 0
  {
  }

  lemma LargeGives(s: Slab, size: nat)
    requires Inv(s) && 0 < size < 0x1_0000_0000 && MallocLarge(s, size).1.Some?
    ensures var (s', r) := MallocLarge(s, size);
            !Allocated(s, r.value) && Allocated(s', r.value) && exists n, a :: n >= size && Block(s', r.value, n, a)
  {
    var (s', r) := MallocLarge(s, size);
    MallocLargeKeeps(s, size);
    LargePages(size);
    var a, pages := r.value / PageSize, (size + PageSize - 1) % 0x1_0000_0000 / PageSize;
    hide PagesOk, ZonesOk, ArrayOk, UsageOk;
    assert Block(s', r.value, pages * PageSize, a);
    FreshPages(s, pages);
    forall p | p in s.live
      ensures p != r.value
    {
      var z := FindsZone(s, p);
      FindsArea(s, z, p);
    }
  }

  /** A zone has no free chunk iff each of its chunks is live. */
  lemma NoFreeChunk(s: Slab, z: nat)
    requires Inv(s) && z in s.zones
    ensures s.zones[z].nfree <= 0 <==>
              forall i: nat :: i < Max(s.zonePages, s.zones[z].index) ==> Chunk(z, s.zones[z].index, i) in s.live
  {
    var zone := s.zones[z];
    ZoneFits(s, z);
    assert ZoneOk(s.zonePages, z, zone, s.live);
    if zone.nfree > 0 {
      forall p | p in s.live && In(s.zonePages, z, p)
        ensures Issued(z, zone, p)
      {
        LiveInZone(s, z, p);
      }
      hide Inv, Chunk, Max;
      ServedOk(s.zonePages, z, zone, s.live);
      var (zone', p) := Served(s.zonePages, z, zone);
      var i: nat :| i <= zone'.uindex && p == Chunk(z, zone'.index, i);
      assert i < Max(s.zonePages, zone.index) && Chunk(z, zone.index, i) !in s.live;
    } else {
      hide Inv, Chunk, Max, Distinct;
      forall i: nat | i < Max(s.zonePages, zone.index)
        ensures Chunk(z, zone.index, i) in s.live
      {
        assert i <= zone.uindex;
        assert Issued(z, zone, Chunk(z, zone.index, i));
      }
    }
  }

  /** No free run has n pages. */
  ghost predicate NoRun(s: Slab, n: nat) {
    forall i :: 0 <= i < |s.ps.free| ==> s.ps.free[i].count < n
  }

  lemma TakeFails(s: Slab, n: nat)
    ensures Take(s.ps, n).1.None? <==> n == 0 || NoRun(s, n)
  {
    hide Alloc;
    if n > 0 {
      AllocComplete(s.ps.free, n);
    }
  }

  /** The list of a class is empty iff every chunk of every zone of the class is live. */
  lemma NoZone(s: Slab, index: nat)
    requires Inv(s) && index < ZoneClasses && |s.heads| == ZoneClasses
    ensures s.heads[index] == [] <==>
              forall z, i: nat :: z in s.zones && s.zones[z].index == index && i < Max(s.zonePages, index) ==>
                Chunk(z, index, i) in s.live
  {
    assert ClassOk(s.heads[index], s.zones, index);
    forall z | z in s.zones
      ensures s.zones[z].nfree <= 0 <==>
                forall i: nat :: i < Max(s.zonePages, s.zones[z].index) ==> Chunk(z, s.zones[z].index, i) in s.live
    {
      NoFreeChunk(s, z);
    }
    hide Inv, Chunk, Max, Distinct;
    if s.heads[index] != [] {
      var z := s.heads[index][0];
      assert z in s.heads[index];
    }
  }

  /** rt_malloc returns nothing exactly for a size of zero; for a large request, when no free run has its pages, or when the
      number of pages wraps to zero; and for a small one, when every chunk of every zone of its class is live, no zone is
      parked, and no free run has room for a new zone. */
  lemma MallocComplete(s: Slab, size: nat)
    requires Inv(s) && size < 0x1_0000_0000
    ensures Malloc(s, size).1.None? <==>
              if size == 0 then true
              else if size >= Limit(s.zonePages) || size >= 16384 then
                size > 0xFFFF_F000 || NoRun(s, (size + PageSize - 1) / PageSize)
              else
                var index := ZoneIndex(size).1;
                && (forall z, i: nat :: z in s.zones && s.zones[z].index == index && i < Max(s.zonePages, index) ==>
                      Chunk(z, index, i) in s.live)
                && s.parked == [] && NoRun(s, s.zonePages)
  {
    if size >= Limit(s.zonePages) || size >= 16384 {
      LargePages(size);
      TakeFails(s, (size + PageSize - 1) % 0x1_0000_0000 / PageSize);
      hide Take, NoRun;
    } else if size > 0 {
      ZoneIndexIs(size);
      ClassOfRequest(s.zonePages, size);
      NoZone(s, ZoneIndex(size).1);
      TakeFails(s, s.zonePages);
      if s.heads[ZoneIndex(size).1] != [] {
        MallocZoneKeeps(s, ZoneIndex(size).1);
      }
      hide Take, NoRun, MallocZone, Chunk, Max, PagesOk, ZonesOk, ParkedOk, UsageOk, LiveOk;
    }
  }

  /** The page of a live chunk is in the area of a zone, whose first bytes are the zone header. */
  lemma FindsArea(s: Slab, z: nat, p: nat)
    requires Inv(s) && z in s.zones && Issued(z, s.zones[z], p)
    ensures z * PageSize < p && z in s.ps.areas && z <= p / PageSize < z + s.ps.areas[z]
  {
    ZoneFits(s, z);
    IssuedInside(s.zonePages, z, s.zones[z], p);
  }

  lemma SmallGives(s: Slab, s': Slab, z: nat, p: nat, index: nat, size: nat)
    requires Inv(s) && Inv(s') && p !in s.live && p in s'.live && z in s'.zones && s'.zones[z].index == index < ZoneClasses
    requires Issued(z, s'.zones[z], p) && SizeOf(index) >= size && s'.large == s.large && (z in s.zones || z !in s.large)
    ensures !Allocated(s, p) && Allocated(s', p) && exists n, a :: n >= size && Block(s', p, n, a)
  {
    assert Block(s', p, SizeOf(index), z);
    FindsArea(s', z, p);
    hide Issued, Max;
    LargeHasPages(s', z);
    forall a | a in s.large
      ensures a * PageSize != p
    {
      LargeHasPages(s', a);
      AreasApart(s'.ps, a, z);
    }
  }

  // ---------------------------------------------------------------- alignment

  lemma {:induction false} MultipleOf(size: nat, k: nat)
    requires size > 0
    ensures size * k % size == 0
    decreases k
  {
    if k > 0 {
      MultipleOf(size, k - 1);
      NextMultiple(size * (k - 1), size);
      assert size * k == size * (k - 1) + size;
    }
  }

  lemma NextMultiple(x: nat, size: nat)
    requires size > 0 && x % size == 0
    ensures (x + size) % size == 0
  {
    var q, r := (x + size) / size, (x + size) % size;
    var d := q - x / size;
    assert x == x / size * size && x + size == q * size + r;
    assert d * size == size - r;
  }

  /** Whether a chunk whose size is a power of two is aligned to it depends on where the heap, at h0, and the zone begin. */
  lemma AlignedAsZone(h0: nat, z: nat, index: nat, i: nat)
    requires index < ZoneClasses && PowerOfTwo(SizeOf(index))
    ensures (h0 + Chunk(z, index, i)) % SizeOf(index) == 0 <==> (h0 + z * PageSize) % SizeOf(index) == 0
  {
    var size, off := SizeOf(index), Offset(SizeOf(index));
    var k := OffsetMultiple(size);
    assert SizeIn(index) == size && Chunk(z, index, i) == z * PageSize + off + i * size;
    hide SizeOf, Offset, Chunk;
    Distribute(k, i, size);
    AddMultiple(h0 + z * PageSize, size, k + i);
  }

  lemma Distribute(a: nat, b: nat, c: nat)
    ensures a * c + b * c == (a + b) * c
  {
  }

  lemma OffsetMultiple(size: nat) returns (k: nat)
    requires size > 0 && PowerOfTwo(size)
    ensures Offset(size) == k * size
  {
    k := (ZoneHeader + size - 1) / size;
  }

  /** Chunks whose size is a power of two up to a page are aligned to it, on a heap that begins at a page. */
  lemma PowersAreAligned(h0: nat, z: nat, index: nat, i: nat)
    requires h0 % PageSize == 0 && index < ZoneClasses && PowerOfTwo(SizeOf(index)) && SizeOf(index) <= PageSize
    ensures (h0 + Chunk(z, index, i)) % SizeOf(index) == 0
  {
    AlignedAsZone(h0, z, index, i);
    hide SizeOf, Chunk;
    var q := h0 / PageSize;
    Distribute(q, z, PageSize);
    PagesAligned(q + z, SizeOf(index));
  }

  /** On a heap that begins at a page, all chunks of a class whose size is a power of two are aligned to it iff the size is at
      most a page. */
  lemma ClassAligned(h0: nat, index: nat)
    requires h0 % PageSize == 0 && index < ZoneClasses && PowerOfTwo(SizeOf(index))
    ensures (forall z: nat, i: nat :: (h0 + Chunk(z, index, i)) % SizeOf(index) == 0) <==> SizeOf(index) <= PageSize
  {
    if SizeOf(index) <= PageSize {
      forall z: nat, i: nat
        ensures (h0 + Chunk(z, index, i)) % SizeOf(index) == 0
      {
        PowersAreAligned(h0, z, index, i);
      }
    } else {
      var z := if h0 / PageSize % 2 == 0 then 1 else 0;
      AlignedAsZone(h0, z, index, 0);
      hide Chunk;
      OddPage(h0 + z * PageSize, SizeOf(index));
      assert (h0 + Chunk(z, index, 0)) % SizeOf(index) != 0;
    }
  }

  /** The address of an odd page is a multiple of no larger power of two. */
  lemma OddPage(a: nat, size: nat)
    requires a % PageSize == 0 && a / PageSize % 2 == 1 && (size == 8192 || size == 16384)
    ensures a % size != 0
  {
  }

  lemma PagesAligned(z: nat, size: nat)
    requires size > 0 && PowerOfTwo(size) && size <= PageSize
    ensures z * PageSize % size == 0
  {
    var per := PageSize / size;
    assert per * size == PageSize;
    hide PowerOfTwo;
    assert z * PageSize == size * (z * per) by { Reorder(z, per, size); }
    MultipleOf(size, z * per);
  }

  lemma Reorder(a: nat, b: nat, c: nat)
    ensures a * (b * c) == c * (a * b)
  {
  }

  lemma {:induction false} AddMultiple(x: nat, size: nat, k: nat)
    requires size > 0
    ensures (x + k * size) % size == 0 <==> x % size == 0
    decreases k
  {
    if k > 0 {
      AddMultiple(x, size, k - 1);
      assert k * size == (k - 1) * size + size;
      AddOne(x + (k - 1) * size, size);
    }
  }

  lemma AddOne(x: nat, size: nat)
    requires size > 0
    ensures (x + size) % size == 0 <==> x % size == 0
  {
    if x % size == 0 {
      NextMultiple(x, size);
    } else if (x + size) % size == 0 {
      var q := (x + size) / size;
      assert x + size == q * size;
      assert x == (q - 1) * size;
      MultipleOf(size, q - 1);
    }
  }

  /** All chunks are aligned to 8 bytes, on a heap that begins at a page. */
  lemma ChunksAreAligned(h0: nat, z: nat, index: nat, i: nat)
    requires h0 % PageSize == 0 && index < ZoneClasses
    ensures (h0 + Chunk(z, index, i)) % 8 == 0
  {
    ChunkOfEight(z, index, i);
    hide Chunk;
    assert h0 % 8 == 0;
  }

  lemma ChunkOfEight(z: nat, index: nat, i: nat)
    requires index < ZoneClasses
    ensures Chunk(z, index, i) % 8 == 0
  {
    var size, off := SizeOf(index), Offset(SizeOf(index));
    OffsetAligned(size);
    var m := size / 8;
    assert size == 8 * m && SizeIn(index) == size;
    EightTimes(i, m);
    hide SizeOf, Offset;
    assert Chunk(z, index, i) == 8 * (z * 512 + off / 8 + i * m);
  }

  lemma EightTimes(i: nat, m: nat)
    ensures i * (8 * m) == 8 * (i * m)
  {
  }

  lemma OffsetAligned(size: nat)
    ensures Offset(size) % 8 == 0
  {
  }

  /** The first block of 8191 bytes on a fresh heap of 64 pages, whose first page holds the memusage array, is a chunk of 8192
      bytes at offset 12288: it is aligned to its size iff the heap begins at an odd page. */
  lemma LargePowersAreNot(h0: nat)
    requires h0 % PageSize == 0
    ensures SizeOf(ZoneIndex(8191).1) == 8192 && Malloc(Initial(64, 8), 8191).1 == Some(12288)
    ensures (h0 + 12288) % 8192 == 0 <==> h0 % 8192 != 0
  {
    var all := Pages(64, [Run(0, 64)], map[]);
    assert Alloc(all.free, 1) == ([Run(1, 63)] + all.free[1..], Some(0));
    var s := Initial(64, 8);
    assert s.ps.free == [Run(1, 63)] && s.heads[ZoneIndex(8191).1] == [];
    assert Alloc(s.ps.free, 8).1 == Some(1);
    assert ZoneSpace(s).1 == Some(1);
  }
}
