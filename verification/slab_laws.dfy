/** What a call of the slab allocator does to the other blocks, how large the blocks are that it gives, and that no page is
    lost: what nobody has allocated is free, but for a spare zone of every class and two parked zones. */
module SlabLaws {
  import opened Prelude
  import opened Lists
  import opened LinkedRuns
  import opened PageList
  import opened SlabSpec
  import opened SlabZones
  import opened SlabRuns

  // ---------------------------------------------------------------- rt_malloc

  /** Where a block comes from: a zone in use, a new zone, or pages of its own. */
  datatype Path = FromZone(z: nat, index: nat) | FromNewZone(z: nat, index: nat) | FromPages(a: nat, n: nat)

  /** The block at p has been taken this way, and nothing else has changed. */
  ghost predicate Took(s: Slab, s': Slab, p: nat, path: Path) {
    match path
    case FromZone(z, index) =>
      && z in s.zones && z in s'.zones && s'.zones == s.zones[z := s'.zones[z]]
      && s.zones[z].index == s'.zones[z].index == index && s'.zones[z].uindex >= s.zones[z].uindex
      && s'.zones[z].nfree == s.zones[z].nfree - 1 && Issued(z, s'.zones[z], p)
      && s'.live == s.live + {p} && s'.large == s.large && s'.ps == s.ps && s'.parked == s.parked
    case FromNewZone(z, index) =>
      && z !in s.zones && z in s'.zones && s'.zones == s.zones[z := s'.zones[z]]
      && s'.zones[z].index == index && s'.zones[z].nfree == Max(s.zonePages, index) - 1 && Issued(z, s'.zones[z], p)
      && s'.live == s.live + {p} && s'.large == s.large
      && if s.parked != [] then s.parked == [z] + s'.parked && s'.ps == s.ps
         else s'.parked == [] && s'.ps.areas == s.ps.areas[z := s.zonePages] && z !in s.ps.areas
    case FromPages(a, n) =>
      && p == a * PageSize && a !in s.ps.areas && s'.ps.areas == s.ps.areas[a := n] && s'.large == s.large + {a}
      && s'.zones == s.zones && s'.live == s.live && s'.parked == s.parked
  }

  /** The smallest class with room for the size. */
  ghost predicate ClassFor(index: nat, size: nat) {
    index < ZoneClasses && SizeOf(index) >= size && forall i :: 0 <= i < ZoneClasses && SizeOf(i) >= size ==> index <= i
  }

  ghost predicate NoFreeChunkOf(s: Slab, index: nat) {
    forall z, i: nat :: z in s.zones && s.zones[z].index == index && i < Max(s.zonePages, index) ==> Chunk(z, index, i) in s.live
  }

  /** Large requests get the fewest pages with room; small ones a chunk of the smallest class with room, and a new zone
      only when no zone of the class has a free chunk. */
  ghost predicate RightPath(s: Slab, size: nat, path: Path) {
    if size >= Limit(s.zonePages) || size >= 16384 then path.FromPages? && size <= path.n * PageSize < size + PageSize
    else !path.FromPages? && ClassFor(path.index, size) && (path.FromNewZone? ==> NoFreeChunkOf(s, path.index))
  }

  lemma {:induction false} SizesOrdered(i: nat, j: nat)
    requires i < j < ZoneClasses
    ensures SizeOf(i) < SizeOf(j)
    decreases j
  {
    SizesGrow(j - 1);
    if i < j - 1 {
      SizesOrdered(i, j - 1);
    }
  }

  lemma ClassForRequest(size: nat)
    requires 0 < size < 16384
    ensures ClassFor(ZoneIndex(size).1, size)
  {
    ZoneIndexIs(size);
    var index := ZoneIndex(size).1;
    hide SizeOf;
    forall i | 0 <= i < ZoneClasses && SizeOf(i) >= size
      ensures index <= i
    {
      if i < index - 1 {
        SizesOrdered(i, index - 1);
      }
    }
  }

  lemma TookFromZone(s: Slab, index: nat)
    requires Inv(s) && index < ZoneClasses && |s.heads| == ZoneClasses && s.heads[index] != []
    ensures s.heads[index][0] in s.zones && MallocZone(s, index).1.Some?
    ensures Took(s, MallocZone(s, index).0, MallocZone(s, index).1.value, FromZone(s.heads[index][0], index))
  {
    hide ClassOk, Issued, Served, MallocZone, PagesOk, UsageOk, ParkedOk, ArrayOk, LiveOk, ZoneOk;
    FirstZone(s, index);
    var z := s.heads[index][0];
    ZoneFits(s, z);
    ServedOk(s.zonePages, z, s.zones[z], s.live);
    MallocZoneIs(s, index);
    ServedGrows(s.zonePages, z, s.zones[z]);
    MallocZoneKeeps(s, index);
  }

  lemma ServedGrows(zonePages: nat, z: nat, zone: Zone)
    requires zone.uindex + 1 == Max(zonePages, zone.index) ==> zone.chunks != []
    ensures Served(zonePages, z, zone).0.uindex >= zone.uindex
  {
  }

  lemma TookFromNewZone(s: Slab, index: nat)
    requires Inv(s) && ClassFits(s.zonePages, index) && ZoneSpace(s).1.Some?
    ensures index < |ZoneSpace(s).0.heads|
    ensures var z := ZoneSpace(s).1.value;
            Took(s, NewZone(ZoneSpace(s).0, z, index), Chunk(z, index, 0), FromNewZone(z, index))
  {
    ZoneSpaceKeeps(s);
    var z := ZoneSpace(s).1.value;
    if s.parked == [] {
      FreshPages(s, s.zonePages);
    }
    FirstIssued(z, Zone(index, Max(s.zonePages, index) - 1, 0, []));
    hide PagesOk, ZonesOk, UsageOk, LiveOk, ArrayOk, Max, Chunk, Issued, Take, Marked;
  }

  lemma FirstIssued(z: nat, zone: Zone)
    ensures Issued(z, zone, Chunk(z, zone.index, 0))
  {
    hide Chunk;
  }

  /** A block is taken in the right way, and nothing else changes. */
  lemma MallocTakes(s: Slab, size: nat)
    requires Inv(s) && size < 0x1_0000_0000 && Malloc(s, size).1.Some?
    ensures exists path :: Took(s, Malloc(s, size).0, Malloc(s, size).1.value, path) && RightPath(s, size, path)
  {
    var (s', r) := Malloc(s, size);
    if size >= Limit(s.zonePages) || size >= 16384 {
      LargeTakes(s, size);
    } else {
      ZoneIndexIs(size);
      ClassOfRequest(s.zonePages, size);
      SmallTakes(s, size);
      hide Inv, Took, RightPath, MallocZone, NewZone, ZoneSpace;
    }
  }

  /** The small requests, by the list of their class. */
  lemma SmallTakes(s: Slab, size: nat)
    requires Inv(s) && 0 < size < Limit(s.zonePages) && size < 16384 && ZoneIndex(size).1 < ZoneClasses && |s.heads| == ZoneClasses
    ensures var index := ZoneIndex(size).1;
            if s.heads[index] != [] then
              && s.heads[index][0] in s.zones && MallocZone(s, index).1.Some?
              && var path := FromZone(s.heads[index][0], index);
                 Took(s, MallocZone(s, index).0, MallocZone(s, index).1.value, path) && RightPath(s, size, path)
            else
              ZoneSpace(s).1.Some? ==>
                && index < |ZoneSpace(s).0.heads|
                && var z := ZoneSpace(s).1.value;
                   var path := FromNewZone(z, index);
                   Took(s, NewZone(ZoneSpace(s).0, z, index), Chunk(z, index, 0), path) && RightPath(s, size, path)
  {
    var index := ZoneIndex(size).1;
    ClassForRequest(size);
    ClassOfRequest(s.zonePages, size);
    NoZone(s, index);
    if s.heads[index] != [] {
      TookFromZone(s, index);
    } else if ZoneSpace(s).1.Some? {
      TookFromNewZone(s, index);
    }
    hide Took, Inv, Chunk, Max, MallocZone, ZoneSpace, ClassFor, ZoneIndex, NewZone;
  }

  lemma LargeTakes(s: Slab, size: nat)
    requires Inv(s) && 0 < size < 0x1_0000_0000 && MallocLarge(s, size).1.Some?
    requires size >= Limit(s.zonePages) || size >= 16384
    ensures exists path :: Took(s, MallocLarge(s, size).0, MallocLarge(s, size).1.value, path) && RightPath(s, size, path)
  {
    var (s', r) := MallocLarge(s, size);
    MallocLargeKeeps(s, size);
    LargePages(size);
    var n := (size + PageSize - 1) % 0x1_0000_0000 / PageSize;
    FreshPages(s, n);
    var path := FromPages(r.value / PageSize, n);
    hide Take, PagesOk, ZonesOk, UsageOk, LiveOk, ArrayOk;
    assert Took(s, s', r.value, path);
    assert RightPath(s, size, path);
  }

  // ---------------------------------------------------------------- the other blocks

  lemma TookKeepsBlocks(s: Slab, s': Slab, p: nat, path: Path, q: nat, n: nat, a: nat)
    requires Took(s, s', p, path) && Block(s, q, n, a) && (a in s.large ==> a in s.ps.areas)
    ensures Block(s', q, n, a)
  {
    hide Max, Chunk, SizeOf;
    if q in s.live && a in s.zones && Issued(a, s.zones[a], q) {
      var i: nat :| i <= s.zones[a].uindex && q == Chunk(a, s.zones[a].index, i);
      assert i <= s'.zones[a].uindex && q == Chunk(a, s'.zones[a].index, i);
    }
  }

  /** rt_malloc adds the block it returns to the allocated ones; every other block stays as it is, with its size. */
  lemma MallocOthers(s: Slab, size: nat, q: nat, n: nat, a: nat)
    requires Inv(s) && size < 0x1_0000_0000 && Malloc(s, size).1.Some?
    ensures var (s', r) := Malloc(s, size);
            && (Allocated(s', q) <==> Allocated(s, q) || q == r.value)
            && (Block(s, q, n, a) ==> Block(s', q, n, a))
  {
    MallocTakes(s, size);
    var (s', r) := Malloc(s, size);
    hide Inv, Malloc, RightPath;
    var path :| Took(s, s', r.value, path) && RightPath(s, size, path);
    if path.FromPages? {
      PageAddress(path.a, q);
    }
    if Block(s, q, n, a) {
      TookKeepsBlocks(s, s', r.value, path, q, n, a);
    }
    hide Issued, Max;
  }

  lemma PageAddress(a: nat, q: nat)
    ensures q % PageSize == 0 && q / PageSize == a <==> q == a * PageSize
  {
  }

  // ---------------------------------------------------------------- rt_free

  /** Chunk p of zone z has been freed, and nothing else has changed; the zone is kept, parked, or returned to the free
      pages. */
  datatype Fate = Kept | ToParked | ToPages

  ghost predicate Freed(s: Slab, s': Slab, z: nat, p: nat, fate: Fate) {
    && z in s.zones && s'.live == s.live - {p} && s'.large == s.large && s'.zonePages == s.zonePages
    && match fate
       case Kept =>
         && z in s'.zones && s'.zones == s.zones[z := s'.zones[z]] && s'.parked == s.parked && s'.ps == s.ps
         && s'.zones[z].index == s.zones[z].index && s'.zones[z].uindex == s.zones[z].uindex
         && s'.zones[z].nfree == s.zones[z].nfree + 1
       case ToParked => s'.zones == s.zones - {z} && s'.parked == [z] + s.parked && s'.ps == s.ps
       case ToPages =>
         && s'.zones == s.zones - {z} && s'.parked == s.parked && z in s.ps.areas
         && s'.ps == Give(s.ps, z)
  }

  /** Some other zone of the class of z has a free chunk. */
  ghost predicate OtherChunk(s: Slab, z: nat) {
    z in s.zones && exists y: nat :: y in s.zones && y != z && s.zones[y].index == s.zones[z].index && s.zones[y].nfree > 0
  }

  /** No chunk of zone z but p is live. */
  ghost predicate OnlyLive(s: Slab, z: nat, p: nat) {
    z in s.zones && forall q: nat :: q in s.live && Issued(z, s.zones[z], q) ==> q == p
  }

  /** A zone goes when its last live chunk is freed and another zone of its class has a free one; with two zones parked it
      goes back to the pages. */
  ghost predicate RightFate(s: Slab, z: nat, p: nat, fate: Fate) {
    if OnlyLive(s, z, p) && OtherChunk(s, z) then fate == (if |s.parked| == 2 then ToPages else ToParked)
    else fate == Kept
  }

  /** A zone has all its chunks free iff none is live. */
  lemma WhollyFree(zonePages: nat, z: nat, zone: Zone, live: set<nat>)
    requires ZoneOk(zonePages, z, zone, live)
    ensures zone.nfree == Max(zonePages, zone.index) <==> forall p: nat :: Issued(z, zone, p) ==> p !in live
  {
    AllFree(zonePages, z, zone, live);
    hide Chunk, SizeOf, Distinct, Max;
    if forall p: nat :: Issued(z, zone, p) ==> p !in live {
      CountChunks(z, zone, zone.chunks);
      forall i: nat | i <= zone.uindex
        ensures i in Indices(z, zone, zone.chunks)
      {
        assert Issued(z, zone, Chunk(z, zone.index, i));
      }
      Every(Indices(z, zone, zone.chunks), zone.uindex + 1);
    }
  }

  lemma {:induction false} Every(s: set<nat>, n: nat)
    requires forall i: nat :: i in s <==> i < n
    ensures |s| == n
    decreases n
  {
    if n > 0 {
      assert s == (s - {n - 1}) + {n - 1};
      Every(s - {n - 1}, n - 1);
    } else {
      assert s == {};
    }
  }

  lemma TwoOnList(list: seq<nat>, y: nat, z: nat)
    requires y in list && z in list && y != z
    ensures |list| >= 2
  {
  }

  lemma OthersOnList(s: Slab, z: nat, p: nat)
    requires Inv(s) && z in s.zones && p in s.live && Issued(z, s.zones[z], p)
    ensures s.zones[z].index < |s.heads|
    ensures |ChunkFreed(s, z, p).heads[s.zones[z].index]| >= 2 <==> OtherChunk(s, z)
  {
    ListOf(s, z);
    ChunkFreedKeeps(s, z, p);
    var s1, index := ChunkFreed(s, z, p), s.zones[z].index;
    ListOf(s1, z);
    AllFree(s.zonePages, z, s.zones[z], s.live) by { ZoneFits(s, z); }
    var list := s1.heads[index];
    hide Inv, Issued, Max;
    assert z in list;
    if |list| >= 2 {
      var y := if list[0] == z then list[1] else list[0];
      assert y in list && y != z;
    }
    if OtherChunk(s, z) {
      var y: nat :| y in s.zones && y != z && s.zones[y].index == index && s.zones[y].nfree > 0;
      assert y in list;
      TwoOnList(list, y, z);
    }
  }

  lemma LastChunk(s: Slab, z: nat, p: nat)
    requires Inv(s) && z in s.zones && p in s.live && Issued(z, s.zones[z], p)
    ensures ChunkFreed(s, z, p).zones[z].nfree == s.zones[z].nfree + 1
    ensures s.zones[z].nfree + 1 == Max(s.zonePages, s.zones[z].index) <==> OnlyLive(s, z, p)
  {
    FreedZone(s, z, p);
    var zone' := s.zones[z].(chunks := [p] + s.zones[z].chunks, nfree := s.zones[z].nfree + 1);
    WhollyFree(s.zonePages, z, zone', s.live - {p});
    IssuedSame(z, s.zones[z], zone');
    hide Inv, Issued, Max, ZoneOk;
  }

  /** Freeing a small block takes this block from the live ones, and decides about its zone; nothing else changes. */
  lemma FreeSmallFrees(s: Slab, z: nat, p: nat)
    requires Inv(s) && z in s.zones && p in s.live && Issued(z, s.zones[z], p)
    ensures s.zones[z].index < |s.heads|
    ensures exists fate :: Freed(s, FreeSmall(s, z, p), z, p, fate) && RightFate(s, z, p, fate)
  {
    LastChunk(s, z, p);
    OthersOnList(s, z, p);
    AreaOf(s, z);
    FreedKept(s, z, p);
    FreedParked(s, z, p);
    hide Inv, Issued, Max, OnlyLive, OtherChunk, Freed, Park, ChunkFreed;
    var fate := if OnlyLive(s, z, p) && OtherChunk(s, z) then (if |s.parked| == 2 then ToPages else ToParked) else Kept;
    assert RightFate(s, z, p, fate);
  }

  lemma FreedKept(s: Slab, z: nat, p: nat)
    requires z in s.zones && s.zones[z].index < |s.heads|
    ensures z in ChunkFreed(s, z, p).zones && ChunkFreed(s, z, p).zones[z].index == s.zones[z].index
    ensures Freed(s, ChunkFreed(s, z, p), z, p, Kept)
  {
  }

  lemma FreedParked(s: Slab, z: nat, p: nat)
    requires z in s.zones && s.zones[z].index < |s.heads| && z in s.ps.areas && |s.parked| <= 2
    ensures s.zones[z].index < |ChunkFreed(s, z, p).heads|
    ensures Freed(s, Park(ChunkFreed(s, z, p), z, s.zones[z].index), z, p, if |s.parked| == 2 then ToPages else ToParked)
  {
    var s1 := ChunkFreed(s, z, p);
    assert s1.zones - {z} == s.zones - {z};
    hide Give, Without, Marked;
  }

  lemma AreaOf(s: Slab, z: nat)
    requires Inv(s) && z in s.zones
    ensures z in s.ps.areas && s.ps.areas[z] == s.zonePages && |s.parked| <= 2
  {
  }

  /** rt_free of a chunk finds its zone. */
  lemma FreeOfChunk(s: Slab, p: nat) returns (z: nat)
    requires Inv(s) && p in s.live
    ensures z in s.zones && Issued(z, s.zones[z], p)
    ensures exists fate :: Freed(s, Free(s, p), z, p, fate) && RightFate(s, z, p, fate)
  {
    z := FindsZone(s, p);
    IndexOfZone(s, z);
    FreeIsSmall(s, z, p);
    hide Inv, Issued, FreeSmall, Freed, RightFate, Free;
    FreeSmallFrees(s, z, p);
  }

  lemma IndexOfZone(s: Slab, z: nat)
    requires Inv(s) && z in s.zones
    ensures s.zones[z].index < |s.heads|
  {
    ListOf(s, z);
  }

  lemma FreeIsSmall(s: Slab, z: nat, p: nat)
    requires z in s.zones && s.zones[z].index < |s.heads|
    requires z <= p / PageSize < |s.usage| && s.usage[p / PageSize] == Small(p / PageSize - z)
    ensures Free(s, p) == FreeSmall(s, z, p)
  {
    hide FreeSmall, FreeLarge;
  }

  lemma FreeOfLarge(s: Slab, p: nat)
    requires Inv(s) && p !in s.live && Allocated(s, p)
    ensures var a, s' := p / PageSize, Free(s, p);
            && p == a * PageSize && a in s.large && a in s.ps.areas && s'.ps == Give(s.ps, a) && s'.large == s.large - {a}
            && s'.zones == s.zones && s'.live == s.live && s'.parked == s.parked && s'.zonePages == s.zonePages
  {
    LargeUsage(s, p / PageSize);
    hide Inv, Give;
  }

  /** No address is that of a chunk and of a large block. */
  lemma LiveNotLarge(s: Slab, p: nat)
    requires Inv(s) && p in s.live
    ensures !(p % PageSize == 0 && p / PageSize in s.large)
  {
    var z := FindsZone(s, p);
    hide PagesOk, ZonesOk, ParkedOk, ArrayOk, LiveOk;
  }

  /** rt_free takes exactly the block at p from the allocated ones; every other block stays as it is, with its size. */
  lemma FreeOthers(s: Slab, p: nat, q: nat, n: nat, a: nat)
    requires Inv(s) && Allocated(s, p)
    ensures Allocated(Free(s, p), q) <==> Allocated(s, q) && q != p
    ensures Block(s, q, n, a) && q != p ==> Block(Free(s, p), q, n, a)
  {
    if p in s.live {
      FreeOtherChunks(s, p, q, n, a);
    } else {
      FreeOfLarge(s, p);
      PageAddress(p / PageSize, q);
      if q in s.live {
        LiveNotLarge(s, q);
      }
      hide Inv, Issued, Free;
    }
  }

  lemma FreeOtherChunks(s: Slab, p: nat, q: nat, n: nat, a: nat)
    requires Inv(s) && p in s.live
    ensures Allocated(Free(s, p), q) <==> Allocated(s, q) && q != p
    ensures Block(s, q, n, a) && q != p ==> Block(Free(s, p), q, n, a)
  {
    var z := FreeOfChunk(s, p);
    var s' := Free(s, p);
    LiveNotLarge(s, p);
    ZonesHaveAreas(s);
    hide Inv, Issued, Free, RightFate, Block, PageSize;
    var fate :| Freed(s, s', z, p, fate) && RightFate(s, z, p, fate);
    if Block(s, q, n, a) && q != p {
      OtherBlock(s, s', z, p, fate, q, n, a);
    }
    hide Give;
    assert s'.live == s.live - {p} && s'.large == s.large;
    hide Freed;
  }

  lemma OtherBlock(s: Slab, s': Slab, z: nat, p: nat, fate: Fate, q: nat, n: nat, a: nat)
    requires Freed(s, s', z, p, fate) && RightFate(s, z, p, fate) && z !in s.large && Block(s, q, n, a) && q != p
    ensures Block(s', q, n, a)
  {
    hide Max, OtherChunk, PageSize, SizeOf, Released;
    if q in s.live && a in s.zones && Issued(a, s.zones[a], q) && fate == Kept && a == z {
      IssuedSame(z, s.zones[z], s'.zones[z]);
    }
    hide Issued;
  }

  // ---------------------------------------------------------------- no page is lost

  /** Every area but the table of page usage is a zone, a parked zone or a large block. */
  ghost predicate Owned(s: Slab, table: nat) {
    && 0 in s.ps.areas && s.ps.areas[0] == table && 0 !in s.zones && 0 !in s.parked && 0 !in s.large
    && forall a :: a in s.ps.areas ==> a == 0 || a in s.zones || a in s.parked || a in s.large
  }

  ghost predicate Spare(s: Slab, z: nat) {
    z in s.zones && s.zones[z].nfree == Max(s.zonePages, s.zones[z].index)
  }

  /** No two zones of a class have all their chunks free. */
  ghost predicate OneSpare(s: Slab) {
    forall y, z :: Spare(s, y) && Spare(s, z) && s.zones[y].index == s.zones[z].index ==> y == z
  }

  lemma MaxPositive(s: Slab, z: nat)
    requires Inv(s) && z in s.zones
    ensures Max(s.zonePages, s.zones[z].index) > 0
  {
    ZoneFits(s, z);
    MaxIs(s.zonePages, s.zones[z].index);
  }

  lemma MallocOwned(s: Slab, size: nat, table: nat)
    requires Inv(s) && Owned(s, table) && size < 0x1_0000_0000
    ensures Owned(Malloc(s, size).0, table)
  {
    MallocGives(s, size);
    var (s', r) := Malloc(s, size);
    ZonesHaveAreas(s);
    if r.Some? {
      MallocTakes(s, size);
      hide Inv, Malloc, RightPath, Took, Owned, Allocated, Block;
      var path :| Took(s, s', r.value, path) && RightPath(s, size, path);
      TookOwned(s, s', r.value, path, table);
    }
  }

  lemma TookOwned(s: Slab, s': Slab, p: nat, path: Path, table: nat)
    requires Owned(s, table) && Took(s, s', p, path)
    requires forall z :: z in s.zones || z in s.parked || z in s.large ==> z in s.ps.areas
    ensures Owned(s', table)
  {
    hide Issued, Max;
    if path.FromNewZone? && s.parked != [] {
      assert path.z in s.parked;
    }
  }

  lemma ZonesHaveAreas(s: Slab)
    requires Inv(s)
    ensures forall z :: z in s.zones || z in s.parked || z in s.large ==> z in s.ps.areas
    ensures forall z :: z in s.zones ==> z !in s.parked && z !in s.large
    ensures forall z :: z in s.parked ==> z !in s.large
  {
  }

  lemma MallocSpare(s: Slab, size: nat)
    requires Inv(s) && OneSpare(s) && size < 0x1_0000_0000
    ensures OneSpare(Malloc(s, size).0)
  {
    MallocGives(s, size);
    MallocKeeps(s, size);
    var (s', r) := Malloc(s, size);
    if r.Some? {
      MallocTakes(s, size);
      hide Inv, Malloc, RightPath, Took, OneSpare, Allocated, Block;
      var path :| Took(s, s', r.value, path) && RightPath(s, size, path);
      NotFull(s, s', r.value, path);
      TookSpare(s, s', r.value, path);
    }
  }

  lemma TookSpare(s: Slab, s': Slab, p: nat, path: Path)
    requires OneSpare(s) && Took(s, s', p, path) && s'.zonePages == s.zonePages
    requires !path.FromPages? ==> !Spare(s', path.z)
    ensures OneSpare(s')
  {
    hide Issued, Max;
    forall y | Spare(s', y)
      ensures Spare(s, y) && s'.zones[y].index == s.zones[y].index
    {
      assert !path.FromPages? ==> y != path.z;
    }
  }

  /** The zone that a chunk was taken from is not wholly free. */
  lemma NotFull(s: Slab, s': Slab, p: nat, path: Path)
    requires Inv(s) && Took(s, s', p, path) && s'.zonePages == s.zonePages
    ensures !path.FromPages? ==> !Spare(s', path.z)
  {
    if path.FromZone? {
      ZoneFits(s, path.z);
      AllFree(s.zonePages, path.z, s.zones[path.z], s.live);
    }
    hide Issued, Max;
  }

  lemma FreeOwned(s: Slab, p: nat, table: nat)
    requires Inv(s) && Owned(s, table) && Allocated(s, p)
    ensures Owned(Free(s, p), table)
  {
    ZonesHaveAreas(s);
    var s' := Free(s, p);
    if p in s.live {
      var z := FreeOfChunk(s, p);
      hide Inv, Free, Issued, RightFate, Freed, Owned;
      var fate :| Freed(s, s', z, p, fate) && RightFate(s, z, p, fate);
      FreedOwned(s, s', z, p, fate, table);
    } else {
      FreeOfLarge(s, p);
      GivenAreas(s.ps, p / PageSize);
      hide Inv, Free, Give;
    }
  }

  lemma FreedOwned(s: Slab, s': Slab, z: nat, p: nat, fate: Fate, table: nat)
    requires Owned(s, table) && Freed(s, s', z, p, fate) && PagesOk(s.ps)
    ensures Owned(s', table)
  {
    if fate == ToPages {
      GivenAreas(s.ps, z);
    }
    hide Give, PagesOk;
  }

  lemma FreeSpare(s: Slab, p: nat)
    requires Inv(s) && OneSpare(s) && Allocated(s, p)
    ensures OneSpare(Free(s, p))
  {
    var s' := Free(s, p);
    if p in s.live {
      var z := FreeOfChunk(s, p);
      LastChunk(s, z, p);
      MaxPositive(s, z);
      hide Inv, Free, Freed, RightFate, OneSpare, ChunkFreed, Issued, Max;
      var fate :| Freed(s, s', z, p, fate) && RightFate(s, z, p, fate);
      FreedSpare(s, s', z, p, fate);
    } else {
      FreeOfLarge(s, p);
      hide Inv, Free, Max;
      assert forall y :: Spare(s', y) ==> Spare(s, y);
    }
  }

  lemma FreedSpare(s: Slab, s': Slab, z: nat, p: nat, fate: Fate)
    requires OneSpare(s) && Freed(s, s', z, p, fate) && RightFate(s, z, p, fate)
    requires s.zones[z].nfree + 1 == Max(s.zonePages, s.zones[z].index) <==> OnlyLive(s, z, p)
    requires Max(s.zonePages, s.zones[z].index) > 0
    ensures OneSpare(s')
  {
    hide Max, OnlyLive, Give;
    forall x | Spare(s', x) && x != z
      ensures Spare(s, x) && s'.zones[x].index == s.zones[x].index
      ensures s.zones[x].index == s.zones[z].index ==> OtherChunk(s, z)
    {
      assert x in s.zones;
    }
  }

  lemma InitialOwned(pages: nat, zonePages: nat)
    requires pages > 0
    ensures Owned(Initial(pages, zonePages), (pages * 4 + PageSize - 1) / PageSize) && OneSpare(Initial(pages, zonePages))
  {
  }

  lemma {:induction false} RunOwned(s: Slab, ops: seq<Op>, s': Slab, table: nat)
    requires Inv(s) && Owned(s, table) && OneSpare(s) && Reaches(s, ops, s')
    ensures Inv(s') && Owned(s', table) && OneSpare(s')
    decreases |ops|
  {
    if ops != [] {
      hide Inv, Owned, OneSpare, Malloc, Free, Allocated;
      match ops[0] {
        case MallocOp(size) => MallocKeeps(s, size); MallocOwned(s, size, table); MallocSpare(s, size);
        case FreeOp(p) => FreeKeeps(s, p); FreeOwned(s, p, table); FreeSpare(s, p);
      }
      RunOwned(Perform(s, ops[0]), ops[1..], s', table);
    }
  }

  /** Whatever the run: once nothing is allocated, at most one zone of every class and two parked zones are left, and every
      page outside these and the table of page usage is free. */
  lemma NothingAllocated(pages: nat, zonePages: nat, ops: seq<Op>, s: Slab)
    requires pages > 0 && ZonePagesOk(zonePages) && Reaches(Initial(pages, zonePages), ops, s)
    requires s.live == {} && s.large == {}
    ensures forall y, z :: y in s.zones && z in s.zones && s.zones[y].index == s.zones[z].index ==> y == z
    ensures |s.parked| <= 2
    ensures forall page: nat :: page < s.ps.size ==>
              || IsFree(s.ps.free, page)
              || page < (pages * 4 + PageSize - 1) / PageSize
              || exists z :: (z in s.zones || z in s.parked) && z <= page < z + s.zonePages
  {
    InitialInv(pages, zonePages);
    InitialOwned(pages, zonePages);
    RunOwned(Initial(pages, zonePages), ops, s, (pages * 4 + PageSize - 1) / PageSize);
    forall z | z in s.zones
      ensures Spare(s, z)
    {
      ZoneFits(s, z);
      WhollyFree(s.zonePages, z, s.zones[z], s.live);
    }
    hide Initial, ZoneOk, UsageOk, ArrayOk, LiveOk, IsFree, Max;
    forall page: nat | page < s.ps.size && !IsFree(s.ps.free, page) && page >= (pages * 4 + PageSize - 1) / PageSize
      ensures exists z :: (z in s.zones || z in s.parked) && z <= page < z + s.zonePages
    {
      var a :| InArea(s.ps, a, page);
      assert a != 0 && s.ps.areas[a] == s.zonePages;
    }
  }
}
