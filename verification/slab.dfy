/** rt_malloc and rt_free of slab.c in place: the zones, their lists, and the usage of the pages. */
module SlabAllocators {
  import opened Prelude
  import opened Lists
  import opened LinkedRuns
  import opened PageList
  import opened SlabSpec
  import SlabZones
  import opened SlabRuns
  import opened Pages

  /** What the first zone of a class with free chunks gives. */
  lemma FirstServed(s: Slab, index: nat)
    requires Inv(s) && index < ZoneClasses == |s.heads| && s.heads[index] != []
    ensures var z, list := s.heads[index][0], s.heads[index];
            && z in s.zones && s.zones[z].index == index
            && (s.zones[z].uindex + 1 == Max(s.zonePages, index) ==> s.zones[z].chunks != [])
    ensures var z, list := s.heads[index][0], s.heads[index];
            var (zone', p) := SlabZones.Served(s.zonePages, z, s.zones[z]);
            MallocZone(s, index) ==
              (SlabZones.WithZone(s, z, zone', if zone'.nfree == 0 then list[1..] else list, s.live + {p}), Some(p))
  {
    SlabZones.FirstZone(s, index);
    SlabZones.ServedOk(s.zonePages, s.heads[index][0], s.zones[s.heads[index][0]], s.live);
    SlabZones.MallocZoneIs(s, index);
    hide Inv, Chunk, Max, Issued, ZoneOk, ClassOk, MallocZone, SlabZones.Served;
  }

  class SlabAllocator {
    const zonePages: nat
    const pages: PageAllocator
    const usage: array<Usage>
    const heads: array<seq<nat>>
    var zones: map<nat, Zone>
    var parked: seq<nat>
    ghost var areas: map<nat, nat>
    ghost var live: set<nat>
    ghost var large: set<nat>

    ghost predicate Valid()
      reads this, pages, pages.next, pages.count
    {
      pages.Valid() && pages.next.Length == usage.Length
      && (usage as object) != pages.next && (usage as object) != pages.count && (usage as object) != heads
      && (heads as object) != pages.next && (heads as object) != pages.count
      && (pages.next as object) != pages.count
    }

    ghost function State(): Slab
      reads this, pages, usage, heads
    {
      Slab(PageList.Pages(usage.Length, pages.free, areas), zonePages, usage[..], zones, heads[..], parked, live, large)
    }

    /** rt_system_heap_init for a heap of n pages: the first pages are those of the memusage array. */
    constructor (n: nat, zonePages: nat)
      requires n > 0
      ensures Valid() && State() == Initial(n, zonePages)
      ensures fresh(pages) && fresh(pages.next) && fresh(pages.count) && fresh(usage) && fresh(heads)
    {
      this.zonePages := zonePages;
      pages := new PageAllocator(n);
      usage := new Usage[n](_ => FreePage);
      heads := new seq<nat>[ZoneClasses](_ => []);
      zones, parked, areas, live, large := map[], [], map[], {}, {};
      new;
      pages.Free(0, n);
      var table := pages.Alloc((n * 4 + PageSize - 1) / PageSize);
      if table.Some? {
        areas := areas[table.value := (n * 4 + PageSize - 1) / PageSize];
      }
      assert usage[..] == seq(n, _ => FreePage) && heads[..] == seq(ZoneClasses, _ => []);
    }

    /** The loop of rt_system_heap_init that chooses the size of a zone: 32 kilobytes, doubled while that stays below a
        1024th of the heap, and at most 128 kilobytes. */
    static method ZonePagesFor(heapSize: nat) returns (zonePages: nat)
      ensures ZonePagesOk(zonePages)
      ensures zonePages > 8 ==> zonePages * PageSize < heapSize / 1024
      ensures zonePages < 32 ==> 2 * zonePages * PageSize >= heapSize / 1024
    {
      var size := 32 * 1024;
      while size < 128 * 1024 && 2 * size < heapSize / 1024
        invariant size == 32 * 1024 || size == 64 * 1024 || size == 128 * 1024
        invariant size > 32 * 1024 ==> size < heapSize / 1024
        decreases 128 * 1024 - size
      {
        size := 2 * size;
      }
      return size / PageSize;
    }

    /** The loop that marks the pages of a zone. */
    method Mark(z: nat, small: bool)
      requires z + zonePages <= usage.Length
      modifies usage
      ensures usage[..] == Marked(old(usage[..]), z, zonePages, small)
    {
      var off := 0;
      while off < zonePages
        invariant off <= zonePages
        invariant forall p :: 0 <= p < usage.Length ==>
          usage[p] == if z <= p < z + off then (if small then Small(p - z) else FreePage) else old(usage[p])
      {
        usage[z + off] := if small then Small(off) else FreePage;
        off := off + 1;
      }
    }

    /** rt_malloc of a block of at least zone_limit bytes. */
    method MallocLargeBlock(size: nat) returns (p: Option<nat>)
      requires Valid() && Inv(State()) && size < 0x1_0000_0000
      modifies this, pages, pages.next, pages.count, usage
      ensures Valid() && (State(), p) == MallocLarge(old(State()), size)
    {
      hide Inv;
      var n := (size + PageSize - 1) % 0x1_0000_0000 / PageSize;
      if n > 0 {
        AllocComplete(pages.free, n);
      }
      if Take(State().ps, n).1.Some? {
        SlabZones.FreshPages(State(), n);
      }
      var a := pages.Alloc(n);
      if a == None {
        return None;
      }
      assert a.value < usage.Length;
      usage[a.value] := Large(n);
      areas := areas[a.value := n];
      large := large + {a.value};
      return Some(a.value * PageSize);
    }

    /** A chunk of the first zone of a class. */
    method MallocFromZone(index: nat) returns (p: Option<nat>)
      requires Valid() && Inv(State()) && index < ZoneClasses == heads.Length && heads[index] != []
      modifies `zones, `live, heads
      ensures index < |old(State()).heads| && old(State()).heads[index][0] in old(State()).zones
      ensures Valid() && (State(), p) == MallocZone(old(State()), index)
    {
      hide Inv, Chunk, Max, Issued, ZoneOk, ClassOk, MallocZone;
      ghost var s := State();
      FirstServed(s, index);
      var z := heads[index][0];
      var zone := zones[z];
      zone := zone.(nfree := zone.nfree - 1);
      if zone.nfree == 0 {
        heads[index] := heads[index][1..];
      }
      var chunk;
      if zone.uindex + 1 != Max(zonePages, index) {
        zone := zone.(uindex := zone.uindex + 1);
        chunk := Chunk(z, index, zone.uindex);
      } else {
        chunk := zone.chunks[0];
        zone := zone.(chunks := zone.chunks[1..]);
      }
      assert (zone, chunk) == SlabZones.Served(zonePages, z, s.zones[z]);
      zones := zones[z := zone];
      live := live + {chunk};
      assert heads[..] == s.heads[index := if zone.nfree == 0 then s.heads[index][1..] else s.heads[index]];
      p := Some(chunk);
    }

    /** The pages for a new zone. */
    method FindSpace() returns (z: Option<nat>)
      requires Valid() && Inv(State())
      modifies `parked, `areas, pages, pages.next, pages.count, usage
      ensures Valid() && (State(), z) == ZoneSpace(old(State()))
    {
      hide Inv, Marked;
      if parked != [] {
        z := Some(parked[0]);
        parked := parked[1..];
        return z;
      }
      AllocComplete(pages.free, zonePages) by { ZonePagesPositive(State()); }
      if Take(State().ps, zonePages).1.Some? {
        SlabZones.FreshPages(State(), zonePages);
      }
      ZonePagesPositive(State());
      z := pages.Alloc(zonePages);
      if z.Some? {
        Mark(z.value, true);
        areas := areas[z.value := zonePages];
      }
    }

    /** rt_malloc. */
    method Malloc(size: nat) returns (p: Option<nat>)
      requires Valid() && Inv(State()) && size < 0x1_0000_0000
      modifies this, pages, pages.next, pages.count, usage, heads
      ensures Valid() && (State(), p) == SlabSpec.Malloc(old(State()), size)
    {
      hide Inv, Chunk, Max, ZoneIndex, ZoneSpace, MallocZone, MallocLarge;
      if size == 0 {
        return None;
      }
      if size >= Limit(zonePages) || size >= 16384 {
        p := MallocLargeBlock(size);
        return p;
      }
      var index := ZoneIndex(size).1;
      ZoneIndexIs(size);
      HeadsOf(State());
      if heads[index] != [] {
        p := MallocFromZone(index);
        return p;
      }
      NoSpace(State());
      var z := FindSpace();
      if z == None {
        return None;
      }
      zones := zones[z.value := Zone(index, Max(zonePages, index) - 1, 0, [])];
      heads[index] := [z.value] + heads[index];
      live := live + {Chunk(z.value, index, 0)};
      return Some(Chunk(z.value, index, 0));
    }

    /** The loop that takes a zone off its list. */
    method Unlink(index: nat, z: nat)
      requires index < heads.Length && z in heads[index]
      modifies heads
      ensures heads[..] == old(heads[..])[index := Without(old(heads[index]), z)]
    {
      var list, k := heads[index], 0;
      while list[k] != z
        invariant k < |list| && forall i :: 0 <= i < k ==> list[i] != z
        decreases |list| - k
      {
        assert k == |list| - 1 ==> z !in list;
        k := k + 1;
      }
      WithoutFirst(list, z, k);
      heads[index] := list[..k] + list[k + 1..];
    }

    /** The zone is parked; of three parked zones one goes back to the page allocator. */
    method ParkZone(z: nat, index: nat)
      requires Valid() && Inv(State()) && z in zones && zones[z].index == index < heads.Length
      requires zones[z].nfree == Max(zonePages, index) > 0
      modifies `zones, `parked, `areas, heads, usage, pages, pages.next, pages.count
      ensures Valid() && State() == Park(old(State()), z, index)
    {
      hide Inv, Max, Marked, Released, Without;
      ZoneInList(State(), z);
      Unlink(index, z);
      zones := zones - {z};
      parked := [z] + parked;
      if |parked| > 2 {
        var first := parked[0];
        parked := parked[1..];
        Mark(first, false);
        pages.Free(first, zonePages);
        areas := areas - {first};
      }
    }

    /** rt_free. */
    method Free(p: nat)
      requires Valid() && Inv(State()) && SlabZones.Allocated(State(), p)
      modifies this, pages, pages.next, pages.count, usage, heads
      ensures Valid() && State() == SlabSpec.Free(old(State()), p)
    {
      hide Inv, Max, FreeSmall, FreeLarge;
      Dispatch(State(), p);
      var page := p / PageSize;
      match usage[page]
      case Large(n) =>
        FreeLargeBlock(page, n);
      case Small(k) =>
        FreeChunk(page - k, p);
    }

    method FreeLargeBlock(a: nat, n: nat)
      requires Valid() && Inv(State()) && a in large && a < usage.Length && usage[a] == Large(n)
      modifies `areas, `large, pages, pages.next, pages.count, usage
      ensures a in old(areas) && a < |old(State()).usage|
      ensures Valid() && State() == FreeLarge(old(State()), a)
    {
      LargeFacts(State(), a);
      hide Inv, Released;
      usage[a] := Large(0);
      pages.Free(a, n);
      areas := areas - {a};
      large := large - {a};
    }

    /** The chunk goes on the list of its zone. */
    method PutChunk(z: nat, p: nat)
      requires Valid() && z in zones && zones[z].index < heads.Length
      modifies `zones, `live, heads
      ensures z in old(zones) && old(zones)[z].index < |old(State()).heads|
      ensures Valid() && State() == ChunkFreed(old(State()), z, p)
    {
      var zone := zones[z];
      var index := zone.index;
      zones := zones[z := zone.(chunks := [p] + zone.chunks, nfree := zone.nfree + 1)];
      if zone.nfree == 0 {
        heads[index] := [z] + heads[index];
      }
      live := live - {p};
    }

    method FreeChunk(z: nat, p: nat)
      requires Valid() && Inv(State()) && z in zones && p in live && Issued(z, zones[z], p) && zones[z].index < heads.Length
      modifies `zones, `live, `parked, `areas, heads, usage, pages, pages.next, pages.count
      ensures z in old(zones) && old(zones)[z].index < |old(State()).heads|
      ensures Valid() && State() == FreeSmall(old(State()), z, p)
    {
      hide Inv, Issued, Max, Park, ChunkFreed;
      SlabZones.ChunkFreedKeeps(State(), z, p);
      FreedIs(State(), z, p);
      var index := zones[z].index;
      PutChunk(z, p);
      if zones[z].nfree == Max(zonePages, index) && |heads[index]| >= 2 {
        CapacityPositive(State(), z);
        ParkZone(z, index);
      }
    }
  }

  lemma FreedIs(s: Slab, z: nat, p: nat)
    requires z in s.zones && s.zones[z].index < |s.heads|
    ensures var s' := ChunkFreed(s, z, p);
            z in s'.zones && s'.zones[z].index == s.zones[z].index && |s'.heads| == |s.heads|
  {
  }

  lemma {:induction false} WithoutFirst(list: seq<nat>, z: nat, k: nat)
    requires k < |list| && list[k] == z && forall i :: 0 <= i < k ==> list[i] != z
    ensures Without(list, z) == list[..k] + list[k + 1..]
  {
    if k > 0 {
      assert forall i :: 0 <= i < k - 1 ==> list[1..][i] == list[i + 1];
      WithoutFirst(list[1..], z, k - 1);
      assert list[..k] + list[k + 1..] == [list[0]] + (list[1..][..k - 1] + list[1..][k..]);
    }
  }

  lemma NoSpace(s: Slab)
    ensures ZoneSpace(s).1.None? ==> ZoneSpace(s).0 == s
  {
  }

  lemma ZonePagesPositive(s: Slab)
    requires Inv(s)
    ensures s.zonePages > 0
  {
  }

  lemma HeadsOf(s: Slab)
    requires Inv(s)
    ensures |s.heads| == ZoneClasses
    ensures forall i :: 0 <= i < ZoneClasses && s.heads[i] != [] ==> s.heads[i][0] in s.zones
  {
    hide ZoneOk;
    forall i | 0 <= i < ZoneClasses && s.heads[i] != []
      ensures s.heads[i][0] in s.zones
    {
      assert ClassOk(s.heads[i], s.zones, i) && s.heads[i][0] in s.heads[i];
    }
  }

  lemma ZoneInList(s: Slab, z: nat)
    requires Inv(s) && z in s.zones && s.zones[z].nfree > 0
    ensures s.zones[z].index < |s.heads| && z in s.heads[s.zones[z].index]
    ensures z in s.ps.areas && s.ps.areas[z] == s.zonePages > 0 && z + s.zonePages <= s.ps.size
    ensures Taken(s.ps.free, z, s.zonePages) && |s.parked| <= 2
  {
    SlabZones.ListOf(s, z);
  }

  lemma LargeFacts(s: Slab, a: nat)
    requires Inv(s) && a in s.large && a < |s.usage|
    ensures a in s.ps.areas && s.usage[a] == Large(s.ps.areas[a]) && s.ps.areas[a] > 0
    ensures a + s.ps.areas[a] <= s.ps.size && Taken(s.ps.free, a, s.ps.areas[a])
  {
  }

  lemma CapacityPositive(s: Slab, z: nat)
    requires Inv(s) && z in s.zones
    ensures Max(s.zonePages, s.zones[z].index) > 0
  {
    SlabZones.ZoneFits(s, z);
    SlabZones.MaxIs(s.zonePages, s.zones[z].index);
  }

  /** Where an allocated address leads. */
  lemma Dispatch(s: Slab, p: nat)
    requires Inv(s) && SlabZones.Allocated(s, p)
    ensures p / PageSize < |s.usage| && !s.usage[p / PageSize].FreePage?
    ensures s.usage[p / PageSize].Large? ==> p / PageSize in s.large && p / PageSize in s.ps.areas
    ensures s.usage[p / PageSize].Small? ==>
      var k := s.usage[p / PageSize].offset;
      k <= p / PageSize && var z := p / PageSize - k;
      z in s.zones && p in s.live && Issued(z, s.zones[z], p) && s.zones[z].index < |s.heads|
  {
    if p in s.live {
      var z := SlabZones.FindsZone(s, p);
      SlabZones.ListOf(s, z);
    } else {
      SlabZones.LargeApart(s, p / PageSize);
      LargeFacts(s, p / PageSize);
    }
  }
}
