/** Every call of the slab allocator keeps its invariant. */
module SlabZones {
  import opened Prelude
  import opened Lists
  import opened LinkedRuns
  import opened PageList
  import opened SlabSpec

  // ---------------------------------------------------------------- addresses

  ghost predicate ClassFits(zonePages: nat, index: nat) {
    ZonePagesOk(zonePages) && index < ZoneClasses && SizeOf(index) <= Limit(zonePages)
  }

  lemma {:induction false} Multiples(a: nat, b: nat, size: nat)
    requires a <= b
    ensures a * size <= b * size && (a < b ==> a * size + size <= b * size)
    decreases b
  {
    if a < b {
      Multiples(a, b - 1, size);
      assert b * size == (b - 1) * size + size;
    }
  }

  /** A chunk is inside its zone, behind the header. */
  lemma ChunkInside(zonePages: nat, z: nat, index: nat, i: nat)
    requires ClassFits(zonePages, index) && i < Max(zonePages, index)
    ensures z * PageSize + ZoneHeader <= Chunk(z, index, i)
    ensures Chunk(z, index, i) + SizeOf(index) <= (z + zonePages) * PageSize
    ensures z <= Chunk(z, index, i) / PageSize < z + zonePages
  {
    var size := SizeOf(index);
    CapacityIs(zonePages, index);
    Multiples(i + 1, Max(zonePages, index), size);
    assert (i + 1) * size == i * size + size;
    hide SizeOf, Offset, Capacity, Limit;
  }

  /** Different chunks of a zone are apart. */
  lemma ChunksApart(z: nat, index: nat, i: nat, j: nat)
    requires index < ZoneClasses && i < j
    ensures Chunk(z, index, i) + SizeOf(index) <= Chunk(z, index, j)
  {
    Multiples(i, j, SizeOf(index));
    hide SizeOf, Offset;
  }

  /** The page of a chunk is one of its zone. */
  lemma IssuedInside(zonePages: nat, z: nat, zone: Zone, p: nat)
    requires ClassFits(zonePages, zone.index) && zone.uindex < Max(zonePages, zone.index) && Issued(z, zone, p)
    ensures z * PageSize < p && p + SizeOf(zone.index) <= (z + zonePages) * PageSize && z <= p / PageSize < z + zonePages
  {
    var i: nat :| i <= zone.uindex && p == Chunk(z, zone.index, i);
    hide Chunk;
    ChunkInside(zonePages, z, zone.index, i);
  }

  /** Whether p is in the pages of zone z. */
  ghost predicate In(zonePages: nat, z: nat, p: nat) { z <= p / PageSize < z + zonePages }

  // ---------------------------------------------------------------- one zone changes

  /** The areas of different zones do not overlap. */
  lemma ZonesApart(ps: Pages, zonePages: nat, y: nat, z: nat, p: nat)
    requires PagesOk(ps) && y in ps.areas && z in ps.areas && ps.areas[y] == zonePages && ps.areas[z] == zonePages
    requires In(zonePages, y, p) && In(zonePages, z, p)
    ensures y == z
  {
  }

  /** live changes only inside zone z. */
  ghost predicate SameLive(zonePages: nat, z: nat, live: set<nat>, live': set<nat>) {
    forall p: nat :: !In(zonePages, z, p) ==> (p in live' <==> p in live)
  }

  lemma OtherZone(zonePages: nat, ps: Pages, y: nat, zone: Zone, z: nat, live: set<nat>, live': set<nat>)
    requires PagesOk(ps) && ZonePagesOk(zonePages) && y in ps.areas && z in ps.areas && y != z
    requires ps.areas[y] == zonePages && ps.areas[z] == zonePages
    requires ZoneOk(zonePages, y, zone, live) && SameLive(zonePages, z, live, live')
    ensures ZoneOk(zonePages, y, zone, live')
  {
    hide PagesOk, Distinct, Issued, SizeOf, Limit, Capacity;
    forall p: nat | Issued(y, zone, p)
      ensures p in live' <==> p in live
    {
      IssuedInside(zonePages, y, zone, p);
      if In(zonePages, z, p) { ZonesApart(ps, zonePages, y, z, p); }
    }
  }

  /** The allocator after zone z has changed to zone', and the list of its class and the live addresses with it. */
  ghost function WithZone(s: Slab, z: nat, zone': Zone, list': seq<nat>, live': set<nat>): Slab
    requires zone'.index < |s.heads|
  {
    s.(zones := s.zones[z := zone'], heads := s.heads[zone'.index := list'], live := live')
  }

  lemma ZoneStepZones(s: Slab, z: nat, zone': Zone, list': seq<nat>, live': set<nat>)
    requires PagesOk(s.ps) && ZonePagesOk(s.zonePages) && ZonesOk(s) && z in s.zones && zone'.index < |s.heads|
    requires ZoneOk(s.zonePages, z, zone', live') && SameLive(s.zonePages, z, s.live, live')
    ensures ZonesOk(WithZone(s, z, zone', list', live'))
  {
    hide PagesOk, ZoneOk, SameLive, ZonePagesOk;
    forall y | y in s.zones && y != z
      ensures ZoneOk(s.zonePages, y, s.zones[y], live')
    {
      OtherZone(s.zonePages, s.ps, y, s.zones[y], z, s.live, live');
    }
  }

  lemma ZoneStepLive(s: Slab, z: nat, zone': Zone, list': seq<nat>, live': set<nat>)
    requires ZonePagesOk(s.zonePages) && ZonesOk(s) && LiveOk(s) && z in s.zones && zone'.index < |s.heads|
    requires SameLive(s.zonePages, z, s.live, live')
    requires forall p :: p in live' && In(s.zonePages, z, p) ==> Issued(z, zone', p)
    ensures LiveOk(WithZone(s, z, zone', list', live'))
  {
    hide Issued, ZonePagesOk;
    var s' := WithZone(s, z, zone', list', live');
    forall p | p in live'
      ensures exists y :: y in s'.zones && Issued(y, s'.zones[y], p)
    {
      if In(s.zonePages, z, p) {
        assert z in s'.zones && Issued(z, s'.zones[z], p);
      } else {
        assert p in s.live;
        var y :| y in s.zones && Issued(y, s.zones[y], p);
        FitsOf(s.zonePages, y, s.zones[y], s.live);
        IssuedInside(s.zonePages, y, s.zones[y], p);
        assert y in s'.zones && Issued(y, s'.zones[y], p);
      }
    }
  }

  lemma FitsOf(zonePages: nat, z: nat, zone: Zone, live: set<nat>)
    requires ZonePagesOk(zonePages) && ZoneOk(zonePages, z, zone, live)
    ensures ClassFits(zonePages, zone.index) && zone.uindex < Max(zonePages, zone.index)
  {
  }

  lemma ZoneStepArray(s: Slab, z: nat, zone': Zone, list': seq<nat>, live': set<nat>)
    requires ArrayOk(s) && z in s.zones && zone'.index == s.zones[z].index < |s.heads|
    requires ClassOk(list', s.zones[z := zone'], zone'.index)
    ensures ArrayOk(WithZone(s, z, zone', list', live'))
  {
    hide Distinct;
    var s' := WithZone(s, z, zone', list', live');
    forall i | 0 <= i < ZoneClasses
      ensures ClassOk(s'.heads[i], s'.zones, i)
    {
      assert ClassOk(s.heads[i], s.zones, i);
    }
  }

  lemma ZoneStep(s: Slab, z: nat, zone': Zone, list': seq<nat>, live': set<nat>)
    requires Inv(s) && z in s.zones && zone'.index == s.zones[z].index < |s.heads|
    requires ZoneOk(s.zonePages, z, zone', live') && SameLive(s.zonePages, z, s.live, live')
    requires ClassOk(list', s.zones[z := zone'], zone'.index)
    requires forall p :: p in live' && In(s.zonePages, z, p) ==> Issued(z, zone', p)
    ensures Inv(WithZone(s, z, zone', list', live'))
  {
    hide PagesOk, ZonesOk, ZoneOk, ArrayOk, ClassOk, LiveOk, Distinct, Issued, SameLive, In;
    ZoneStepZones(s, z, zone', list', live');
    ZoneStepLive(s, z, zone', list', live');
    ZoneStepArray(s, z, zone', list', live');
  }

  lemma ZoneFits(s: Slab, z: nat)
    requires Inv(s) && z in s.zones
    ensures z in s.ps.areas && s.ps.areas[z] == s.zonePages && ZoneOk(s.zonePages, z, s.zones[z], s.live)
    ensures ClassFits(s.zonePages, s.zones[z].index) && s.zones[z].uindex < Max(s.zonePages, s.zones[z].index)
  {
  }

  // ---------------------------------------------------------------- malloc from a zone

  /** The next chunk that was never used. */
  lemma NextChunk(zonePages: nat, z: nat, zone: Zone, live: set<nat>)
    requires ZonePagesOk(zonePages) && ZoneOk(zonePages, z, zone, live) && zone.uindex + 1 < Max(zonePages, zone.index)
    requires forall p :: p in live && In(zonePages, z, p) ==> Issued(z, zone, p)
    ensures var p, zone' := Chunk(z, zone.index, zone.uindex + 1), zone.(nfree := zone.nfree - 1, uindex := zone.uindex + 1);
            && p !in live && In(zonePages, z, p) && ZoneOk(zonePages, z, zone', live + {p})
            && (forall q :: q in live + {p} && In(zonePages, z, q) ==> Issued(z, zone', q))
  {
    var p, zone' := Chunk(z, zone.index, zone.uindex + 1), zone.(nfree := zone.nfree - 1, uindex := zone.uindex + 1);
    ChunkInside(zonePages, z, zone.index, zone.uindex + 1);
    hide Chunk, SizeOf, Limit, Capacity, Distinct;
    forall i: nat | i <= zone.uindex
      ensures Chunk(z, zone.index, i) != p
    {
      ChunksApart(z, zone.index, i, zone.uindex + 1);
    }
    assert !Issued(z, zone, p);
    forall q: nat
      ensures Issued(z, zone', q) <==> Issued(z, zone, q) || q == p
    {
      if Issued(z, zone, q) {
        var i: nat :| i <= zone.uindex && q == Chunk(z, zone.index, i);
        assert i <= zone'.uindex;
      }
    }
  }

  /** The first chunk on the list of free chunks. */
  lemma ListedChunk(zonePages: nat, z: nat, zone: Zone, live: set<nat>)
    requires ZoneOk(zonePages, z, zone, live) && zone.chunks != []
    requires forall p :: p in live && In(zonePages, z, p) ==> Issued(z, zone, p)
    ensures var p, zone' := zone.chunks[0], zone.(nfree := zone.nfree - 1, chunks := zone.chunks[1..]);
            && p !in live && Issued(z, zone, p) && ZoneOk(zonePages, z, zone', live + {p})
            && (forall q :: q in live + {p} && In(zonePages, z, q) ==> Issued(z, zone', q))
  {
    hide Chunk, SizeOf, Limit, Capacity, Distinct;
    var zone' := zone.(nfree := zone.nfree - 1, chunks := zone.chunks[1..]);
    DistinctTail(zone.chunks);
    assert zone.chunks[0] in zone.chunks;
    assert forall q: nat :: Issued(z, zone', q) <==> Issued(z, zone, q);
    hide Issued;
  }

  /** The live addresses inside a zone were issued by it. */
  lemma LiveInZone(s: Slab, z: nat, p: nat)
    requires Inv(s) && z in s.zones && p in s.live && In(s.zonePages, z, p)
    ensures Issued(z, s.zones[z], p)
  {
    hide PagesOk, ZoneOk, Issued, Max;
    var y :| y in s.zones && Issued(y, s.zones[y], p);
    ZoneFits(s, y);
    IssuedInside(s.zonePages, y, s.zones[y], p);
    ZonesApart(s.ps, s.zonePages, y, z, p);
  }

  /** The list of a class after one of its zones has changed. */
  lemma ZoneTaken(list: seq<nat>, zones: map<nat, Zone>, i: nat, zone': Zone)
    requires ClassOk(list, zones, i) && list != [] && zone'.index == i && zone'.nfree == zones[list[0]].nfree - 1
    ensures ClassOk(if zone'.nfree == 0 then list[1..] else list, zones[list[0] := zone'], i)
  {
    hide Distinct;
    DistinctTail(list);
  }

  /** What MallocZone does to the zone, and the chunk it returns. */
  ghost function Served(zonePages: nat, z: nat, zone: Zone): (Zone, nat)
    requires zone.uindex + 1 == Max(zonePages, zone.index) ==> zone.chunks != []
  {
    if zone.uindex + 1 != Max(zonePages, zone.index) then
      (zone.(nfree := zone.nfree - 1, uindex := zone.uindex + 1), Chunk(z, zone.index, zone.uindex + 1))
    else (zone.(nfree := zone.nfree - 1, chunks := zone.chunks[1..]), zone.chunks[0])
  }

  lemma ServedOk(zonePages: nat, z: nat, zone: Zone, live: set<nat>)
    requires ZonePagesOk(zonePages) && ZoneOk(zonePages, z, zone, live) && zone.nfree > 0
    requires forall p :: p in live && In(zonePages, z, p) ==> Issued(z, zone, p)
    ensures zone.uindex + 1 == Max(zonePages, zone.index) ==> zone.chunks != []
    ensures var (zone', p) := Served(zonePages, z, zone);
            && zone'.index == zone.index && zone'.nfree == zone.nfree - 1
            && p !in live && In(zonePages, z, p) && Issued(z, zone', p) && ZoneOk(zonePages, z, zone', live + {p})
            && (forall q :: q in live + {p} && In(zonePages, z, q) ==> Issued(z, zone', q))
  {
    hide Chunk, SizeOf, Limit, Capacity, Distinct;
    if zone.uindex + 1 != Max(zonePages, zone.index) {
      NextChunk(zonePages, z, zone, live);
    } else {
      ListedChunk(zonePages, z, zone, live);
      IssuedInside(zonePages, z, zone, zone.chunks[0]);
      IssuedSame(z, zone, Served(zonePages, z, zone).0);
    }
  }

  /** The first zone of a list, its state and its live addresses. */
  lemma FirstZone(s: Slab, index: nat)
    requires Inv(s) && index < ZoneClasses && |s.heads| == ZoneClasses && s.heads[index] != []
    ensures ClassOk(s.heads[index], s.zones, index)
    ensures var z := s.heads[index][0];
            && z in s.zones && s.zones[z].index == index && s.zones[z].nfree > 0
            && (forall p :: p in s.live && In(s.zonePages, z, p) ==> Issued(z, s.zones[z], p))
  {
    assert ClassOk(s.heads[index], s.zones, index);
    var z := s.heads[index][0];
    assert z in s.heads[index];
    forall p | p in s.live && In(s.zonePages, z, p)
      ensures Issued(z, s.zones[z], p)
    {
      LiveInZone(s, z, p);
    }
  }

  lemma MallocZoneIs(s: Slab, index: nat)
    requires index < |s.heads| && s.heads[index] != [] && s.heads[index][0] in s.zones
    requires var zone := s.zones[s.heads[index][0]];
             zone.index == index && (zone.uindex + 1 == Max(s.zonePages, index) ==> zone.chunks != [])
    ensures var z, list := s.heads[index][0], s.heads[index];
            var (zone', p) := Served(s.zonePages, z, s.zones[z]);
            MallocZone(s, index) == (WithZone(s, z, zone', if zone'.nfree == 0 then list[1..] else list, s.live + {p}), Some(p))
  {
    hide Chunk, Max;
    assert s.heads[index := s.heads[index]] == s.heads;
  }

  /** A chunk from the first zone of a class was not live, and belongs to a zone of that class. */
  lemma MallocZoneKeeps(s: Slab, index: nat)
    requires Inv(s) && index < ZoneClasses && |s.heads| == ZoneClasses && s.heads[index] != []
    ensures s.heads[index][0] in s.zones
    ensures var (s', r) := MallocZone(s, index);
            && Inv(s') && r.Some? && r.value !in s.live && s'.live == s.live + {r.value}
            && s'.large == s.large && s'.ps == s.ps && s'.zonePages == s.zonePages
    ensures var (s', r) := MallocZone(s, index);
            var z := s.heads[index][0];
            z in s'.zones && s'.zones[z].index == index && Issued(z, s'.zones[z], r.value)
  {
    hide ClassOk, Issued, Served, MallocZone, PagesOk, UsageOk, ParkedOk, ArrayOk, LiveOk, ZoneOk;
    FirstZone(s, index);
    var z, list := s.heads[index][0], s.heads[index];
    ZoneFits(s, z);
    ServedOk(s.zonePages, z, s.zones[z], s.live);
    MallocZoneIs(s, index);
    var (zone', p) := Served(s.zonePages, z, s.zones[z]);
    ZoneTaken(list, s.zones, index, zone');
    hide Inv;
    ZoneStep(s, z, zone', if zone'.nfree == 0 then list[1..] else list, s.live + {p});
  }

  lemma IssuedSame(z: nat, zone: Zone, zone': Zone)
    requires zone'.uindex == zone.uindex && zone'.index == zone.index
    ensures forall p: nat :: Issued(z, zone', p) <==> Issued(z, zone, p)
  {
  }

  // ---------------------------------------------------------------- new zones

  /** The pages of z are for a zone, but not yet of one. */
  ghost predicate Reserved(s: Slab, z: nat) {
    && z in s.ps.areas && s.ps.areas[z] == s.zonePages && z !in s.zones && z !in s.parked && z !in s.large
    && (forall k: nat :: k < s.zonePages && z + k < |s.usage| ==> s.usage[z + k] == Small(k))
  }

  /** Fresh pages are in no other area. */
  lemma FreshPages(s: Slab, n: nat)
    requires Inv(s) && Take(s.ps, n).1.Some?
    ensures var (ps', r) := Take(s.ps, n);
            && PagesOk(ps') && ps'.size == s.ps.size && r.value !in s.ps.areas && ps'.areas == s.ps.areas[r.value := n]
            && n > 0 && r.value + n <= s.ps.size
            && (forall b :: b in s.ps.areas ==> b + s.ps.areas[b] <= r.value || r.value + n <= b)
  {
    TakeKeeps(s.ps, n);
    assert Take(s.ps, n).1.value in Take(s.ps, n).0.areas;
    hide Alloc;
  }

  lemma ZoneSpaceFresh(s: Slab)
    requires Inv(s) && s.parked == [] && ZoneSpace(s).1.Some?
    ensures Inv(ZoneSpace(s).0) && Reserved(ZoneSpace(s).0, ZoneSpace(s).1.value)
  {
    FreshPages(s, s.zonePages);
    FreshZonesKeep(s);
    hide PagesOk, ZoneOk, ClassOk, Distinct, Take, Issued;
  }

  lemma FreshZonesKeep(s: Slab)
    requires Inv(s) && s.parked == [] && ZoneSpace(s).1.Some?
    ensures UsageOk(ZoneSpace(s).0)
  {
    hide PagesOk, ZoneOk, ClassOk, Distinct, Take, Issued;
    FreshPages(s, s.zonePages);
    FreshLarge(s);
    var s', z := ZoneSpace(s).0, ZoneSpace(s).1.value;
    forall y, k: nat | y in s.zones && k < s.zonePages && y + k < |s.usage|
      ensures s'.usage[y + k] == Small(k)
    {
      assert s.usage[y + k] == Small(k);
    }
  }

  lemma FreshLarge(s: Slab)
    requires Inv(s) && s.parked == [] && ZoneSpace(s).1.Some?
    ensures forall a :: a in s.large ==> a < |s.usage| && ZoneSpace(s).0.usage[a] == s.usage[a]
  {
    hide PagesOk, ZoneOk, ClassOk, Distinct, Take, Issued;
    FreshPages(s, s.zonePages);
    forall a | a in s.large
      ensures ZoneSpace(s).0.usage[a] == s.usage[a]
    {
      LargeHasPages(s, a);
    }
  }

  lemma LargeHasPages(s: Slab, a: nat)
    requires Inv(s) && a in s.ps.areas
    ensures s.ps.areas[a] > 0 && a + s.ps.areas[a] <= s.ps.size
  {
  }

  lemma ZoneSpaceKeeps(s: Slab)
    requires Inv(s) && ZoneSpace(s).1.Some?
    ensures Inv(ZoneSpace(s).0) && Reserved(ZoneSpace(s).0, ZoneSpace(s).1.value)
    ensures var s' := ZoneSpace(s).0;
            s'.zones == s.zones && s'.heads == s.heads && s'.live == s.live && s'.large == s.large && s'.zonePages == s.zonePages
  {
    if s.parked == [] {
      ZoneSpaceFresh(s);
    } else {
      DistinctTail(s.parked);
      hide PagesOk, ZoneOk, ClassOk, Distinct, Issued;
    }
  }

  lemma FirstChunk(zonePages: nat, z: nat, index: nat, live: set<nat>)
    requires ClassFits(zonePages, index) && forall p :: p in live ==> !In(zonePages, z, p)
    ensures var zone, p := Zone(index, Max(zonePages, index) - 1, 0, []), Chunk(z, index, 0);
            && Max(zonePages, index) >= 2 && In(zonePages, z, p) && Issued(z, zone, p)
            && ZoneOk(zonePages, z, zone, live + {p})
  {
    CapacityIs(zonePages, index);
    ChunkInside(zonePages, z, index, 0);
    var zone, p := Zone(index, Max(zonePages, index) - 1, 0, []), Chunk(z, index, 0);
    hide Chunk, Max, SizeOf, Limit;
    assert 0 <= zone.uindex && p == Chunk(z, zone.index, 0);
    assert forall q: nat :: Issued(z, zone, q) <==> q == p;
  }

  /** No live address lies in the pages of an area that is not a zone's. */
  lemma NothingLive(s: Slab, z: nat)
    requires Inv(s) && z in s.ps.areas && s.ps.areas[z] == s.zonePages && z !in s.zones
    ensures forall p :: p in s.live ==> !In(s.zonePages, z, p)
  {
    hide PagesOk, ZoneOk, Issued, ClassOk, Max;
    forall p | p in s.live
      ensures !In(s.zonePages, z, p)
    {
      var y :| y in s.zones && Issued(y, s.zones[y], p);
      ZoneFits(s, y);
      IssuedInside(s.zonePages, y, s.zones[y], p);
      if In(s.zonePages, z, p) { ZonesApart(s.ps, s.zonePages, y, z, p); }
    }
  }

  lemma NewZoneLive(s: Slab, z: nat, index: nat)
    requires Inv(s) && Reserved(s, z) && ClassFits(s.zonePages, index) && |s.heads| == ZoneClasses
    ensures LiveOk(NewZone(s, z, index))
  {
    NothingLive(s, z);
    FirstChunk(s.zonePages, z, index, s.live);
    var s', p := NewZone(s, z, index), Chunk(z, index, 0);
    hide PagesOk, ZoneOk, Issued, ClassOk, Max, Chunk, Distinct, UsageOk, ZonesOk, ArrayOk;
    forall q | q in s'.live
      ensures exists y :: y in s'.zones && Issued(y, s'.zones[y], q)
    {
      if q == p {
        assert z in s'.zones && Issued(z, s'.zones[z], q);
      } else {
        var y :| y in s.zones && Issued(y, s.zones[y], q);
        assert y in s'.zones && Issued(y, s'.zones[y], q);
      }
    }
  }

  lemma NewZoneOthers(s: Slab, z: nat, index: nat)
    requires Inv(s) && Reserved(s, z) && ClassFits(s.zonePages, index) && |s.heads| == ZoneClasses
    ensures ZonesOk(NewZone(s, z, index))
  {
    hide PagesOk, ZoneOk, Issued, ClassOk, Max, Chunk, Distinct, UsageOk, LiveOk, ArrayOk, ParkedOk, In;
    NothingLive(s, z);
    FirstChunk(s.zonePages, z, index, s.live);
    var s' := NewZone(s, z, index);
    assert SameLive(s.zonePages, z, s.live, s'.live);
    hide SameLive, ClassFits;
    forall y | y in s.zones
      ensures ZoneOk(s.zonePages, y, s.zones[y], s'.live)
    {
      OtherZone(s.zonePages, s.ps, y, s.zones[y], z, s.live, s'.live);
    }
  }

  lemma NewZoneArray(s: Slab, z: nat, index: nat)
    requires Inv(s) && z !in s.zones && ClassFits(s.zonePages, index) && |s.heads| == ZoneClasses
    ensures ArrayOk(NewZone(s, z, index))
  {
    CapacityIs(s.zonePages, index);
    var s' := NewZone(s, z, index);
    hide PagesOk, ZonesOk, LiveOk, Max, Chunk, Distinct;
    assert Max(s.zonePages, index) >= 2 by { MaxIs(s.zonePages, index); }
    forall i | 0 <= i < ZoneClasses
      ensures ClassOk(s'.heads[i], s'.zones, i)
    {
      assert ClassOk(s.heads[i], s.zones, i);
      if i == index {
        DistinctTail([z] + s.heads[i]);
        assert ([z] + s.heads[i])[1..] == s.heads[i];
      }
    }
  }

  lemma MaxIs(zonePages: nat, index: nat)
    requires ClassFits(zonePages, index)
    ensures Max(zonePages, index) >= 2
  {
    CapacityIs(zonePages, index);
  }

  lemma NewZoneKeeps(s: Slab, z: nat, index: nat)
    requires Inv(s) && Reserved(s, z) && ClassFits(s.zonePages, index) && |s.heads| == ZoneClasses
    ensures Inv(NewZone(s, z, index)) && Chunk(z, index, 0) !in s.live
    ensures Issued(z, NewZone(s, z, index).zones[z], Chunk(z, index, 0))
  {
    hide PagesOk, ZonesOk, ArrayOk, LiveOk, Distinct, Chunk, Max, Issued, ZoneOk;
    NewZoneOthers(s, z, index);
    NewZoneLive(s, z, index);
    NewZoneArray(s, z, index);
    NothingLive(s, z);
    FirstChunk(s.zonePages, z, index, s.live);
  }

  // ---------------------------------------------------------------- freeing a chunk

  lemma {:induction false} Cardinality(s: set<nat>, n: nat)
    requires forall i :: i in s ==> i < n
    ensures |s| <= n && (|s| == n ==> forall i: nat :: i < n ==> i in s)
    decreases n
  {
    if n > 0 {
      var rest := s - {n - 1};
      Cardinality(rest, n - 1);
      if n - 1 in s {
        assert s == rest + {n - 1};
      } else {
        assert s == rest;
      }
    } else {
      assert s == {};
    }
  }

  /** The indices of these chunks. */
  ghost function Indices(z: nat, zone: Zone, chunks: seq<nat>): set<nat> {
    set i: nat | i <= zone.uindex && Chunk(z, zone.index, i) in chunks
  }

  lemma {:induction false} CountChunks(z: nat, zone: Zone, chunks: seq<nat>)
    requires zone.index < ZoneClasses && Distinct(chunks) && forall p: nat :: p in chunks ==> Issued(z, zone, p)
    ensures |Indices(z, zone, chunks)| == |chunks|
    decreases |chunks|
  {
    hide Chunk, SizeOf, Distinct;
    if chunks == [] {
      assert Indices(z, zone, chunks) == {};
    } else {
      DistinctTail(chunks);
      var rest := chunks[1..];
      CountChunks(z, zone, rest);
      assert Issued(z, zone, chunks[0]);
      var i: nat :| i <= zone.uindex && chunks[0] == Chunk(z, zone.index, i);
      forall j: nat | j <= zone.uindex && j != i
        ensures Chunk(z, zone.index, j) != chunks[0]
      {
        ChunksApart(z, zone.index, if i < j then i else j, if i < j then j else i);
      }
      assert Indices(z, zone, chunks) == Indices(z, zone, rest) + {i};
    }
  }

  /** A zone whose chunks are all free has nothing live, and no zone has more free chunks than chunks. */
  lemma AllFree(zonePages: nat, z: nat, zone: Zone, live: set<nat>)
    requires ZoneOk(zonePages, z, zone, live)
    ensures 0 <= zone.nfree <= Max(zonePages, zone.index)
    ensures zone.nfree == Max(zonePages, zone.index) ==> forall p: nat :: Issued(z, zone, p) ==> p !in live
  {
    hide Chunk, SizeOf, Distinct, Max;
    CountChunks(z, zone, zone.chunks);
    Cardinality(Indices(z, zone, zone.chunks), zone.uindex + 1);
    if zone.nfree == Max(zonePages, zone.index) {
      forall p: nat | Issued(z, zone, p)
        ensures p !in live
      {
        var i: nat :| i <= zone.uindex && p == Chunk(z, zone.index, i);
        assert i in Indices(z, zone, zone.chunks);
      }
    }
  }

  lemma Freeing(zonePages: nat, z: nat, zone: Zone, live: set<nat>, p: nat)
    requires ZoneOk(zonePages, z, zone, live) && p in live && Issued(z, zone, p)
    requires forall q :: q in live && In(zonePages, z, q) ==> Issued(z, zone, q)
    ensures var zone' := zone.(chunks := [p] + zone.chunks, nfree := zone.nfree + 1);
            && ZoneOk(zonePages, z, zone', live - {p})
            && (forall q :: q in live - {p} && In(zonePages, z, q) ==> Issued(z, zone', q))
  {
    var zone' := zone.(chunks := [p] + zone.chunks, nfree := zone.nfree + 1);
    IssuedSame(z, zone, zone');
    hide Chunk, SizeOf, Distinct, Max, Issued, Limit;
    DistinctTail([p] + zone.chunks);
    assert ([p] + zone.chunks)[1..] == zone.chunks;
  }

  lemma ZoneFreed(list: seq<nat>, zones: map<nat, Zone>, z: nat, zone': Zone)
    requires z in zones && ClassOk(list, zones, zones[z].index) && zone'.index == zones[z].index
    requires zone'.nfree == zones[z].nfree + 1 && zones[z].nfree >= 0
    ensures ClassOk(if zones[z].nfree == 0 then [z] + list else list, zones[z := zone'], zone'.index)
  {
    hide Distinct;
    DistinctTail([z] + list);
    assert ([z] + list)[1..] == list;
  }

  lemma ChunkFreedKeeps(s: Slab, z: nat, p: nat)
    requires Inv(s) && z in s.zones && p in s.live && Issued(z, s.zones[z], p)
    ensures s.zones[z].index < |s.heads| && Inv(ChunkFreed(s, z, p))
  {
    hide Inv, ZoneOk, ClassOk, Issued, Max, SameLive, In;
    ListOf(s, z);
    FreedZone(s, z, p);
    FreedList(s, z, p);
    var zone := s.zones[z];
    var list := s.heads[zone.index];
    assert s.heads[zone.index := list] == s.heads;
    ZoneStep(s, z, zone.(chunks := [p] + zone.chunks, nfree := zone.nfree + 1),
             if zone.nfree == 0 then [z] + list else list, s.live - {p});
  }

  lemma FreedZone(s: Slab, z: nat, p: nat)
    requires Inv(s) && z in s.zones && p in s.live && Issued(z, s.zones[z], p)
    ensures var zone' := s.zones[z].(chunks := [p] + s.zones[z].chunks, nfree := s.zones[z].nfree + 1);
            && ZoneOk(s.zonePages, z, zone', s.live - {p}) && SameLive(s.zonePages, z, s.live, s.live - {p})
            && (forall q :: q in s.live - {p} && In(s.zonePages, z, q) ==> Issued(z, zone', q))
  {
    hide Inv, ZoneOk, Issued, Max;
    ZoneFits(s, z);
    forall q | q in s.live && In(s.zonePages, z, q)
      ensures Issued(z, s.zones[z], q)
    {
      LiveInZone(s, z, q);
    }
    IssuedInside(s.zonePages, z, s.zones[z], p);
    Freeing(s.zonePages, z, s.zones[z], s.live, p);
  }

  lemma FreedList(s: Slab, z: nat, p: nat)
    requires Inv(s) && z in s.zones
    ensures var zone := s.zones[z];
            && zone.index < |s.heads|
            && ClassOk(if zone.nfree == 0 then [z] + s.heads[zone.index] else s.heads[zone.index],
                       s.zones[z := zone.(chunks := [p] + zone.chunks, nfree := zone.nfree + 1)], zone.index)
  {
    ListOf(s, z);
    ZoneFits(s, z);
    hide Inv, ClassOk;
    AllFree(s.zonePages, z, s.zones[z], s.live);
    hide ZoneOk;
    ZoneFreed(s.heads[s.zones[z].index], s.zones, z,
              s.zones[z].(chunks := [p] + s.zones[z].chunks, nfree := s.zones[z].nfree + 1));
  }

  lemma ListOf(s: Slab, z: nat)
    requires Inv(s) && z in s.zones
    ensures s.zones[z].index < |s.heads| && ClassOk(s.heads[s.zones[z].index], s.zones, s.zones[z].index)
  {
    ZoneFits(s, z);
  }

  // ---------------------------------------------------------------- parking

  /** The zone without chunks in use leaves its list. */
  ghost function Parked(s: Slab, z: nat, index: nat): Slab
    requires index < |s.heads|
  {
    s.(heads := s.heads[index := Without(s.heads[index], z)], zones := s.zones - {z}, parked := [z] + s.parked)
  }

  lemma ParkedLists(s: Slab, z: nat, index: nat)
    requires Inv(s) && z in s.zones && s.zones[z].index == index < |s.heads| && s.zones[z].nfree > 0
    ensures ArrayOk(Parked(s, z, index))
  {
    var s' := Parked(s, z, index);
    hide PagesOk, ZonesOk, LiveOk, Distinct, Without;
    assert ClassOk(s.heads[index], s.zones, index);
    WithoutKeepsOthers<nat>(s.heads[index], z);
    forall i | 0 <= i < ZoneClasses
      ensures ClassOk(s'.heads[i], s'.zones, i)
    {
      assert ClassOk(s.heads[i], s.zones, i);
    }
  }

  lemma ParkedLive(s: Slab, z: nat, index: nat)
    requires Inv(s) && z in s.zones && s.zones[z].index == index < |s.heads|
    requires s.zones[z].nfree == Max(s.zonePages, index)
    ensures LiveOk(Parked(s, z, index))
  {
    var s' := Parked(s, z, index);
    ZoneFits(s, z);
    AllFree(s.zonePages, z, s.zones[z], s.live);
    hide PagesOk, ZoneOk, Issued, Distinct, Max, ClassOk;
    forall p | p in s.live
      ensures exists y :: y in s'.zones && Issued(y, s'.zones[y], p)
    {
      var y :| y in s.zones && Issued(y, s.zones[y], p);
      assert y != z && y in s'.zones && Issued(y, s'.zones[y], p);
    }
  }

  /** Everything but the limit on the parked zones. */
  ghost predicate InvBut(s: Slab) {
    && PagesOk(s.ps) && ZonePagesOk(s.zonePages) && ZonesOk(s) && UsageOk(s) && ArrayOk(s) && LiveOk(s)
    && Distinct(s.parked)
    && forall z :: z in s.parked ==> z in s.ps.areas && s.ps.areas[z] == s.zonePages && z !in s.zones && z !in s.large
  }

  lemma ParkedKeeps(s: Slab, z: nat, index: nat)
    requires Inv(s) && z in s.zones && s.zones[z].index == index < |s.heads|
    requires s.zones[z].nfree == Max(s.zonePages, index) > 0
    ensures InvBut(Parked(s, z, index))
  {
    ParkedLists(s, z, index);
    ParkedLive(s, z, index);
    hide PagesOk, ZoneOk, LiveOk, ArrayOk, Distinct, Max;
    DistinctTail([z] + s.parked);
    assert ([z] + s.parked)[1..] == s.parked;
  }

  /** Giving back the pages of the zone parked last. */
  lemma GivenKeeps(s: Slab, z: nat)
    requires InvBut(s) && s.parked != [] && s.parked[0] == z && |s.parked| == 3
    ensures Inv(s.(parked := s.parked[1..], usage := Marked(s.usage, z, s.zonePages, false), ps := Give(s.ps, z)))
  {
    var s' := s.(parked := s.parked[1..], usage := Marked(s.usage, z, s.zonePages, false), ps := Give(s.ps, z));
    DistinctTail(s.parked);
    GiveKeeps(s.ps, z);
    GivenUsage(s, z);
    hide PagesOk, ZoneOk, ClassOk, Issued, Distinct, Released;
  }

  /** Clearing the marks of zone z leaves those of the other zones. */
  lemma ClearedMarks(usage: seq<Usage>, z: nat, n: nat, y: nat, k: nat)
    requires k < n && y + k < |usage| && (y + n <= z || z + n <= y)
    ensures Marked(usage, z, n, false)[y + k] == usage[y + k]
  {
  }

  lemma GivenUsage(s: Slab, z: nat)
    requires InvBut(s) && s.parked != [] && s.parked[0] == z
    ensures UsageOk(s.(parked := s.parked[1..], usage := Marked(s.usage, z, s.zonePages, false), ps := Give(s.ps, z)))
  {
    hide PagesOk, ZonesOk, ArrayOk, LiveOk, Distinct, Give;
    DistinctTail(s.parked);
    GivenAreas(s.ps, z);
    OtherAreas(s, z);
    var s' := s.(parked := s.parked[1..], usage := Marked(s.usage, z, s.zonePages, false), ps := Give(s.ps, z));
    assert forall a :: a in s.large ==> a < |s.usage| && s'.usage[a] == s.usage[a];
    hide Marked;
    forall y, k: nat | (y in s'.zones || y in s'.parked) && k < s.zonePages && y + k < |s.usage|
      ensures s'.usage[y + k] == Small(k)
    {
      assert y in s.zones || y in s.parked;
      assert s.usage[y + k] == Small(k);
      ClearedMarks(s.usage, z, s.zonePages, y, k);
    }
  }

  lemma OtherAreas(s: Slab, z: nat)
    requires InvBut(s) && z in s.parked
    ensures forall y :: (y in s.zones || y in s.parked) && y != z ==> y + s.zonePages <= z || z + s.zonePages <= y
    ensures forall a :: a in s.large ==> a != z && (a < z || z + s.zonePages <= a)
  {
    hide ZoneOk, ClassOk, Issued, Distinct;
    forall a | a in s.large
      ensures a != z && (a < z || z + s.zonePages <= a)
    {
      AreaHasPages(s.ps, a);
    }
  }

  lemma AreaHasPages(ps: Pages, a: nat)
    requires PagesOk(ps) && a in ps.areas
    ensures ps.areas[a] > 0
  {
  }

  lemma ParkKeeps(s: Slab, z: nat, index: nat)
    requires Inv(s) && z in s.zones && s.zones[z].index == index < |s.heads|
    requires s.zones[z].nfree == Max(s.zonePages, index) > 0
    ensures Inv(Park(s, z, index))
  {
    ParkedKeeps(s, z, index);
    var s1 := Parked(s, z, index);
    if |s1.parked| > 2 {
      GivenKeeps(s1, z);
      assert s1.parked[1..] == s.parked;
    }
    hide PagesOk, ZonesOk, LiveOk, ArrayOk, Distinct, Max, Without, UsageOk, Marked, Give;
  }

  lemma FreeSmallKeeps(s: Slab, z: nat, p: nat)
    requires Inv(s) && z in s.zones && p in s.live && Issued(z, s.zones[z], p)
    ensures s.zones[z].index < |s.heads| && Inv(FreeSmall(s, z, p))
  {
    ChunkFreedKeeps(s, z, p);
    var s1, index := ChunkFreed(s, z, p), s.zones[z].index;
    ZoneFits(s, z);
    MaxIs(s.zonePages, index);
    hide Inv, Max;
    if s1.zones[z].nfree == Max(s.zonePages, index) && |s1.heads[index]| >= 2 {
      ParkKeeps(s1, z, index);
    }
  }

  // ---------------------------------------------------------------- large blocks

  lemma MallocLargeKeeps(s: Slab, size: nat)
    requires Inv(s)
    ensures var (s', r) := MallocLarge(s, size);
            && Inv(s') && s'.live == s.live && s'.zonePages == s.zonePages && (r.None? ==> s' == s)
            && (r.Some? ==> r.value % PageSize == 0 && r.value / PageSize !in s.ps.areas
                            && s'.large == s.large + {r.value / PageSize}
                            && s'.ps.areas == s.ps.areas[r.value / PageSize :=
                                 (size + PageSize - 1) % 0x1_0000_0000 / PageSize])
  {
    var n := (size + PageSize - 1) % 0x1_0000_0000 / PageSize;
    if Take(s.ps, n).1.Some? {
      var a := Take(s.ps, n).1.value;
      FreshPages(s, n);
      NewLarge(s, n);
      MultipleOfPage(a);
    }
  }

  lemma MultipleOfPage(a: nat)
    ensures a * PageSize / PageSize == a && a * PageSize % PageSize == 0
  {
  }

  lemma NewLarge(s: Slab, n: nat)
    requires Inv(s) && Take(s.ps, n).1.Some?
    ensures var a := Take(s.ps, n).1.value;
            a < |s.usage| && Inv(s.(ps := Take(s.ps, n).0, usage := s.usage[a := Large(n)], large := s.large + {a}))
  {
    hide PagesOk, ZoneOk, ClassOk, Distinct, Take, Issued;
    FreshPages(s, n);
    PageOfNoZone(s, Take(s.ps, n).1.value, Large(n));
  }

  /** The usage of a page that no zone has. */
  lemma PageOfNoZone(s: Slab, a: nat, u: Usage)
    requires UsageOk(s) && a < |s.usage|
    requires forall y :: y in s.zones || y in s.parked ==> a < y || y + s.zonePages <= a
    ensures forall y, k: nat :: (y in s.zones || y in s.parked) && k < s.zonePages && y + k < |s.usage| ==>
              s.usage[a := u][y + k] == Small(k)
  {
  }

  lemma LargeApart(s: Slab, a: nat)
    requires Inv(s) && a in s.large
    ensures a in s.ps.areas && a < |s.usage|
    ensures forall y :: y in s.zones || y in s.parked ==> y != a && (a < y || y + s.zonePages <= a)
  {
    hide ZoneOk, ClassOk, Distinct, Issued;
    LargeHasPages(s, a);
  }

  lemma FreeLargeUsage(s: Slab, a: nat)
    requires Inv(s) && a in s.large
    ensures a in s.ps.areas && a < |s.usage| && UsageOk(FreeLarge(s, a))
  {
    LargeApart(s, a);
    GivenAreas(s.ps, a);
    PageOfNoZone(s, a, Large(0));
    hide PagesOk, ZonesOk, ArrayOk, ParkedOk, LiveOk, Give;
  }

  lemma FreeLargeKeeps(s: Slab, a: nat)
    requires Inv(s) && a in s.large
    ensures a in s.ps.areas && a < |s.usage| && Inv(FreeLarge(s, a))
  {
    LargeApart(s, a);
    GiveKeeps(s.ps, a);
    GivenAreas(s.ps, a);
    FreeLargeUsage(s, a);
    hide PagesOk, ZoneOk, ClassOk, Distinct, Give, Issued, UsageOk;
  }

  lemma GivenAreas(ps: Pages, a: nat)
    requires a in ps.areas
    ensures Give(ps, a).areas == ps.areas - {a} && Give(ps, a).size == ps.size
  {
  }

  // ---------------------------------------------------------------- finding the block

  /** memusage leads from every live chunk back to its own zone. */
  lemma FindsZone(s: Slab, p: nat) returns (z: nat)
    requires Inv(s) && p in s.live
    ensures z in s.zones && Issued(z, s.zones[z], p) && z <= p / PageSize < |s.usage|
    ensures s.usage[p / PageSize] == Small(p / PageSize - z)
  {
    hide Issued, Max, ClassOk, Distinct;
    z :| z in s.zones && Issued(z, s.zones[z], p);
    ZoneFits(s, z);
    IssuedInside(s.zonePages, z, s.zones[z], p);
    LargeHasPages(s, z);
    var k := p / PageSize - z;
    assert s.usage[z + k] == Small(k);
  }

  lemma LargeUsage(s: Slab, a: nat)
    requires Inv(s) && a in s.large
    ensures a in s.ps.areas && a < |s.usage| && s.usage[a] == Large(s.ps.areas[a])
  {
  }

  /** What may be freed: the address of a block that was allocated and not freed since. */
  ghost predicate Allocated(s: Slab, p: nat) {
    p in s.live || (p % PageSize == 0 && p / PageSize in s.large)
  }

  lemma FreeKeeps(s: Slab, p: nat)
    requires Inv(s) && Allocated(s, p)
    ensures Inv(Free(s, p))
  {
    hide Inv, FreeSmall, FreeLarge;
    if p in s.live {
      var z := FindsZone(s, p);
      ListOf(s, z);
      FreeSmallKeeps(s, z, p);
    } else {
      FreeLargeKeeps(s, p / PageSize);
      LargeUsage(s, p / PageSize);
    }
  }

  lemma MallocKeeps(s: Slab, size: nat)
    requires Inv(s) && size < 0x1_0000_0000
    ensures Inv(Malloc(s, size).0) && Malloc(s, size).0.zonePages == s.zonePages
  {
    if size >= Limit(s.zonePages) || size >= 16384 {
      MallocLargeKeeps(s, size);
    } else if size > 0 {
      ZoneIndexIs(size);
      ClassOfRequest(s.zonePages, size);
      var index := ZoneIndex(size).1;
      if s.heads[index] != [] {
        MallocZoneKeeps(s, index);
      } else if ZoneSpace(s).1.Some? {
        ZoneSpaceKeeps(s);
        hide Inv;
        NewZoneKeeps(ZoneSpace(s).0, ZoneSpace(s).1.value, index);
      }
    }
  }

  /** The class of a request below the limit fits the zones. */
  lemma ClassOfRequest(zonePages: nat, size: nat)
    requires ZonePagesOk(zonePages) && 0 < size < Limit(zonePages)
    ensures ZoneIndex(size).1 < ZoneClasses && ClassFits(zonePages, ZoneIndex(size).1)
  {
    ZoneIndexIs(size);
  }
}
