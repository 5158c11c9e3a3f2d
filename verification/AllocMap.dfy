/** Mapping the physical zones of a virtual allocation one after the other. */
module AllocMap {
  import opened Bits
  import opened PageTables
  import opened PageWalk
  import opened AddressSpace
  import opened TablePool
  import opened Blocks
  import opened BuddyState
  import opened FreeLists
  import opened Buddy
  import opened Paging
  import opened PhysZones

  /** Pages of the zones, all of which are whole pages. */
  function Pages(zones: seq<PhysAllocation>): nat {
    if zones == [] then 0 else Pages(zones[..|zones| - 1]) + PageCount(zones[|zones| - 1].len)
  }

  predicate WholePages(zones: seq<PhysAllocation>) {
    forall i :: 0 <= i < |zones| ==>
      zones[i].addr < WORD && zones[i].len < WORD && zones[i].len % PAGE_SIZE == 0 && 0 < zones[i].len
  }

  /** The k-th page of the zones taken in order. */
  function PageOfZones(zones: seq<PhysAllocation>, k: nat, flags: bv64): Leaf
    requires k < Pages(zones)
  {
    var n := |zones| - 1;
    if k >= Pages(zones[..n]) then
      LeafAt(zones[n].addr, k - Pages(zones[..n]), flags)
    else PageOfZones(zones[..n], k, flags)
  }

  ghost function MappedZones(view: map<nat, Leaf>, first: nat, zones: seq<PhysAllocation>, flags: bv64): map<nat, Leaf>
  {
    if zones == [] then view
    else
      var n := |zones| - 1;
      Mapped(MappedZones(view, first, zones[..n], flags), first + Pages(zones[..n]), PageCount(zones[n].len),
        zones[n].addr, 0, flags)
  }

  /** The virtual zone reads as the concatenation of the physical ones, and nothing else changes. */
  lemma {:induction false} MappedZonesAt(view: map<nat, Leaf>, first: nat, zones: seq<PhysAllocation>, flags: bv64,
      v: nat)
    ensures v in MappedZones(view, first, zones, flags) <==> v in view || first <= v < first + Pages(zones)
    ensures first <= v < first + Pages(zones) ==>
      MappedZones(view, first, zones, flags)[v] == PageOfZones(zones, v - first, flags)
    ensures v in view && !(first <= v < first + Pages(zones)) ==> MappedZones(view, first, zones, flags)[v] == view[v]
    decreases |zones|
  {
    hide LeafAt, Mapped, PageCount;
    if zones != [] {
      var n := |zones| - 1;
      MappedZonesAt(view, first, zones[..n], flags, v);
      MappedAt(MappedZones(view, first, zones[..n], flags), first + Pages(zones[..n]), PageCount(zones[n].len),
        zones[n].addr, 0, flags, v);
    }
  }

  lemma TotalPages(zones: seq<PhysAllocation>)
    requires WholePages(zones)
    ensures Total(zones) == PAGE_SIZE * Pages(zones)
    decreases |zones|
  {
    if zones != [] { TotalPages(zones[..|zones| - 1]); }
  }

  lemma Onward(virt: nat, pages: nat)
    requires virt + PAGE_SIZE * pages < BIT48
    ensures PageOf(virt + PAGE_SIZE * pages) == PageOf(virt) + pages
  {
  }

  lemma PagesPrefix(zones: seq<PhysAllocation>, i: nat)
    requires i < |zones|
    ensures zones[..i + 1][..i] == zones[..i]
    ensures Pages(zones[..i + 1]) == Pages(zones[..i]) + PageCount(zones[i].len) <= Pages(zones)
    decreases |zones|
  {
    assert zones[..i + 1][..i] == zones[..i];
    if i + 1 < |zones| {
      PagesPrefix(zones[..|zones| - 1], i);
      assert zones[..|zones| - 1][..i] == zones[..i] && zones[..|zones| - 1][..i + 1] == zones[..i + 1];
    } else {
      assert zones[..i + 1] == zones;
    }
  }

  lemma {:induction false} PagesTail(zones: seq<PhysAllocation>)
    requires zones != []
    ensures Pages(zones) == PageCount(zones[0].len) + Pages(zones[1..])
    decreases |zones|
  {
    hide PageCount;
    if |zones| > 1 {
      PagesTail(zones[..|zones| - 1]);
      assert zones[..|zones| - 1][1..] == zones[1..][..|zones| - 2];
    } else {
      assert zones[..0] == [] && zones[1..] == [];
    }
  }

  lemma {:induction false} TotalTail(zones: seq<PhysAllocation>)
    requires zones != []
    ensures Total(zones) == zones[0].len + Total(zones[1..])
    decreases |zones|
  {
    if |zones| > 1 {
      TotalTail(zones[..|zones| - 1]);
      assert zones[..|zones| - 1][1..] == zones[1..][..|zones| - 2];
    } else {
      assert zones[..0] == [] && zones[1..] == [];
    }
  }

  // ---------------------------------------------------------------- when a zone cannot be mapped

  /** Pages the cleanup takes out when zone i has failed: as many as zones 1 to i - 1 have. */
  function TakenOut(zones: seq<PhysAllocation>, i: nat): nat
    requires i < |zones|
  {
    if i == 0 then 0 else Pages(zones[1..i])
  }

  /** The map when zone i has failed and the cleanup is done. */
  ghost function LeftOver(view: map<nat, Leaf>, first: nat, zones: seq<PhysAllocation>, i: nat, flags: bv64)
    : map<nat, Leaf>
    requires i < |zones|
  {
    var failed := Unmapped(MappedZones(view, first, zones[..i], flags), first + Pages(zones[..i]),
      PageCount(zones[i].len));
    Unmapped(failed, first, TakenOut(zones, i))
  }

  lemma TakenOutIs(zones: seq<PhysAllocation>, i: nat)
    requires WholePages(zones) && i < |zones|
    ensures i == 0 ==> TakenOut(zones, i) == Pages(zones[..i]) == 0
    ensures i > 0 ==> TakenOut(zones, i) + PageCount(zones[0].len) == Pages(zones[..i]) && PageCount(zones[0].len) > 0
    ensures Pages(zones[..i]) + PageCount(zones[i].len) <= Pages(zones)
  {
    PagesPrefix(zones, i);
    if i > 0 {
      PagesTail(zones[..i]);
      assert zones[..i][1..] == zones[1..i];
    }
  }

  /** Outside the zone nothing has changed; inside, the last pages of those that had been mapped
      still are, as many as zone 0 has. */
  lemma LeftOverAt(view: map<nat, Leaf>, first: nat, zones: seq<PhysAllocation>, i: nat, flags: bv64, v: nat)
    requires WholePages(zones) && i < |zones|
    ensures var l := LeftOver(view, first, zones, i, flags);
      var n := Pages(zones[..i]) + PageCount(zones[i].len);
      && (!(first <= v < first + n) ==> (v in l <==> v in view) && (v in l ==> l[v] == view[v]))
      && (first <= v < first + n ==> (v in l <==> first + TakenOut(zones, i) <= v < first + Pages(zones[..i])))
  {
    hide LeafAt, PageCount, Pages, TakenOut, PageOfZones, WholePages, MappedZones, Unmapped;
    TakenOutIs(zones, i);
    var mapped := MappedZones(view, first, zones[..i], flags);
    var failed := Unmapped(mapped, first + Pages(zones[..i]), PageCount(zones[i].len));
    MappedZonesAt(view, first, zones[..i], flags, v);
    UnmappedAt(mapped, first + Pages(zones[..i]), PageCount(zones[i].len), v);
    UnmappedAt(failed, first, TakenOut(zones, i), v);
  }

  /** The cleanup restores the map exactly when the first zone was the one that failed. */
  lemma CleanupRestores(view: map<nat, Leaf>, first: nat, zones: seq<PhysAllocation>, i: nat, flags: bv64)
    requires WholePages(zones) && i < |zones|
    requires forall v :: first <= v < first + Pages(zones) ==> v !in view
    ensures LeftOver(view, first, zones, i, flags) == view <==> i == 0
  {
    hide LeftOver, TakenOut, Pages, PageCount, WholePages;
    var l := LeftOver(view, first, zones, i, flags);
    TakenOutIs(zones, i);
    if i > 0 {
      LeftOverAt(view, first, zones, i, flags, first + TakenOut(zones, i));
    } else {
      forall v: nat ensures (v in l <==> v in view) && (v in l ==> l[v] == view[v]) {
        LeftOverAt(view, first, zones, i, flags, v);
      }
    }
  }

  /** The cleanup of map_alloc_data: the loop over j leaves zone 0 out. A call of unmap_internal
      for no bytes does nothing and is left out. */
  method Cleanup(m: PageMap, zones: seq<PhysAllocation>, virt: nat, i: nat)
    requires m.Valid() && WholePages(zones) && i < |zones|
    requires PageOf(virt) + Pages(zones) <= USER_PAGES && virt < WORD
    modifies m`mem, m`pool, m`at, m`view
    ensures m.Valid() && m.Abs().Frames() == old(m.Abs()).Frames()
    ensures m.view == Unmapped(old(m.view), PageOf(virt), TakenOut(zones, i))
    ensures NoEmptyTable(old(m.Abs())) ==> NoEmptyTable(m.Abs())
  {
    hide Space.Good, Space.Frames, Unmapped, FullBut, PageOf, PageCount, PageMap.Valid, Pages;
    NothingUnmapped(m.view, PageOf(virt));
    TakenOutIs(zones, i);
    if i == 0 {
      return;
    }
    var unmapLen, j := 0, i - 1;
    assert zones[j + 1..i] == [];
    while j > 0
      invariant 0 <= j < i && unmapLen == Total(zones[j + 1..i])
      modifies {}
    {
      TotalTail(zones[j..i]);
      assert zones[j..i][1..] == zones[j + 1..i];
      unmapLen := unmapLen + zones[j].len;
      j := j - 1;
    }
    TotalPages(zones[1..i]);
    WholeCount(Pages(zones[1..i]));
    if unmapLen > 0 {
      m.UnmapInternal(virt, unmapLen);
    }
  }

  lemma WholeCount(p: nat)
    ensures PageCount(PAGE_SIZE * p) == p
  {
  }

  /** A part of a range that finds too few pages leaves the whole too few. */
  lemma StillMissing(a: Space, b: Space, first: nat, m: nat, n: nat, all: nat)
    requires Made(a, b, first, m) && |Missing(b.at, first + m, n)| > |b.pool| && m + n <= all
    ensures |Missing(a.at, first, all)| > |a.pool|
  {
    hide Missing;
    MissingRest(a.at, b.at, first, m, n);
    MissingMore(a.at, first, m + n, all);
  }

  lemma MadeEnough(a: Space, b: Space, first: nat, n: nat)
    requires Made(a, b, first, n)
    ensures |Missing(a.at, first, n)| <= |a.pool|
  {
    hide Missing;
  }

  /** Where zone i goes when the ones before it have been placed. */
  lemma ZoneStart(virt: nat, zones: seq<PhysAllocation>, i: nat)
    requires WholePages(zones) && i < |zones|
    requires PageOf(virt) + Pages(zones) <= USER_PAGES && virt + PAGE_SIZE * Pages(zones) < BIT48
    ensures 0 < zones[i].len && zones[..i + 1][..i] == zones[..i] && virt + Total(zones[..i]) < WORD
    ensures PageOf(virt + Total(zones[..i])) == PageOf(virt) + Pages(zones[..i])
    ensures Pages(zones[..i]) + PageCount(zones[i].len) == Pages(zones[..i + 1]) <= Pages(zones)
  {
    hide PageOf, PageCount, Pages, Total, WholePages;
    PagesPrefix(zones, i);
    WholePrefix(zones, i);
    TotalPages(zones[..i]);
    Onward(virt, Pages(zones[..i]));
  }

  lemma WholePrefix(zones: seq<PhysAllocation>, i: nat)
    requires WholePages(zones) && i < |zones|
    ensures WholePages(zones[..i]) && 0 < zones[i].len
  {
    forall j | 0 <= j < i ensures zones[..i][j] == zones[j] {}
  }

  /** map_alloc_data at a given address. When zone i cannot be mapped, pages for tables have run
      out, and the zones before it are taken out again as far as the cleanup goes. */
  method MapAllocData(m: PageMap, zones: seq<PhysAllocation>, virt: nat, flags: bv64) returns (ok: bool, i: nat)
    requires m.Valid() && WholePages(zones)
    requires PageOf(virt) + Pages(zones) <= USER_PAGES && virt + PAGE_SIZE * Pages(zones) < BIT48
    modifies m`mem, m`pool, m`at, m`view
    ensures m.Valid() && m.Abs().Frames() == old(m.Abs()).Frames()
    ensures ok ==> m.view == MappedZones(old(m.view), PageOf(virt), zones, flags)
    ensures ok <==> |Missing(old(m.at), PageOf(virt), Pages(zones))| <= |old(m.pool)|
    ensures !ok ==> i < |zones| && m.view == LeftOver(old(m.view), PageOf(virt), zones, i, flags)
    ensures NoEmptyTable(old(m.Abs())) ==> NoEmptyTable(m.Abs())
  {
    hide Space.Good, Space.Frames, Mapped, Unmapped, LeafAt, FullBut, PageOf, PageCount, PageMap.Valid, Missing, Made,
      Extends, SameWhereBoth, NoEmptyTable, WholePages;
    i := 0;
    ghost var b0 := m.Abs();
    MadeNothing(b0, PageOf(virt));
    var copy := virt;
    assert zones[..0] == [];
    while i < |zones|
      invariant 0 <= i <= |zones| && copy == virt + Total(zones[..i])
      invariant m.Valid() && m.Abs().Frames() == b0.Frames()
      invariant m.view == MappedZones(b0.view, PageOf(virt), zones[..i], flags)
      invariant NoEmptyTable(b0) ==> NoEmptyTable(m.Abs())
      invariant Made(b0, m.Abs(), PageOf(virt), Pages(zones[..i]))
    {
      ghost var b := m.Abs();
      var zone := zones[i];
      ZoneStart(virt, zones, i);
      var mapped := m.MapInternal(zone.addr, copy, zone.len, flags);
      if !mapped {
        StillMissing(b0, b, PageOf(virt), Pages(zones[..i]), PageCount(zone.len), Pages(zones));
        Cleanup(m, zones, virt, i);
        return false, i;
      }
      MadeMore(b0, b, m.Abs(), PageOf(virt), Pages(zones[..i]), PageCount(zone.len));
      copy := copy + zone.len;
      i := i + 1;
    }
    assert zones[..i] == zones;
    MadeEnough(b0, m.Abs(), PageOf(virt), Pages(zones));
    ok := true;
  }

  /** After an allocation the hardware walk finds the zones' pages in order. */
  lemma AllocationReads(s: Space, t: Space, first: nat, zones: seq<PhysAllocation>, flags: bv64, page: nat)
    requires s.Good() && t.Good() && page < USER_PAGES
    requires t.view == MappedZones(s.view, first, zones, flags)
    ensures Walk(t.mem, t.root, 3, page) ==
      if first <= page < first + Pages(zones) then Some(PageOfZones(zones, page - first, flags))
        else Walk(s.mem, s.root, 3, page)
  {
    hide Space.Good, Walk, MappedZones, PageOfZones;
    WalkIsView(s, page);
    WalkIsView(t, page);
    MappedZonesAt(s.view, first, zones, flags, page);
  }

  // ---------------------------------------------------------------- freeing

  /** One zone is unmapped and its block given back. */
  method FreeZone(a: PAllocator, m: PageMap, zone: PhysAllocation, at: nat, ghost b: Block)
    requires a.Valid() && a.Narrow() && b in a.live && zone.addr == b.addr && 0 < zone.len
    requires m.Valid() && at < WORD && PageOf(at) + PageCount(zone.len) <= USER_PAGES
    modifies a`lists, a`header, a`free, a`live, a`freed, a.meta, m`mem, m`pool, m`at, m`view
    ensures a.Valid() && a.live == old(a.live) - {b}
    ensures m.Valid() && m.Abs().Frames() == old(m.Abs()).Frames()
    ensures m.view == Unmapped(old(m.view), PageOf(at), PageCount(zone.len))
    ensures NoEmptyTable(old(m.Abs())) ==> NoEmptyTable(m.Abs())
  {
    hide Space.Good, Space.Frames, Unmapped, FullBut, PageOf, PageCount, PageMap.Valid, PAllocator.Valid,
      InFirstChunk, Bytes;
    m.UnmapInternal(at, zone.len);
    FirstByte(b, a.foBits);
    a.Free(zone.addr);
  }

  /** The loop of addr_space::free: every zone is unmapped and given back. */
  method FreeZones(a: PAllocator, m: PageMap, zones: seq<PhysAllocation>, virt: nat, ghost blocks: seq<Block>,
      ghost was: set<Block>)
    requires a.Valid() && a.Narrow() && Fresh(blocks, was, a.live) && Addresses(zones, blocks)
    requires m.Valid() && WholePages(zones)
    requires PageOf(virt) + Pages(zones) <= USER_PAGES && virt + PAGE_SIZE * Pages(zones) < BIT48
    modifies a`lists, a`header, a`free, a`live, a`freed, a.meta, m`mem, m`pool, m`at, m`view
    ensures a.Valid() && a.live == was
    ensures m.Valid() && m.Abs().Frames() == old(m.Abs()).Frames()
    ensures m.view == Unmapped(old(m.view), PageOf(virt), Pages(zones))
    ensures NoEmptyTable(old(m.Abs())) ==> NoEmptyTable(m.Abs())
  {
    hide Space.Good, Space.Frames, Unmapped, FullBut, PageOf, PageCount, PageMap.Valid, PAllocator.Valid, Fresh,
      InFirstChunk, Bytes;
    var j, offset := 0, 0;
    assert zones[..0] == [];
    NothingUnmapped(m.view, PageOf(virt));
    while j < |zones|
      invariant 0 <= j <= |zones| && offset == Total(zones[..j])
      invariant a.Valid() && a.Narrow() && Fresh(blocks[j..], was, a.live)
      invariant m.Valid() && m.Abs().Frames() == old(m.Abs()).Frames()
      invariant m.view == Unmapped(old(m.view), PageOf(virt), Pages(zones[..j]))
      invariant NoEmptyTable(old(m.Abs())) ==> NoEmptyTable(m.Abs())
    {
      var temp := zones[j];
      PagesPrefix(zones, j);
      TotalPages(zones[..j]);
      Onward(virt, Pages(zones[..j]));
      FreshTail(blocks[j..], was, a.live);
      FreeZone(a, m, temp, virt + offset, blocks[j]);
      UnmappedMore(old(m.view), PageOf(virt), Pages(zones[..j]), PageCount(temp.len));
      offset := offset + temp.len;
      j := j + 1;
    }
    assert zones[..j] == zones;
    FreshNone(was, a.live);
  }

  lemma FirstByte(b: Block, fo: nat)
    ensures InFirstChunk(b, b.addr, fo)
  {
  }

  lemma NothingUnmapped(view: map<nat, Leaf>, first: nat)
    ensures Unmapped(view, first, 0) == view
  {
  }

  lemma UnmapUndoesZones(view: map<nat, Leaf>, first: nat, zones: seq<PhysAllocation>, flags: bv64)
    requires forall v :: first <= v < first + Pages(zones) ==> v !in view
    ensures Unmapped(MappedZones(view, first, zones, flags), first, Pages(zones)) == view
  {
    hide MappedZones, Unmapped, PageOfZones, Pages;
    var m := MappedZones(view, first, zones, flags);
    var u := Unmapped(m, first, Pages(zones));
    forall v: nat ensures (v in u <==> v in view) && (v in view ==> u[v] == view[v]) {
      MappedZonesAt(view, first, zones, flags, v);
      UnmappedAt(m, first, Pages(zones), v);
    }
  }

  /** Collected zones are whole pages at machine addresses. */
  lemma CollectedWhole(a: PAllocator, was: set<Block>, zones: seq<PhysAllocation>, blocks: seq<Block>)
    requires a.Valid() && Fresh(blocks, was, a.live) && Owned(zones, blocks)
    ensures WholePages(zones) && Addresses(zones, blocks)
  {
    hide MetaAgree, HeadersAgree, Bytes, Coalesced;
    forall i | 0 <= i < |zones|
      ensures zones[i].addr < WORD && zones[i].len < WORD && zones[i].len % PAGE_SIZE == 0 && 0 < zones[i].len {
      var b := blocks[i];
      assert b in a.live && b in a.free + a.live;
      UniqueMod(b.Size(), b.Size(), 1, 0);
      ModWeaken(b.Size(), PAGE_BITS, b.bits);
      PagePow2();
    }
  }
}
