/** alloc with the rollback and the unmapping it has, when pages for tables run out. */
module AllocAsWritten {
  import opened Bits
  import opened PageTables
  import opened PageWalk
  import opened EmptyTables
  import opened TablePool
  import opened AddressSpace
  import opened UnmapAsWritten
  import opened RollbackAsWritten
  import opened Blocks
  import opened Sequences
  import opened Buddy
  import opened PhysZones
  import opened AllocMap
  import opened LinkedList
  import opened Zones
  import opened VirtualAlloc

  // ---------------------------------------------------------------- map_alloc_data

  /** A page that is the last of its leaf table is never taken out by unmapping as written. */
  lemma LastStays(m: PageMap, t: Space, q: nat, c: nat, last: nat, view: map<nat, Leaf>)
    requires Left(m, t, q, c) && last in t.view && last % 512 == 511 && last !in view
    ensures !AsBefore(m, view)
    ensures RootQuiet(t, q, c) ==> last in t.view - Gone(t, q, c)
  {
    hide Space.Good, RootQuiet, RootWiped, Left, AsBefore, Gone;
    LeftMeans(m, t, q, c, view);
    if RootQuiet(t, q, c) && last in Gone(t, q, c) { QuietFirst(t, q, c); }
  }

  /** Where the mapping of a zone fails that is not the first, the page before is mapped and the last
      of its leaf table. */
  lemma LastMapped(b: Space, s: Space, first: nat, n: nat, left: nat, virt': nat, phys: nat, flags: bv64)
    requires Failed(b, s, first, n, left, virt', phys, flags) && 0 < first && first - 1 in b.view
    ensures var last := first + (PageCount(n) - left) - 1; last in s.view && last % 512 == 511
  {
    hide Space.Good, Space.Frames, NewWithin, Extends, IsMapped, TableOf, Stopped, PageCount;
    var done := PageCount(n) - left;
    StoppedAt(s.at, first, first + done, first * 4096, 4, virt');
    if done > 0 { DoneMapped(b.view, s.view, first, done, phys, flags); }
      else { NothingMappedYet(b.view, s.view, first, phys, flags); }
    OnPath(s, first + done - 1, 0);
    LastOfTable(first + done - 1);
  }

  /** The memory after a rollback, as a good space if there is one. */
  ghost function Rolled(s: Space, q: nat, c: nat): Space {
    if RootQuiet(s, q, c) then s.(mem := RootWiped(s, q, c), view := s.view - Gone(s, q, c)) else s
  }

  /** The cleanup of map_alloc_data after zone i has failed and been rolled back: what was mapped
      before it stays, as far as there is a good space at all. */
  method Cleanup(m: PageMap, zones: seq<PhysAllocation>, virt: nat, i: nat, ghost s: Space, ghost q: nat, ghost c: nat,
      ghost last: nat, ghost view: map<nat, Leaf>)
    requires WholePages(zones) && 0 < i < |zones| && virt < WORD && PageOf(virt) < USER_PAGES
    requires s.Good() && s.root == m.pml4 && Left(m, s, q, c) && Wired(s, m.mem) && TablesFreed(s, s.pool, m.pool)
    requires !RootQuiet(s, q, c) ==> |m.pool| > |s.pool|
    requires last in s.view && last % 512 == 511 && last !in view
    modifies m`mem, m`pool
    ensures !AsBefore(m, view)
  {
    hide Space.Good, RootQuiet, RootWiped, Left, Wired, TablesFreed, AsBefore, Gone, PageOf, Pages;
    LastStays(m, s, q, c, last, view);
    var unmapLen, j := 0, i - 1;
    assert zones[j + 1..i] == [];
    while j > 0
      invariant 0 <= j < i && unmapLen == Total(zones[j + 1..i])
      modifies {}
    {
      TotalTail(zones[j..i]);
      assert zones[j..i][1..] == zones[j + 1..i];
      unmapLen := unmapLen + zones[j].len;
      j := j - 1;
    }
    if unmapLen > 0 {
      ghost var t, pool := Rolled(s, q, c), m.pool;
      RolledIs(m, s, q, c);
      UnmapOn(m, virt, unmapLen, t);
      if RootQuiet(s, q, c) {
        LastStays(m, t, PageOf(virt), PageCount(unmapLen), last, view);
      } else {
        FreedAll(s, s.pool, pool, m.pool);
        StillDangling(m, s, pool, view);
      }
    }
  }

  lemma RolledIs(m: PageMap, s: Space, q: nat, c: nat)
    requires s.Good() && s.root == m.pml4 && Left(m, s, q, c) && Wired(s, m.mem)
    ensures var t := Rolled(s, q, c);
      && t.Good() && t.root == m.pml4 && Wired(t, m.mem)
      && (RootQuiet(s, q, c) ==> IsNow(m, t) && t.view == s.view - Gone(s, q, c))
      && (!RootQuiet(s, q, c) ==> t == s)
  {
    hide Space.Good, RootQuiet, RootWiped, Wired, Gone;
    if RootQuiet(s, q, c) { WiredStart(Rolled(s, q, c)); }
  }

  lemma StillDangling(m: PageMap, s: Space, pool: seq<Frame>, view: map<nat, Leaf>)
    requires s.Good() && s.root == m.pml4 && Wired(s, m.mem) && TablesFreed(s, s.pool, m.pool)
    requires |s.pool| < |pool| && TablesFreed(s, pool, m.pool)
    ensures !AsBefore(m, view)
  {
    hide Space.Good, Wired;
    forall t: Space | IsNow(m, t) ensures !t.Good() { FreedDangles(s, s.pool, t); }
  }

  /** The failure of a zone that is not the first. */
  method GiveUp(m: PageMap, zones: seq<PhysAllocation>, virt: nat, i: nat, ghost view: map<nat, Leaf>, ghost b: Space,
      ghost s: Space, left: nat, virt': nat, flags: bv64)
    requires WholePages(zones) && 0 < i < |zones|
    requires PageOf(virt) + Pages(zones) <= USER_PAGES && virt + PAGE_SIZE * Pages(zones) < BIT48
    requires forall v :: PageOf(virt) <= v < PageOf(virt) + Pages(zones) ==> v !in view
    requires b.view == MappedZones(view, PageOf(virt), zones[..i], flags) && s.root == m.pml4
    requires Failed(b, s, PageOf(virt) + Pages(zones[..i]), zones[i].len, left, virt', zones[i].addr, flags)
    requires Left(m, s, PageOf(virt'), PageCount(left)) && Wired(s, m.mem) && TablesFreed(s, s.pool, m.pool)
    requires !RootQuiet(s, PageOf(virt'), PageCount(left)) ==> |m.pool| > |s.pool|
    modifies m`mem, m`pool
    ensures !AsBefore(m, view)
  {
    hide Space.Good, PageOf, PageCount, Failed, Left, Wired, TablesFreed, RootQuiet, AsBefore, MappedZones;
    ghost var first, n := PageOf(virt) + Pages(zones[..i]), zones[i].len;
    VacantOn(view, PageOf(virt), zones, i, flags);
    PagesPrefix(zones, i);
    FailedGood(b, s, first, n, left, virt', zones[i].addr, flags);
    LastMapped(b, s, first, n, left, virt', zones[i].addr, flags);
    RangeStart(virt, Pages(zones));
    Cleanup(m, zones, virt, i, s, PageOf(virt'), PageCount(left), first + (PageCount(n) - left) - 1, view);
  }

  /** map_alloc_data at a given address where nothing is mapped, with the rollback and the unmapping
      as they are. When it fails, the flat map is as it was in a good space if and only if the first
      zone has failed and its rollback was spared. */
  method MapAllocData(m: PageMap, zones: seq<PhysAllocation>, virt: nat, flags: bv64)
    returns (ok: bool, i: nat, stray: bool)
    requires m.Valid() && NoEmptyTable(m.Abs()) && WholePages(zones)
    requires PageOf(virt) + Pages(zones) <= USER_PAGES && virt + PAGE_SIZE * Pages(zones) < BIT48
    requires forall v :: PageOf(virt) <= v < PageOf(virt) + Pages(zones) ==> v !in m.view
    modifies m`mem, m`pool, m`at, m`view
    ensures ok <==> |Missing(old(m.at), PageOf(virt), Pages(zones))| <= |old(m.pool)|
    ensures ok ==> m.Valid() && NoEmptyTable(m.Abs()) && m.view == MappedZones(old(m.view), PageOf(virt), zones, flags)
    ensures !ok ==> i < |zones|
    ensures !ok && !stray ==>
      (AsBefore(m, old(m.view)) <==> i == 0 && Spared(old(m.Abs()), PageOf(virt), zones[0].len))
  {
    hide Space.Good, Space.Frames, Mapped, LeafAt, NoEmptyTable, PageOf, PageCount, PageMap.Valid, Missing, Made,
      Failed, WholePages, Left, Wired, TablesFreed, RootQuiet, AsBefore, Spared, Inside;
    i, stray := 0, false;
    ghost var b0 := m.Abs();
    MadeNothing(b0, PageOf(virt));
    var copy := virt;
    assert zones[..0] == [];
    while i < |zones|
      invariant 0 <= i <= |zones| && copy == virt + Total(zones[..i])
      invariant m.Valid() && NoEmptyTable(m.Abs()) && (i == 0 ==> m.Abs() == b0)
      invariant m.view == MappedZones(b0.view, PageOf(virt), zones[..i], flags)
      invariant Made(b0, m.Abs(), PageOf(virt), Pages(zones[..i]))
    {
      ghost var b, first := m.Abs(), PageOf(virt) + Pages(zones[..i]);
      var zone := zones[i];
      ZoneReady(b0.view, virt, zones, i, flags);
      var mapped, virt', left; ghost var s;
      mapped, stray, s, virt', left := RollbackAsWritten.MapInternal(m, zone.addr, copy, zone.len, flags);
      if !mapped {
        StillMissing(b0, b, PageOf(virt), Pages(zones[..i]), PageCount(zone.len), Pages(zones));
        if i > 0 && !stray { GiveUp(m, zones, virt, i, b0.view, b, s, left, virt', flags); }
        return false, i, stray;
      }
      MadeMore(b0, b, m.Abs(), PageOf(virt), Pages(zones[..i]), PageCount(zone.len));
      copy := copy + zone.len;
      i := i + 1;
    }
    assert zones[..i] == zones;
    MadeEnough(b0, m.Abs(), PageOf(virt), Pages(zones));
    ok := true;
  }

  /** Before zone i is mapped its range is free, and the page before it is the last one mapped. */
  lemma VacantOn(view: map<nat, Leaf>, first: nat, zones: seq<PhysAllocation>, i: nat, flags: bv64)
    requires WholePages(zones) && i < |zones| && forall v :: first <= v < first + Pages(zones) ==> v !in view
    ensures var now, from := MappedZones(view, first, zones[..i], flags), first + Pages(zones[..i]);
      && (forall v :: from <= v < from + PageCount(zones[i].len) ==> v !in now)
      && (i > 0 ==> first < from && from - 1 in now)
  {
    hide MappedZones, PageCount, WholePages;
    TakenOutIs(zones, i);
    var now, from := MappedZones(view, first, zones[..i], flags), first + Pages(zones[..i]);
    forall v | from <= v < from + PageCount(zones[i].len) ensures v !in now {
      MappedZonesAt(view, first, zones[..i], flags, v);
    }
    if i > 0 { MappedZonesAt(view, first, zones[..i], flags, from - 1); }
  }

  lemma ZoneReady(view: map<nat, Leaf>, virt: nat, zones: seq<PhysAllocation>, i: nat, flags: bv64)
    requires WholePages(zones) && i < |zones|
    requires PageOf(virt) + Pages(zones) <= USER_PAGES && virt + PAGE_SIZE * Pages(zones) < BIT48
    requires forall v :: PageOf(virt) <= v < PageOf(virt) + Pages(zones) ==> v !in view
    ensures 0 < zones[i].len && zones[..i + 1][..i] == zones[..i] && virt + Total(zones[..i]) < WORD
    ensures var first, n := PageOf(virt) + Pages(zones[..i]), PageCount(zones[i].len);
      && PageOf(virt + Total(zones[..i])) == first && Pages(zones[..i]) + n == Pages(zones[..i + 1]) <= Pages(zones)
      && forall v :: first <= v < first + n ==> v !in MappedZones(view, PageOf(virt), zones[..i], flags)
  {
    hide MappedZones, PageOf, PageCount;
    ZoneStart(virt, zones, i);
    VacantOn(view, PageOf(virt), zones, i, flags);
  }

  lemma FailedGood(b: Space, s: Space, first: nat, n: nat, left: nat, virt': nat, phys: nat, flags: bv64)
    requires Failed(b, s, first, n, left, virt', phys, flags)
    ensures s.Good() && 0 < left <= PageCount(n)
  {
    hide Space.Good;
  }

  lemma RangeStart(virt: nat, p: nat)
    requires 0 < p && PageOf(virt) + p <= USER_PAGES && virt + PAGE_SIZE * p < BIT48
    ensures virt < WORD && PageOf(virt) < USER_PAGES
  {
  }

  // ---------------------------------------------------------------- alloc

  /** map_alloc_data as it stands, find_address included, where nothing is mapped above the zones. */
  method PlaceZones(s: AddrSpace, len: nat, zones: seq<PhysAllocation>, flags: bv64, node: nat, ghost bs: seq<Block>)
    returns (out: nat, i: nat, stray: bool)
    requires s.Valid() && !Stale(s.list.list) && node < WORD
    requires WholePages(zones) && Owned(zones, bs) && 0 < Total(zones) == len
    requires Distinct(bs) && AllIn(bs, s.a.live) && Spare(s.list.list.nodes, s.owned, bs)
    requires High(s.list.list.nodes) + len <= USER_END && NothingAbove(s, len)
    modifies s, s.list, s.m`mem, s.m`pool, s.m`at, s.m`view
    ensures old(s.list.list.nodes) != [] && CursorAfter(out != 0, |old(s.list.list).nodes|, s.list.list)
    ensures out != 0 <==>
      |Missing(old(s.m.at), PageOf(High(old(s.list.list).nodes)), len / PAGE_SIZE)| <= |old(s.m.pool)|
    ensures out != 0 ==> s.Valid() && out == High(old(s.list.list).nodes) < WORD
    ensures out != 0 ==> s.list.list.nodes == OnTop(old(s.list.list).nodes, Zone(out, len, Valloc))
    ensures out != 0 ==> s.m.view == MappedZones(old(s.m.view), PageOf(out), zones, flags)
    ensures out == 0 ==> s.list.list.nodes == old(s.list.list).nodes && i < |zones|
    ensures out == 0 && !stray ==> (AsBefore(s.m, old(s.m.view)) <==>
      i == 0 && Spared(old(s.m.Abs()), PageOf(High(old(s.list.list).nodes)), zones[0].len))
  {
    hide PAllocator.Valid, Space.Good, PageMap.Valid, NoEmptyTable, Space.Frames, Books.Good, Owned, Spare, AllIn,
      Distinct, WholePages, SameOn, OnTop, MappedZones, Found, WithFound, PageOf, Pages, MapsTo, Ordered, FoundCursor,
      Missing, AsBefore, Spared;
    SettledLast(s.list.list);
    ghost var before, high := s.Abs(), High(s.list.list.nodes);
    Heights(before);
    OrderedNow(before);
    TotalPages(zones);
    RoomIs(high, len, Pages(zones));
    ghost var z := Zone(high, len, Valloc);
    FoundOnTop(before, z, node);
    OnTopAt(s.list.list.nodes, z, 0);
    out := s.list.FindAddress(len, Valloc, node);
    var ok;
    ok, i, stray := MapAllocData(s.m, zones, out, flags);
    if !ok {
      OnTopDropped(before.zs, z);
      s.list.RemoveP(|s.list.list.nodes| - 2);
      return 0, i, stray;
    }
    MappedBelow(before.view, PageOf(high), zones, flags);
    Undisturbed(before, s.a.live, s.m.view);
    Gained(before.(view := s.m.view), z, Backing(zones, flags), bs);
    s.backing := s.backing[out := Backing(zones, flags)];
    s.owned := s.owned[out := bs];
  }

  /** Above the highest zone len bytes are not mapped. */
  ghost predicate NothingAbove(s: AddrSpace, len: nat)
    requires s.list.list.nodes != []
    reads s, s.m, s.list
  {
    var first := PageOf(High(s.list.list.nodes));
    forall v :: first <= v < first + len / PAGE_SIZE ==> v !in s.m.view
  }

  /** alloc as it stands. When pages for tables run out, the zone is dropped, the physical zones stay
      taken, and the flat map is as it was in a good space if and only if the first physical zone
      has failed and its rollback was spared. */
  method Alloc(s: AddrSpace, n: nat, flags: bv64, node: nat)
    returns (out: nat, i: nat, stray: bool, zones: seq<PhysAllocation>)
    requires s.Valid() && n < WORD && node < WORD && s.Room(n)
    requires 0 < n <= s.a.freeSpace ==> NothingAbove(s, AlignUp(n, PAGE_SIZE))
    modifies s, s.list, s.a`lists, s.a`header, s.a`free, s.a`live, s.a`freeSpace, s.a`freed, s.a.meta
    modifies s.m`mem, s.m`pool, s.m`at, s.m`view
    ensures old(s.list.list.nodes) != [] && (out != 0 <==> old(s.Served(n)))
    ensures out != 0 ==> s.Valid() && out == High(old(s.list.list).nodes) < WORD && AlignUp(n, PAGE_SIZE) < WORD
    ensures out != 0 ==> s.list.list.nodes == OnTop(old(s.list.list).nodes, Zone(out, AlignUp(n, PAGE_SIZE), Valloc))
    ensures out != 0 ==> s.m.view == MappedZones(old(s.m.view), PageOf(out), zones, flags)
    ensures out == 0 ==> s.list.list.nodes == old(s.list.list).nodes
    ensures out == 0 && s.a.live == old(s.a.live) ==> s.Valid() && s.m.view == old(s.m.view)
    ensures out == 0 && s.a.live != old(s.a.live) ==> i < |zones|
    ensures out == 0 && s.a.live != old(s.a.live) && !stray ==> (AsBefore(s.m, old(s.m.view)) <==>
      i == 0 && Spared(old(s.m.Abs()), PageOf(High(old(s.list.list).nodes)), zones[0].len))
  {
    hide PAllocator.Valid, MappedZones, Space.Good, PageMap.Valid, NoEmptyTable, Space.Frames, Books.Good, Owned,
      Spare, AllIn, Distinct, WholePages, OnTop, PageOf, Pages, MapsTo, Ordered, AlignUp, Sub, Fresh, FullBut,
      Missing, Reachable, AsBefore, Spared, CursorAfter, NothingAbove;
    Heights(s.Abs());
    out, i, stray, zones := 0, 0, false, [];
    if n == 0 {
      return;
    }
    if n > s.a.freeSpace {
      return;
    }
    WholeLength(n);
    var len := AlignUp(n, PAGE_SIZE);
    var ok; ghost var bs, live := [], s.a.live;
    ok, zones, bs := s.Collect(len);
    if !ok {
      return;
    }
    FreshMoved(bs, live, s.a.live, zones, len);
    out, i, stray := PlaceZones(s, len, zones, flags, node, bs);
  }
}
