/** What mapping and unmapping do to the hardware's view, and what undoing leaves behind. */
module Paging {
  import opened Bits
  import opened PageEntry
  import opened PageTables
  import opened PageWalk
  import opened AddressSpace
  import opened TablePool
  import Words

  /** After a mapping the hardware walk reaches the mapped frames, page by page, and
      every other page of the user half as before. */
  lemma MappingWalks(s: Space, t: Space, first: nat, count: nat, phys: nat, flags: bv64, page: nat)
    requires s.Good() && t.Good() && page < USER_PAGES
    requires t.view == Mapped(s.view, first, count, phys, 0, flags)
    ensures Walk(t.mem, t.root, 3, page) ==
      if first <= page < first + count then Some(LeafAt(phys, page - first, flags)) else Walk(s.mem, s.root, 3, page)
  {
    hide Space.Good, Walk, Mapped, LeafAt;
    WalkIsView(s, page);
    WalkIsView(t, page);
    MappedAt(s.view, first, count, phys, 0, flags, page);
  }

  /** After a mapping of n bytes, rounded up to whole pages, byte d from the start of the first page
      translates to byte d of the physical pages from the one phys is in, less kernel_vma. */
  lemma MappingTranslates(s: Space, t: Space, virt: nat, phys: nat, n: nat, flags: bv64, d: nat)
    requires s.Good() && t.Good() && d < 4096 * PageCount(n)
    requires PageOf(virt) + PageCount(n) <= USER_PAGES
    requires t.view == Mapped(s.view, PageOf(virt), PageCount(n), phys, 0, flags)
    ensures n <= 4096 * PageCount(n) < n + 4096
    ensures Translate(t.mem, t.root, 4096 * (virt / 4096) + d) ==
      Some((4096 * (phys / 4096) + d + 0x80_0000_0000) % 0x1_0000_0000_0000)
    ensures 0xffff_ff80_0000_0000 <= phys && phys % 4096 == 0 && phys + d < 0x1_0000_0000_0000_0000 ==>
      Translate(t.mem, t.root, 4096 * (virt / 4096) + d) == Some(phys + d - 0xffff_ff80_0000_0000)
  {
    hide Space.Good, Walk, Mapped, LeafAt, Words.Value, PageOf, PageCount, Translate;
    var k := d / 4096;
    ByteAt(virt, d, PageCount(n));
    CountIs(n);
    LeafValue(phys, k, flags);
    MappingWalks(s, t, PageOf(virt), PageCount(n), phys, flags, PageOf(virt) + k);
    PageStart(phys);
    TranslateAt(t.mem, t.root, 4096 * (virt / 4096) + d, LeafAt(phys, k, flags));
    ByteIn(4096 * (phys / 4096), d);
  }

  lemma PageStart(phys: nat)
    ensures 4096 * (phys / 4096) == phys - phys % 4096 && (4096 * (phys / 4096)) % 4096 == 0
  {
  }

  lemma TranslateAt(mem: Memory, root: Frame, a: nat, l: Leaf)
    requires Walk(mem, root, 3, (a % BIT48) / 4096) == Some(l)
    ensures Translate(mem, root, a) == Some(Words.Value(l.addr, 48) + a % 4096)
  {
  }

  /** The page and the offset of byte d from the start of a page on. */
  lemma ByteAt(virt: nat, d: nat, count: nat)
    requires d < 4096 * count && PageOf(virt) + count <= USER_PAGES
    ensures var a := 4096 * (virt / 4096) + d;
      d / 4096 < count && a % 4096 == d % 4096 && (a % BIT48) / 4096 == PageOf(virt) + d / 4096
  {
    hide PageOf;
    var a, v, e, r := 4096 * (virt / 4096) + d, virt / 4096, d / 4096, d % 4096;
    assert a == 4096 * (v + e) + r;
    UniqueMod(a, 4096, v + e, r);
    PageOfIs(virt);
    ModOfPages(v, e, r);
  }

  lemma ModOfPages(v: nat, e: nat, r: nat)
    requires r < 4096 && v % 0x10_0000_0000 + e < 0x10_0000_0000
    ensures ((4096 * (v + e) + r) % BIT48) / 4096 == v % 0x10_0000_0000 + e
  {
    var q, p := v / 0x10_0000_0000, v % 0x10_0000_0000;
    assert 4096 * (v + e) + r == q * BIT48 + (4096 * (p + e) + r);
    UniqueMod(4096 * (v + e) + r, BIT48, q, 4096 * (p + e) + r);
    UniqueMod(4096 * (p + e) + r, 4096, p + e, r);
  }

  lemma PageOfIs(virt: nat)
    ensures PageOf(virt) == (virt / 4096) % 0x10_0000_0000
  {
    var v := virt / 4096;
    var q, p := v / 0x10_0000_0000, v % 0x10_0000_0000;
    assert virt == q * BIT48 + (4096 * p + virt % 4096);
    UniqueMod(virt, BIT48, q, 4096 * p + virt % 4096);
  }

  lemma CountIs(n: nat)
    ensures n <= 4096 * PageCount(n) < n + 4096
  {
  }

  lemma ByteIn(phys: nat, d: nat)
    requires phys % 4096 == 0
    ensures (phys + 4096 * (d / 4096) + 0x80_0000_0000) % 0x1_0000_0000_0000 + d % 4096 ==
      (phys + d + 0x80_0000_0000) % 0x1_0000_0000_0000
    ensures 0xffff_ff80_0000_0000 <= phys && phys + d < 0x1_0000_0000_0000_0000 ==>
      (phys + d + 0x80_0000_0000) % 0x1_0000_0000_0000 == phys + d - 0xffff_ff80_0000_0000
  {
  }

  /** And it may be written, used by user code and executed exactly as asked for. */
  lemma MappingRights(s: Space, t: Space, first: nat, count: nat, phys: nat, flags: bv64, page: nat)
    requires s.Good() && t.Good() && first <= page < first + count <= USER_PAGES
    requires t.view == Mapped(s.view, first, count, phys, 0, flags)
    ensures WalkRights(t.mem, t.root, 3, page) ==
      Some(Rights(flags & 0x2 != 0, flags & 0x4 != 0, flags & 0x8000_0000_0000_0000 != 0))
  {
    hide Space.Good, WalkRights, Mapped, Flags;
    RightsAre(t, page);
    MappedAt(s.view, first, count, phys, 0, flags, page);
    FlagRights(flags);
  }

  lemma UnmappingWalks(s: Space, t: Space, first: nat, count: nat, page: nat)
    requires s.Good() && t.Good() && page < USER_PAGES && t.view == Unmapped(s.view, first, count)
    ensures Walk(t.mem, t.root, 3, page) ==
      if first <= page < first + count then None else Walk(s.mem, s.root, 3, page)
  {
    hide Space.Good, Walk, Unmapped;
    WalkIsView(s, page);
    WalkIsView(t, page);
    UnmappedAt(s.view, first, count, page);
  }

  /** Which tables exist is a function of which pages are mapped. */
  lemma TablesDetermined(s: Space, p: Pos)
    requires s.Good() && NoEmptyTable(s) && p.level < 3
    ensures p in s.at <==> exists page :: page in s.view && TableOf(page, p.level) == p
  {
    hide Space.Good, FullBut, TableOf;
    if p in s.at {
      var page := PageBelow(s, p);
    }
    if page :| page in s.view && TableOf(page, p.level) == p {
      OnPath(s, page, p.level);
    }
  }

  lemma SameTables(s: Space, t: Space)
    requires s.Good() && NoEmptyTable(s) && t.Good() && NoEmptyTable(t) && s.view == t.view
    ensures s.at.Keys == t.at.Keys
  {
    hide NoEmptyTable;
    forall p ensures p in s.at <==> p in t.at {
      if p.level < 3 {
        TablesDetermined(s, p);
        TablesDetermined(t, p);
      } else {
        if p in s.at { OwnFrame(s, p); }
        if p in t.at { OwnFrame(t, p); }
      }
    }
  }

  /** Mapping a range where nothing was mapped and unmapping it again restores the flat map,
      the tables, down to the frames they live in, and the set of free pages. */
  method MapThenUnmap(m: PageMap, phys: nat, virt: nat, n: nat, flags: bv64) returns (ok: bool)
    requires m.Valid() && NoEmptyTable(m.Abs()) && virt < WORD && 0 < n
    requires PageOf(virt) + PageCount(n) <= USER_PAGES
    requires forall v :: PageOf(virt) <= v < PageOf(virt) + PageCount(n) ==> v !in m.view
    modifies m`mem, m`pool, m`at, m`view
    ensures m.Valid()
    ensures ok ==> m.view == old(m.view) && m.at == old(m.at)
    ensures ok ==> (set f | f in m.pool) == (set f | f in old(m.pool))
  {
    hide Space.Good, Space.Frames, Mapped, Unmapped, FullBut, LeafAt;
    ghost var before := m.Abs();
    ok := m.MapInternal(phys, virt, n, flags);
    if ok {
      forall v | PageOf(virt) <= v < PageOf(virt) + PageCount(n) ensures v in m.view {
        MappedAt(before.view, PageOf(virt), PageCount(n), phys, 0, flags, v);
      }
      UnmapUndoesMap(before.view, PageOf(virt), PageCount(n), phys, 0, flags);
      m.UnmapInternal(virt, n);
      SameTables(before, m.Abs());
      SamePool(before, m.Abs());
    }
  }

  /** A mapping of a range where nothing was mapped either succeeds or leaves the flat map, the
      tables with their frames and the set of free pages as they were. */
  method MapOrNothing(m: PageMap, phys: nat, virt: nat, n: nat, flags: bv64) returns (ok: bool)
    requires m.Valid() && NoEmptyTable(m.Abs()) && virt < WORD && 0 < n
    requires PageOf(virt) + PageCount(n) <= USER_PAGES
    requires forall v :: PageOf(virt) <= v < PageOf(virt) + PageCount(n) ==> v !in m.view
    modifies m`mem, m`pool, m`at, m`view
    ensures m.Valid() && NoEmptyTable(m.Abs())
    ensures ok ==> m.view == Mapped(old(m.view), PageOf(virt), PageCount(n), phys, 0, flags)
    ensures !ok ==> m.view == old(m.view) && m.at == old(m.at)
    ensures !ok ==> (set f | f in m.pool) == (set f | f in old(m.pool))
  {
    hide Space.Good, Space.Frames, Mapped, Unmapped, FullBut, SameWhereBoth;
    ghost var before := m.Abs();
    ok := m.MapInternal(phys, virt, n, flags);
    if !ok {
      UnmappedVacant(before.view, PageOf(virt), PageCount(n));
      Restored(before, m.Abs());
    }
  }

  lemma UnmappedVacant(view: map<nat, Leaf>, first: nat, count: nat)
    requires forall v :: first <= v < first + count ==> v !in view
    ensures Unmapped(view, first, count) == view
  {
    NothingThere(view, first, count);
  }

  lemma Restored(s: Space, t: Space)
    requires s.Good() && NoEmptyTable(s) && t.Good() && NoEmptyTable(t) && s.view == t.view
    requires SameWhereBoth(s.at, t.at) && s.Frames() == t.Frames()
    ensures t.at == s.at && (set f | f in t.pool) == (set f | f in s.pool)
  {
    hide Space.Good, Space.Frames, FullBut;
    SameTables(s, t);
    SamePool(s, t);
  }

  lemma SamePool(s: Space, t: Space)
    requires s.Good() && t.Good() && s.at == t.at && s.Frames() == t.Frames()
    ensures (set f | f in s.pool) == (set f | f in t.pool)
  {
    PoolIsRest(s);
    PoolIsRest(t);
  }

  lemma PoolIsRest(s: Space)
    requires s.Good()
    ensures forall f :: f in s.pool <==> f in s.Frames() && forall p :: p in s.at ==> s.at[p] != f
  {
    hide TablesRight, EntriesRight, ViewRight, Addr;
    forall f ensures f in s.pool <==> f in s.Frames() && forall p :: p in s.at ==> s.at[p] != f {
      if f in s.pool { var k :| 0 <= k < |s.pool| && s.pool[k] == f; }
    }
  }

  /** Every non-root table's packed counter is its number of present entries, at most 512. */
  lemma CountersExact(s: Space, p: Pos)
    requires s.Good() && p in s.at && p.level < 3
    ensures s.at[p] in s.mem && |s.mem[s.at[p]]| == 512
    ensures Count(s.mem[s.at[p]][0]) == Occupied(s.mem[s.at[p]], 512) <= 512
    ensures NoEmptyTable(s) ==> 0 < Count(s.mem[s.at[p]][0])
  {
    OwnFrame(s, p);
    OccupiedBound(s.mem[s.at[p]], 512);
  }
}
