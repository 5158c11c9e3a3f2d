/** An address space's page tables as mutable state. */
module AddressSpace {
  import opened Bits
  import opened PageEntry
  import opened PageTables
  import opened PageWalk
  import opened EmptyTables
  import opened TablePool

  /** Only tables below the given level are gone. */
  ghost predicate KeepsFrom(at: Places, at': Places, level: nat) {
    && (forall p :: p in at' ==> p in at && at'[p] == at[p])
    && (forall p :: p in at && p.level >= level ==> p in at')
  }

  /** First page of the range a call at table pos still has to treat. */
  ghost function Start(pos: Pos, virt: nat): nat { pos.Page(0) + Off(virt, pos.level) }

  /** Pages below the current entry that come before the range. */
  ghost function Ahead(virt: nat, level: nat): nat { if level > 0 then Off(virt, level - 1) else 0 }

  /** The lowest level at which the way to a page has a table. */
  ghost function Lowest(at: Places, page: nat): nat {
    if TableOf(page, 0) in at then 0
    else if TableOf(page, 1) in at then 1
    else if TableOf(page, 2) in at then 2
    else 3
  }

  function Shifts(virt: nat, n: nat): nat
    decreases n
  {
    if n == 0 then virt else Shifts(Shift(virt), n - 1)
  }

  /** Mapping from page first on has stopped before page next, for want of the table below the
      lowest one on its way; virt', when it stopped at once, is the address shifted down to that
      one, of k levels, and is used up otherwise. */
  ghost predicate Stopped(at: Places, first: nat, next: nat, virt: nat, k: nat, virt': nat) {
    && virt' < WORD && TableOf(next, 0) !in at
    && (first < next || Spent(virt) ==> Spent(virt'))
    && (first == next ==> Lowest(at, first) <= k && virt' == Shifts(virt, k - Lowest(at, first)))
  }

  class PageMap {
    /** Physical memory, as far as it holds page tables. */
    var mem: Memory
    /** The physical allocator's free pages. */
    var pool: seq<Frame>
    var pml4: Frame

    ghost var at: Places
    ghost var view: map<nat, Leaf>

    ghost function Abs(): Space
      reads this
    {
      Space(mem, pml4, pool, at, view)
    }

    ghost predicate Valid()
      reads this
    {
      Abs().Good()
    }

    /** A fresh address space: only the kernel's entry in the root. */
    constructor (root: Frame, pages: seq<Frame>, kernelPdp: bv64)
      requires Addr(root.addr) == root.addr && root !in pages
      requires forall k :: 0 <= k < |pages| ==> Addr(pages[k].addr) == pages[k].addr
      requires forall j, k :: 0 <= j < k < |pages| ==> pages[j] != pages[k]
      ensures Valid() && view == map[] && NoEmptyTable(Abs()) && pml4 == root && pool == pages
      ensures root in mem && |mem[root]| == 512 && Present(mem[root][KERNEL_SLOT]) &&
        Addr(mem[root][KERNEL_SLOT]) == Addr(kernelPdp) &&
          EntryRights(mem[root][KERNEL_SLOT]) == Rights(true, false, false)
    {
      hide PageSet, Present, Addr, Flags;
      ZeroTable(KERNEL_SLOT);
      PageSetIs(0, KERNEL_SLOT, kernelPdp, V_WRITE);
      PageSetBits(0, KERNEL_SLOT, kernelPdp, V_WRITE);
      var t := WithEntry(Zeroes(), KERNEL_SLOT, kernelPdp, V_WRITE);
      RootStart(t, KERNEL_SLOT);
      pml4, pool, mem := root, pages, map[root := t];
      at, view := map[Pos(3, 0) := root], map[];
    }

    /** Writes a leaf entry, counting it when it is new. */
    method SetEntry(table: Frame, i: nat, n: bv64, flags: bv64, ghost pos: Pos)
      requires Valid() && pos in at && at[pos] == table && pos.level == 0 && i < 512
      modifies this`mem, this`view
      ensures Valid() && view == old(view)[pos.Page(i) := Leaf(Addr(n), Flags(flags))]
      ensures table in mem && |mem[table]| == 512 && Present(mem[table][i])
      ensures Abs().Frames() == old(Abs()).Frames()
      ensures FullBut(old(mem), at, pos) ==> FullBut(mem, at, pos)
    {
      hide Space.Good, Present, Addr, Flags, PageSet, PageCounterAdd, CounterRight, Pos.Page;
      OwnFrame(Abs(), pos);
      var t := mem[table];
      CountThenStore(t, 512, i, n, flags);
      if !Present(t[i]) {
        t := Bump(t, 1);
      }
      t := WithEntry(t, i, n, flags);
      SetLeaf(Abs(), pos, i, t, n, flags);
      mem := mem[table := t];
      view := view[pos.Page(i) := Leaf(Addr(n), Flags(flags))];
      assert Abs() == old(Abs()).(mem := mem, view := view);
    }

    /** allocz, page_set and the counter: a new empty table below entry i. */
    method AddChild(table: Frame, i: nat, ghost pos: Pos) returns (ok: bool)
      requires Valid() && pos in at && at[pos] == table && pos.level > 0 && i < pos.Slots()
      requires table in mem && |mem[table]| == 512 && !Present(mem[table][i])
      modifies this`mem, this`pool, this`at
      ensures Valid() && Extends(old(at), at)
      ensures ok <==> old(pool) != []
      ensures !ok ==> Abs() == old(Abs())
      ensures ok ==> pos.Child(i) in at && at.Keys == old(at).Keys + {pos.Child(i)}
      ensures ok && FullBut(old(mem), old(at), pos) ==> FullBut(mem, at, pos.Child(i))
      ensures Abs().Frames() == old(Abs()).Frames()
    {
      hide Space.Good, Space.Frames, Present, Addr, Flags, PageSet, PageCounterAdd, CounterRight, Pos.Page;
      if pool == [] {
        return false;
      }
      OwnFrame(Abs(), pos);
      AllPermissions();
      var page := pool[|pool| - 1];
      var t := mem[table];
      StoreThenCount(t, pos.Slots(), i, page.addr, V_ALL_PERMISSIONS);
      AddTable(Abs(), pos, i, Bump(WithEntry(t, i, page.addr, V_ALL_PERMISSIONS), 1), V_ALL_PERMISSIONS);
      FramesGrown(Abs(), pos, i, Bump(WithEntry(t, i, page.addr, V_ALL_PERMISSIONS), 1));
      pool := pool[..|pool| - 1];
      mem := mem[page := Zeroes()];
      t := WithEntry(t, i, page.addr, V_ALL_PERMISSIONS);
      t := Bump(t, 1);
      mem := mem[table := t];
      at := at[pos.Child(i) := page];
      assert Abs() == Grown(old(Abs()), pos, i, t);
      if FullBut(old(mem), old(at), pos) {
        FullGrown(old(mem), mem, old(at), pos, i, pos.Child(i), page);
      }
      ok := true;
    }

    /** The recursion of map_internal: maps pages from where virt points until the pages or
        the table end, taking nine bits off virt a level. */
    method MapRecurse(phys: nat, virt: nat, startN: nat, pageN: nat, level: nat, table: Frame, flags: bv64,
        ghost pos: Pos)
      returns (ok: bool, virt': nat, pageN': nat)
      requires Valid() && pos in at && at[pos] == table && pos.level == level <= 3
      requires 0 < pageN <= startN && Whole(virt, level) && Start(pos, virt) + pageN <= USER_PAGES
      modifies this`mem, this`pool, this`at, this`view
      ensures Valid() && Extends(old(at), at) && pageN' <= pageN
      ensures IsMapped(old(view), view, Start(pos, virt), pageN - pageN', phys, startN - pageN, flags)
      ensures ok ==> pageN - pageN' == Min(pageN, Span(level + 1) - Off(virt, level)) && Spent(virt')
      ensures !ok ==> pool == [] && pageN' > 0
      ensures Abs().Frames() == old(Abs()).Frames()
      ensures ok && FullBut(old(mem), old(at), pos) ==> FullBut(mem, at, Pos(3, 0))
      ensures NewWithin(old(at), at, Start(pos, virt), Start(pos, virt) + (pageN - pageN') + if ok then 0 else 1)
      ensures !ok ==> Stopped(at, Start(pos, virt), Start(pos, virt) + (pageN - pageN'), virt, level + 1, virt')
      decreases level, 1
    {
      hide Space.Good, Space.Frames, Present, Addr, Flags, LeafAt, FrameAt, Pos.Page, Span, Off, Index, Shift, Whole,
        Spent, IsMapped, FullBut, Extends, Pos.Child, NewWithin, Stopped;
      ghost var s := Start(pos, virt);
      var i: nat := Index(virt);
      virt' := Shift(virt);
      pageN' := pageN;
      Consume(virt, level);
      PageSteps(pos, i);
      PageOrder(pos, i);
      InTable(pos, virt, i);
      MappedNone(view, s, phys, startN - pageN, flags);
      ExtendsSame(at);
      NothingNew(at, s);
      ghost var done := false;
      while pageN' > 0
        invariant pageN' <= pageN && (if done then i <= 512 else i < 512 && pageN' == pageN)
        invariant Valid() && pos in at && at[pos] == table && Extends(old(at), at)
        invariant IsMapped(old(view), view, s, pageN - pageN', phys, startN - pageN, flags)
        invariant pageN' > 0 ==> s + (pageN - pageN') == pos.Page(i) + if level > 0 then Off(virt', level - 1) else 0
        invariant level > 0 ==> Whole(virt', level - 1)
        invariant s + (pageN - pageN') <= pos.Page(512)
        invariant done || level == 0 ==> Spent(virt')
        invariant done && FullBut(old(mem), old(at), pos) ==> FullBut(mem, at, Pos(3, 0))
        invariant !done ==> mem == old(mem) && at == old(at) && virt' == Shift(virt)
        invariant done ==> pageN' < pageN
        invariant Abs().Frames() == old(Abs()).Frames()
        invariant NewWithin(old(at), at, s, s + (pageN - pageN'))
        decreases pageN'
      {
        SlotBound(Abs(), pos, i);
        PageSteps(pos, i);
        PageOrder(pos, i + 1);
        FullAnyway(mem, at, pos);
        if i >= PAGE_ENTRIES {
          if level > 0 { SpentIsWhole(virt', level - 1); }
          return level < PAGE_LEVELS - 1, virt', pageN';
        }
        if level > 0 {
          ghost var before, viewBefore, d, v := at, view, pageN', virt';
          Consume(virt', level - 1);
          ok, virt', pageN' := MapChild(phys, virt', startN, pageN', level, table, i, flags, pos);
          ExtendsAll(old(at), before, at, pos);
          NewMore(old(at), before, at, s, s + (pageN - d), s + (pageN - pageN') + if ok then 0 else 1);
          IsMappedMore(old(view), viewBefore, view, s, pageN - d, d - pageN', phys, startN - pageN, flags);
          if !ok {
            if done { StoppedLater(at, s, s + (pageN - d), s + (pageN - pageN'), v, virt, level, virt'); }
            else { StoppedFirst(at, s, s + (pageN - pageN'), virt, level, virt'); }
            return false, virt', pageN';
          }
          SpentIsWhole(virt', level - 1);
        } else {
          IsMappedNext(old(view), view, s, pageN - pageN', phys, startN - pageN, flags);
          SetEntry(table, i, FrameAt(phys, startN - pageN'), flags, pos);
          FullNow(mem, at, pos, i);
          WiderStill(old(at), at, s, s + (pageN - pageN'));
          pageN' := pageN' - 1;
        }
        i := i + 1;
        done := true;
      }
      ok := true;
    }

    /** Clears a leaf entry, counting it out when it was present. */
    method ClearEntry(table: Frame, i: nat, ghost pos: Pos)
      requires Valid() && pos in at && at[pos] == table && pos.level == 0 && i < 512
      requires table in mem && |mem[table]| == 512
      modifies this`mem, this`view
      ensures Valid() && view == old(view) - {pos.Page(i)}
      ensures Abs().Frames() == old(Abs()).Frames()
      ensures NoNewHollow(old(mem), at, mem, at, pos)
    {
      hide Space.Good, Present, Addr, Flags, PageUnset, PageCounterAdd, CounterRight, Pos.Page, NoNewHollow;
      OwnFrame(Abs(), pos);
      var t := mem[table];
      CountThenClear(t, 512, i);
      if Present(t[i]) {
        t := Bump(t, MINUS_ONE);
      }
      t := WithoutEntry(t, i);
      ClearLeaf(Abs(), pos, i, t);
      FrameRewritten(Abs(), pos, t);
      HollowTouched(Abs(), mem[table := t], at, pos);
      mem := mem[table := t];
      view := view - {pos.Page(i)};
      assert Abs() == old(Abs()).(mem := mem, view := view);
    }

    /** Frees the empty table below entry i, counts the entry out and clears it. */
    method DropChild(table: Frame, i: nat, ghost pos: Pos)
      requires Valid() && pos in at && at[pos] == table && pos.level > 0 && i < pos.Slots()
      requires pos.Child(i) in at && EmptyAt(Abs(), pos.Child(i))
      requires table in mem && |mem[table]| == 512 && Present(mem[table][i])
      modifies this`mem, this`pool, this`at
      ensures Valid() && at == old(at) - {pos.Child(i)} && pos in at
      ensures Abs().Frames() == old(Abs()).Frames()
      ensures NoNewHollow(old(mem), old(at), mem, at, pos)
    {
      hide Space.Good, Space.Frames, Present, Addr, Flags, PageUnset, PageCounterAdd, CounterRight, EmptyAt,
        NoNewHollow;
      OwnFrame(Abs(), pos);
      EntryLeads(Abs(), pos, i);
      var t := mem[table];
      CountThenClear(t, pos.Slots(), i);
      ghost var u := WithoutEntry(Bump(t, MINUS_ONE), i);
      DropTable(Abs(), pos, i, u);
      FramesShrunk(Abs(), pos, i, u);
      HollowTouched(Abs(), mem[table := u], at - {pos.Child(i)}, pos);
      pool := pool + [Frame(Addr(t[i]))];
      t := Bump(t, MINUS_ONE);
      t := WithoutEntry(t, i);
      mem := mem[table := t];
      at := at - {pos.Child(i)};
      assert Abs() == Shrunk(old(Abs()), pos, i, u);
    }

    /** One entry above the leaves: its table, allocated if need be, takes the next pages. */
    method MapChild(phys: nat, virt: nat, startN: nat, pageN: nat, level: nat, table: Frame, i: nat, flags: bv64,
        ghost pos: Pos)
      returns (ok: bool, virt': nat, pageN': nat)
      requires Valid() && pos in at && at[pos] == table && pos.level == level <= 3 && level > 0 && i < pos.Slots()
      requires 0 < pageN <= startN && Whole(virt, level - 1) && pos.Page(i) + Off(virt, level - 1) + pageN <= USER_PAGES
      modifies this`mem, this`pool, this`at, this`view
      ensures Valid() && Extends(old(at), at) && pageN' <= pageN && (ok ==> Whole(virt', level - 1))
      ensures IsMapped(old(view), view, pos.Page(i) + Off(virt, level - 1), pageN - pageN', phys, startN - pageN, flags)
      ensures ok ==> pageN - pageN' == Min(pageN, Span(level) - Off(virt, level - 1)) && Spent(virt')
      ensures !ok ==> pool == [] && pageN' > 0
      ensures Abs().Frames() == old(Abs()).Frames()
      ensures ok && FullBut(old(mem), old(at), pos) ==> FullBut(mem, at, Pos(3, 0))
      ensures NewWithin(old(at), at, pos.Page(i) + Off(virt, level - 1),
                        pos.Page(i) + Off(virt, level - 1) + (pageN - pageN') + if ok then 0 else 1)
      ensures !ok ==> Stopped(at, pos.Page(i) + Off(virt, level - 1),
                              pos.Page(i) + Off(virt, level - 1) + (pageN - pageN'), virt, level, virt')
      decreases level, 0
    {
      hide Space.Good, Space.Frames, Present, Addr, Flags, Pos.Page, Span, Off, Whole, Spent, IsMapped, LeafAt,
        FullBut, Pos.Child, CounterRight, NewWithin, Stopped;
      virt', pageN' := virt, pageN;
      OwnFrame(Abs(), pos);
      PageSteps(pos, i);
      Consume(virt, level - 1);
      ExtendsSame(at);
      NothingNew(at, pos.Page(i) + Off(virt, level - 1));
      WiderStill(at, at, pos.Page(i) + Off(virt, level - 1), pos.Page(i) + Off(virt, level - 1));
      MappedNone(view, pos.Page(i) + Off(virt, level - 1), phys, startN - pageN, flags);
      if !Present(mem[table][i]) {
        ok := AddChild(table, i, pos);
        if !ok {
          StoppedNow(Abs(), pos, i, pos.Page(i) + Off(virt, level - 1), virt);
          return false, virt', pageN';
        }
      } else {
        FullNow(mem, at, pos, i);
      }
      EntryLeads(Abs(), pos, i);
      ghost var c := pos.Child(i);
      ChildIs(pos, i);
      ghost var before := at;
      FullAnyway(mem, at, c);
      ok, virt', pageN' := MapRecurse(phys, virt, startN, pageN, level - 1, Frame(Addr(mem[table][i])), flags, c);
      ExtendsAll(old(at), before, at, pos);
      PageSteps(c, 0);
      NewChild(old(at), before, at, c, pos.Page(i) + Off(virt, level - 1),
               pos.Page(i) + Off(virt, level - 1) + (pageN - pageN') + if ok then 0 else 1);
      if ok { SpentIsWhole(virt', level - 1); }
    }

    /** The recursion of unmap_internal, repaired: the emptiness test reads the counter in entry 0,
        the entry of a freed table is cleared, and skips count the pages that are skipped. Returns
        whether the table is empty now, so that its parent frees it. */
    method UnmapRecurse(virt: nat, pageN: nat, level: nat, table: Frame, ghost pos: Pos)
      returns (empty: bool, virt': nat, pageN': nat)
      requires Valid() && pos in at && at[pos] == table && pos.level == level <= 3
      requires 0 < pageN && Whole(virt, level) && Start(pos, virt) + pageN <= USER_PAGES
      modifies this`mem, this`pool, this`at, this`view
      ensures Valid() && KeepsFrom(old(at), at, level) && pos in at && table in mem && |mem[table]| == 512
      ensures pageN' <= pageN && pageN - pageN' == Min(pageN, Span(level + 1) - Off(virt, level)) &&
        (pageN' > 0 ==> Spent(virt'))
      ensures IsUnmapped(old(view), view, Start(pos, virt), pageN - pageN')
      ensures empty <==> Count(mem[table][0]) == 0
      ensures Abs().Frames() == old(Abs()).Frames()
      ensures NoNewHollow(old(mem), old(at), mem, at, pos)
      ensures Swept(mem, at, Start(pos, virt), Start(pos, virt) + (pageN - pageN'), level)
      decreases level, 3
    {
      hide Space.Good, Space.Frames, Present, Addr, Flags, Count, Pos.Page, Span, Off, Index, Shift, Whole, Spent,
        IsUnmapped, KeepsFrom, Pos.Child, NoNewHollow, Swept;
      ghost var s := Start(pos, virt);
      var i: nat := Index(virt);
      virt' := Shift(virt);
      pageN' := pageN;
      Consume(virt, level);
      PageSteps(pos, i);
      PageOrder(pos, i);
      InTable(pos, virt, i);
      UnmappedNone(view, s);
      KeepsSame(at, level);
      HollowSame(mem, at, pos);
      SweptNothing(mem, at, s, level);
      CounterTells(Abs(), pos);
      ghost var done := false;
      while pageN' > 0
        invariant pageN' <= pageN && (if done then i <= 512 else i < 512 && pageN' == pageN)
        invariant Valid() && pos in at && at[pos] == table && KeepsFrom(old(at), at, level)
        invariant table in mem && |mem[table]| == 512 && (done ==> Count(mem[table][0]) != 0)
        invariant IsUnmapped(old(view), view, s, pageN - pageN')
        invariant pageN' > 0 ==> s + (pageN - pageN') == pos.Page(i) + Ahead(virt', level)
        invariant pageN' > 0 && level > 0 ==> Whole(virt', level - 1)
        invariant s + (pageN - pageN') <= pos.Page(512)
        invariant pageN' > 0 && (done || level == 0) ==> Spent(virt')
        invariant Abs().Frames() == old(Abs()).Frames()
        invariant NoNewHollow(old(mem), old(at), mem, at, pos) && Swept(mem, at, s, s + (pageN - pageN'), level)
        decreases pageN'
      {
        PageSteps(pos, i);
        PageOrder(pos, i + 1);
        if i >= PAGE_ENTRIES {
          if level > 0 { SpentIsWhole(virt', level - 1); }
          return false, virt', pageN';
        }
        virt', pageN' := UnmapTurn(virt', pageN', level, table, i, pos, old(Abs()), s, pageN - pageN');
        if pageN' > 0 && level > 0 { SpentIsWhole(virt', level - 1); }
        CounterTells(Abs(), pos);
        if Count(mem[table][0]) == 0 {
          pageN' := SkipRest(pageN', level, i, pos, old(Abs()), s, pageN - pageN');
          return true, virt', pageN';
        }
        i := i + 1;
        done := true;
      }
      empty := false;
    }

    /** One turn of the loop, told from where the call began. */
    method UnmapTurn(virt: nat, pageN: nat, level: nat, table: Frame, i: nat, ghost pos: Pos, ghost s0: Space,
        ghost s: nat, ghost gone: nat)
      returns (virt': nat, pageN': nat)
      requires Valid() && pos in at && at[pos] == table && pos.level == level <= 3 && i < 512
      requires table in mem && |mem[table]| == 512
      requires 0 < pageN && (if level > 0 then Whole(virt, level - 1) else Spent(virt))
      requires s + gone == pos.Page(i) + Ahead(virt, level) && s + gone + pageN <= USER_PAGES
      requires IsUnmapped(s0.view, view, s, gone) && KeepsFrom(s0.at, at, level)
      requires NoNewHollow(s0.mem, s0.at, mem, at, pos) && Swept(mem, at, s, s + gone, level)
      modifies this`mem, this`pool, this`at, this`view
      ensures Valid() && KeepsFrom(s0.at, at, level) && pos in at && at[pos] == table
      ensures table in mem && |mem[table]| == 512
      ensures pageN' < pageN && pageN - pageN' == Min(pageN, Span(level) - Ahead(virt, level)) &&
        (pageN' > 0 ==> Spent(virt'))
      ensures IsUnmapped(s0.view, view, s, gone + (pageN - pageN'))
      ensures Abs().Frames() == old(Abs()).Frames()
      ensures NoNewHollow(s0.mem, s0.at, mem, at, pos) && Swept(mem, at, s, s + gone + (pageN - pageN'), level)
      decreases level, 2
    {
      hide Space.Good, Space.Frames, Present, Addr, Flags, Count, Pos.Page, Span, Off, Whole, Spent, IsUnmapped,
        KeepsFrom, Pos.Child, NoNewHollow, Swept;
      ghost var b := Abs();
      virt', pageN' := UnmapEntry(virt, pageN, level, table, i, pos);
      KeepsAll(s0.at, b.at, at, level, pos);
      IsUnmappedMore(s0.view, b.view, view, s, gone, pageN - pageN');
      HollowMore(s0.mem, s0.at, b.mem, b.at, mem, at, pos);
      SweptMore(b.mem, b.at, mem, at, pos, s, s + gone, s + gone + (pageN - pageN'));
      CounterTells(Abs(), pos);
    }

    /** The table has become empty: the rest of it need not be looked at. */
    method SkipRest(pageN: nat, level: nat, i: nat, ghost pos: Pos, ghost s0: Space, ghost s: nat, ghost gone: nat)
      returns (pageN': nat)
      requires Valid() && pos in at && pos.level == level <= 3 && i < 512
      requires at[pos] in mem && |mem[at[pos]]| == 512 && Count(mem[at[pos]][0]) == 0
      requires pageN > 0 ==> s + gone == pos.Page(i + 1)
      requires s + gone + pageN <= USER_PAGES && pos.Page(0) <= s <= s + gone <= pos.Page(512)
      requires IsUnmapped(s0.view, view, s, gone) && Swept(mem, at, s, s + gone, level)
      ensures pageN' <= pageN && IsUnmapped(s0.view, view, s, gone + (pageN - pageN'))
      ensures pageN - pageN' == Min(pageN, pos.Page(512) - (s + gone))
      ensures Swept(mem, at, s, s + gone + (pageN - pageN'), level)
    {
      hide Space.Good, Pos.Page, Span, IsUnmapped, Swept, Count, Pos.Slots, Present;
      EntriesFrom(pos, i);
      var skipped := (PAGE_ENTRIES - i - 1) * Span(level);
      pageN' := if skipped >= pageN then 0 else pageN - skipped;
      NothingMapped(Abs(), pos, s + gone, pageN - pageN');
      IsUnmappedMore(s0.view, view, view, s, gone, pageN - pageN');
      TableBare(Abs(), pos);
      if level > 0 {
        SweptEmpty(Abs(), pos, s, s + gone + (pageN - pageN'));
      } else {
        SweptLeaf(mem, at, s, s + gone + (pageN - pageN'));
      }
    }

    /** Entry i gives up its part of the range. */
    method UnmapEntry(virt: nat, pageN: nat, level: nat, table: Frame, i: nat, ghost pos: Pos)
      returns (virt': nat, pageN': nat)
      requires Valid() && pos in at && at[pos] == table && pos.level == level <= 3 && i < 512
      requires table in mem && |mem[table]| == 512
      requires 0 < pageN && (if level > 0 then Whole(virt, level - 1) else Spent(virt))
      requires pos.Page(i) + Ahead(virt, level) + pageN <= USER_PAGES
      modifies this`mem, this`pool, this`at, this`view
      ensures Valid() && KeepsFrom(old(at), at, level) && pos in at && at[pos] == table
      ensures pageN' < pageN && pageN - pageN' == Min(pageN, Span(level) - Ahead(virt, level)) &&
        (pageN' > 0 ==> Spent(virt'))
      ensures IsUnmapped(old(view), view, pos.Page(i) + Ahead(virt, level), pageN - pageN')
      ensures Abs().Frames() == old(Abs()).Frames()
      ensures NoNewHollow(old(mem), old(at), mem, at, pos)
      ensures Swept(mem, at, pos.Page(i) + Ahead(virt, level), pos.Page(i) + Ahead(virt, level) + (pageN - pageN'),
        level)
      decreases level, 1
    {
      hide Space.Good, Space.Frames, Present, Addr, Flags, Count, Pos.Page, Off, Whole, Spent, IsUnmapped, KeepsFrom,
        Pos.Child, NoNewHollow, Swept;
      PageSteps(pos, i);
      PageOrder(pos, i);
      KeepsSame(at, level);
      SlotBound(Abs(), pos, i);
      virt' := virt;
      if level > 0 {
        Consume(virt, level - 1);
        EntryLeads(Abs(), pos, i);
        if Present(mem[table][i]) {
          virt', pageN' := UnmapChild(virt, pageN, level, table, i, pos);
        } else {
          pageN' := SkipEntry(virt, pageN, level, i, pos);
          virt' := SkipBits(virt, level);
        }
      } else {
        UnmappedNone(view, pos.Page(i));
        ClearEntry(table, i, pos);
        SweptLeaf(mem, at, pos.Page(i), pos.Page(i) + 1);
        pageN' := pageN - 1;
      }
    }

    /** An absent entry: the pages below it are skipped. */
    method SkipEntry(virt: nat, pageN: nat, level: nat, i: nat, ghost pos: Pos) returns (pageN': nat)
      requires Valid() && pos in at && 0 < pos.level == level <= 3 && i < pos.Slots() && pos.Child(i) !in at
      requires 0 < pageN && Off(virt, level - 1) < Span(level)
      ensures pageN' < pageN && pageN - pageN' == Min(pageN, Span(level) - Off(virt, level - 1))
      ensures IsUnmapped(view, view, pos.Page(i) + Off(virt, level - 1), pageN - pageN')
      ensures NoNewHollow(mem, at, mem, at, pos)
      ensures Swept(mem, at, pos.Page(i) + Off(virt, level - 1),
        pos.Page(i) + Off(virt, level - 1) + (pageN - pageN'), level)
    {
      hide Space.Good, Pos.Page, Span, Off, IsUnmapped, NoNewHollow, Swept, Pos.Child;
      var skipped := Span(level) - Off(virt, level - 1);
      pageN' := if skipped >= pageN then 0 else pageN - skipped;
      ghost var a := pos.Page(i) + Off(virt, level - 1);
      PageSteps(pos, i);
      ChildIs(pos, i);
      PageSteps(pos.Child(i), 0);
      NotMapped(Abs(), pos, i, a, pageN - pageN');
      HollowSame(mem, at, pos);
      SweptGone(Abs(), pos.Child(i), a, a + (pageN - pageN'));
    }

    /** A present entry above the leaves: its table gives up the next pages, and goes when empty. */
    method UnmapChild(virt: nat, pageN: nat, level: nat, table: Frame, i: nat, ghost pos: Pos)
      returns (virt': nat, pageN': nat)
      requires Valid() && pos in at && at[pos] == table && 0 < pos.level == level <= 3 && i < pos.Slots() && i < 512
      requires table in mem && |mem[table]| == 512 && Present(mem[table][i])
      requires 0 < pageN && Whole(virt, level - 1) && pos.Page(i) + Off(virt, level - 1) + pageN <= USER_PAGES
      modifies this`mem, this`pool, this`at, this`view
      ensures Valid() && KeepsFrom(old(at), at, level) && pos in at && at[pos] == table
      ensures pageN' <= pageN && pageN - pageN' == Min(pageN, Span(level) - Off(virt, level - 1)) &&
        (pageN' > 0 ==> Spent(virt'))
      ensures IsUnmapped(old(view), view, pos.Page(i) + Off(virt, level - 1), pageN - pageN')
      ensures Abs().Frames() == old(Abs()).Frames()
      ensures NoNewHollow(old(mem), old(at), mem, at, pos)
      ensures Swept(mem, at, pos.Page(i) + Off(virt, level - 1),
        pos.Page(i) + Off(virt, level - 1) + (pageN - pageN'), level)
      decreases level, 0
    {
      hide Space.Good, Space.Frames, Present, Addr, Flags, Count, Pos.Page, Span, Off, Whole, Spent, IsUnmapped,
        KeepsFrom, Pos.Child, EmptyAt, NoNewHollow, Swept, Hollow;
      Consume(virt, level - 1);
      EntryLeads(Abs(), pos, i);
      PageSteps(pos, i);
      ChildIs(pos, i);
      ghost var c, a := pos.Child(i), pos.Page(i) + Off(virt, level - 1);
      var empty;
      empty, virt', pageN' := UnmapRecurse(virt, pageN, level - 1, Frame(Addr(mem[table][i])), c);
      KeepsBelow(old(at), at, level, pos);
      KeepsBelow(old(at), at, level, c);
      EntryLeads(Abs(), pos, i);
      CounterTells(Abs(), c);
      PageSteps(c, 0);
      ghost var b := Abs();
      if empty {
        DropChild(table, i, pos);
        KeepsDrop(b.at, level, c);
        KeepsAll(old(at), b.at, at, level, pos);
        HollowChild(old(mem), old(at), b.mem, b.at, mem, at, c, pos);
        SweptGone(Abs(), c, a, a + (pageN - pageN'));
      } else {
        HollowSame(mem, at, pos);
        NotHollow(Abs(), c);
        HollowChild(old(mem), old(at), b.mem, b.at, mem, at, c, pos);
        SweptChild(Abs(), c, a, a + (pageN - pageN'));
      }
    }

    /** map_internal up to its failure: virt is cut to the page it lies in, and the flat map gains
        the pages of the range, or those before the first one that finds no page for a table. It
        succeeds exactly when there are as many free pages as tables are missing. */
    method MapPages(phys: nat, virt: nat, n: nat, flags: bv64) returns (ok: bool, virt': nat, left: nat)
      requires Valid() && virt < WORD && 0 < n
      requires PageOf(virt) + PageCount(n) <= USER_PAGES
      modifies this`mem, this`pool, this`at, this`view
      ensures Valid() && Abs().Frames() == old(Abs()).Frames() && Extends(old(at), at) && left <= PageCount(n)
      ensures IsMapped(old(view), view, PageOf(virt), PageCount(n) - left, phys, 0, flags)
      ensures ok <==> |Missing(old(at), PageOf(virt), PageCount(n))| <= |old(pool)|
      ensures ok ==> left == 0 && Made(old(Abs()), Abs(), PageOf(virt), PageCount(n))
      ensures !ok ==> pool == [] && 0 < left
      ensures !ok ==>
        Stopped(at, PageOf(virt), PageOf(virt) + (PageCount(n) - left), PageOf(virt) * 4096, 4, virt')
      ensures NewWithin(old(at), at, PageOf(virt), PageOf(virt) + (PageCount(n) - left) + if ok then 0 else 1)
      ensures ok && NoEmptyTable(old(Abs())) ==> NoEmptyTable(Abs())
    {
      hide Space.Good, Space.Frames, Span, Off, FullBut, Extends, Pos.Page, LeafAt, NewWithin, IsMapped, Stopped,
        Missing, Made;
      var pages := PageCount(n);
      ghost var b := Abs();
      RootCall(Abs(), virt);
      FullAnyway(b.mem, b.at, Pos(3, 0));
      ok, virt', left := MapRecurse(phys, PageOf(virt) * 4096, pages, pages, PAGE_LEVELS - 1, pml4, flags, Pos(3, 0));
      if ok {
        RangeMapped(b.view, view, PageOf(virt), pages, phys, flags);
        EnoughPages(b, Abs(), PageOf(virt), pages);
      } else {
        StoppedAt(at, PageOf(virt), PageOf(virt) + (pages - left), PageOf(virt) * 4096, 4, virt');
        TooFewPages(b, Abs(), PageOf(virt), pages, pages - left);
      }
    }

    /** Maps n bytes from phys at virt. When the recursion runs out of pages for tables, the whole
        range is unmapped again, from the start and length the call was given. */
    method MapInternal(phys: nat, virt: nat, n: nat, flags: bv64) returns (ok: bool)
      requires Valid() && virt < WORD && 0 < n
      requires PageOf(virt) + PageCount(n) <= USER_PAGES
      modifies this`mem, this`pool, this`at, this`view
      ensures Valid() && Abs().Frames() == old(Abs()).Frames()
      ensures ok <==> |Missing(old(at), PageOf(virt), PageCount(n))| <= |old(pool)|
      ensures ok ==> view == Mapped(old(view), PageOf(virt), PageCount(n), phys, 0, flags) && Extends(old(at), at)
      ensures ok ==> Made(old(Abs()), Abs(), PageOf(virt), PageCount(n))
      ensures !ok ==> view == Unmapped(old(view), PageOf(virt), PageCount(n)) && SameWhereBoth(old(at), at)
      ensures NoEmptyTable(old(Abs())) ==> NoEmptyTable(Abs())
    {
      hide Space.Good, Space.Frames, Span, Off, Mapped, Unmapped, FullBut, Extends, Pos.Page, LeafAt, SameWhereBoth,
        NewWithin, Swept, NoNewHollow, Stopped, Missing, Made;
      ghost var b := Abs();
      var v', left;
      ok, v', left := MapPages(phys, virt, n, flags);
      if !ok {
        ghost var c := Abs();
        UnmapInternal(virt, n);
        BothWays(b.at, c.at, at);
        MapUndone(b.view, c.view, PageOf(virt), PageCount(n) - left, PageCount(n), phys, flags);
        if NoEmptyTable(b) { RolledBackFull(b, c, Abs(), PageOf(virt), PageCount(n), PageCount(n) - left); }
      }
    }

    /** Unmaps the pages of n bytes at virt, mapped or not. */
    method UnmapInternal(virt: nat, n: nat)
      requires Valid() && virt < WORD && 0 < n
      requires PageOf(virt) + PageCount(n) <= USER_PAGES
      modifies this`mem, this`pool, this`at, this`view
      ensures Valid() && Abs().Frames() == old(Abs()).Frames()
      ensures view == Unmapped(old(view), PageOf(virt), PageCount(n))
      ensures NoEmptyTable(old(Abs())) ==> NoEmptyTable(Abs())
      ensures Extends(at, old(at))
      ensures NoNewHollow(old(mem), old(at), mem, at, Pos(3, 0))
      ensures Swept(mem, at, PageOf(virt), PageOf(virt) + PageCount(n), 3)
    {
      hide Space.Good, Space.Frames, Span, Off, Unmapped, FullBut, Pos.Page, Count, NoNewHollow, Swept;
      ghost var b := Abs();
      RootCall(Abs(), virt);
      var empty, v', left := UnmapRecurse(PageOf(virt) * 4096, PageCount(n), PAGE_LEVELS - 1, pml4, Pos(3, 0));
      if NoEmptyTable(b) { FullStays(b, Abs()); }
    }
  }

  /** (virt_addr & PAGE_ADDR_POS) / PAGE_SIZE */
  function PageOf(virt: nat): nat { (virt % 0x1_0000_0000_0000) / 4096 }

  /** align_up (n, PAGE_SIZE) / PAGE_SIZE */
  function PageCount(n: nat): nat { (n + 4095) / 4096 }

  /** Tables that exist in both are in the same frame. */
  ghost predicate SameWhereBoth(at: Places, at': Places) {
    forall p :: p in at && p in at' ==> at'[p] == at[p]
  }

  lemma BothWays(a: Places, b: Places, c: Places)
    requires Extends(a, b) && Extends(c, b)
    ensures SameWhereBoth(a, c)
  {
  }

  /** Unmapping a whole range undoes mapping the first pages of it. */
  lemma MapUndone(a: map<nat, Leaf>, b: map<nat, Leaf>, first: nat, m: nat, n: nat, phys: nat, flags: bv64)
    requires IsMapped(a, b, first, m, phys, 0, flags) && m <= n
    ensures Unmapped(b, first, n) == Unmapped(a, first, n)
  {
    hide Mapped, Unmapped, LeafAt;
    var u, w := Unmapped(b, first, n), Unmapped(a, first, n);
    forall v: nat ensures (v in u <==> v in w) && (v in u && v in w ==> u[v] == w[v]) {
      MappedAt(a, first, m, phys, 0, flags, v);
      UnmappedAt(a, first, n, v);
      UnmappedAt(b, first, n, v);
    }
  }

  /** After the rollback no table is empty: an old one still has the pages it had, or the range
      passed through it, and the range passed through every new one. */
  lemma RolledBackFull(s: Space, m: Space, t: Space, first: nat, count: nat, done: nat)
    requires s.Good() && t.Good() && NoEmptyTable(s) && done < count
    requires t.view == Unmapped(s.view, first, count)
    requires NewWithin(s.at, m.at, first, first + done + 1) && Extends(t.at, m.at)
    requires Swept(t.mem, t.at, first, first + count, 3)
    ensures NoEmptyTable(t)
  {
    hide Space.Good, Pos.Page, Hollow, Unmapped, FullBut;
    forall q | q in t.at ensures !Hollow(t.mem, t.at, q) {
      if Hollow(t.mem, t.at, q) {
        HollowLevel(t, q);
        if q in s.at {
          var v := PageBelow(s, q);
          PageUnder(q, v);
          UnmappedAt(s.view, first, count, v);
          if v in t.view { PathFull(t, v, q.level); }
        }
      }
    }
    FullIs(t);
  }

  lemma HollowLevel(t: Space, q: Pos)
    requires q in t.at && Hollow(t.mem, t.at, q)
    ensures q.level < 3
  {
  }

  lemma PageUnder(q: Pos, v: nat)
    requires q.level < 3 && TableOf(v, q.level) == q
    ensures q.Page(0) <= v < q.Page(512)
  {
  }

  /** The tables on the way to a mapped page are not empty. */
  lemma PathFull(s: Space, v: nat, level: nat)
    requires s.Good() && v in s.view && level < 3
    ensures TableOf(v, level) in s.at && !Hollow(s.mem, s.at, TableOf(v, level))
  {
    hide Space.Good, Pos.Page, Count, Hollow, TableOf;
    OnPath(s, v, level);
    PageOfTable(v, level);
    var i := EntryTo(TableOf(v, level), v);
    EntryOver(s, TableOf(v, level), i, v);
    NotHollow(s, TableOf(v, level));
  }

  lemma PageOfTable(v: nat, level: nat)
    requires level < 3
    ensures TableOf(v, level).level == level && TableOf(v, level).Page(0) <= v < TableOf(v, level).Page(512)
  {
  }

  ghost predicate NoEmptyTable(s: Space) { FullBut(s.mem, s.at, Pos(3, 0)) }

  lemma RootCall(s: Space, virt: nat)
    requires s.Good()
    ensures Pos(3, 0) in s.at && s.at[Pos(3, 0)] == s.root
    ensures Whole(PageOf(virt) * 4096, 3) && Start(Pos(3, 0), PageOf(virt) * 4096) == PageOf(virt)
    ensures Off(PageOf(virt) * 4096, 3) == PageOf(virt)
    ensures Span(4) > USER_PAGES
  {
    hide TablesRight, EntriesRight, ViewRight, PoolRight, Unit, Off, Whole, PageOf, Pos.Page, Span;
    RootAddress(virt);
  }

  lemma RootAddress(virt: nat)
    ensures Whole(PageOf(virt) * 4096, 3) && Off(PageOf(virt) * 4096, 3) == PageOf(virt)
    ensures Pos(3, 0).Page(0) == 0 && Span(4) > USER_PAGES
  {
    var p := PageOf(virt);
    UniqueMod(p * 4096, BIT48, 0, p * 4096);
    UniqueMod(p * 4096, 4096, p, 0);
  }

  ghost predicate IsUnmapped(view: map<nat, Leaf>, view': map<nat, Leaf>, first: nat, count: nat) {
    view' == Unmapped(view, first, count)
  }

  lemma IsUnmappedMore(a: map<nat, Leaf>, b: map<nat, Leaf>, c: map<nat, Leaf>, first: nat, m: nat, n: nat)
    requires IsUnmapped(a, b, first, m) && IsUnmapped(b, c, first + m, n)
    ensures IsUnmapped(a, c, first, m + n)
  {
    UnmappedMore(a, first, m, n);
  }

  lemma UnmappedNone(view: map<nat, Leaf>, first: nat)
    ensures IsUnmapped(view, view, first, 0)
    ensures IsUnmapped(view, view - {first}, first, 1)
  {
    assert Unmapped(view, first, 1) == Unmapped(view, first, 0) - {first};
  }

  /** Unmapping pages that are not mapped changes nothing. */
  lemma {:induction false} NothingThere(view: map<nat, Leaf>, first: nat, count: nat)
    requires forall v :: first <= v < first + count ==> v !in view
    ensures IsUnmapped(view, view, first, count)
  {
    if count > 0 {
      NothingThere(view, first, count - 1);
      assert view - {first + count - 1} == view;
    }
  }

  lemma KeepsSame(at: Places, level: nat)
    ensures KeepsFrom(at, at, level)
  {
  }

  lemma KeepsAll(a: Places, b: Places, c: Places, level: nat, p: Pos)
    requires KeepsFrom(a, b, level) && KeepsFrom(b, c, level)
    ensures KeepsFrom(a, c, level)
    ensures p in b && p.level >= level ==> p in c && c[p] == b[p]
  {
  }

  lemma KeepsBelow(a: Places, b: Places, level: nat, p: Pos)
    requires level > 0 && KeepsFrom(a, b, level - 1)
    ensures KeepsFrom(a, b, level)
    ensures p in a && p.level >= level - 1 ==> p in b && b[p] == a[p]
  {
  }

  lemma KeepsDrop(at: Places, level: nat, k: Pos)
    requires k.level < level
    ensures KeepsFrom(at, at - {k}, level)
  {
  }

  lemma SlotOf(pos: Pos, i: nat, page: nat)
    requires pos.level <= 3 && i < 512 && pos.Page(i) <= page < pos.Page(i) + Span(pos.level)
    ensures pos.level > 0 ==> TableOf(page, pos.level - 1) == pos.Child(i)
    ensures pos.level == 0 ==> page == pos.Page(i)
  {
    if pos.level > 0 {
      assert pos.Page(i) == (pos.prefix * 512 + i) * Span(pos.level);
      UniqueMod(page, Span(pos.level), pos.prefix * 512 + i, page - pos.Page(i));
    }
  }

  /** The entry over a mapped page is present, so its table's counter is not zero. */
  lemma EntryOver(s: Space, pos: Pos, i: nat, page: nat)
    requires s.Good() && pos in s.at && i < 512 && page in s.view && pos.level <= 3
    requires pos.Page(i) <= page < pos.Page(i) + Span(pos.level)
    ensures i < pos.Slots() && s.at[pos] in s.mem && |s.mem[s.at[pos]]| == 512
    ensures Present(s.mem[s.at[pos]][i]) && Count(s.mem[s.at[pos]][0]) != 0
    ensures pos.level > 0 ==> pos.Child(i) in s.at
  {
    hide Present, Addr, Flags, Count;
    OnPath(s, page, 0);
    if pos.level > 0 { OnPath(s, page, pos.level - 1); }
    SlotBound(s, pos, i);
    SlotOf(pos, i, page);
    OwnFrame(s, pos);
    assert EntryRight(s.mem[s.at[pos]], s.at, s.view, pos, i);
    OccupiedBound(s.mem[s.at[pos]], pos.Slots());
  }

  /** No page below a table whose counter is zero is mapped. */
  lemma NothingMapped(s: Space, pos: Pos, first: nat, count: nat)
    requires s.Good() && pos in s.at && pos.level <= 3 && pos.Page(0) <= first && first + count <= pos.Page(512)
    requires s.at[pos] in s.mem && |s.mem[s.at[pos]]| == 512 && Count(s.mem[s.at[pos]][0]) == 0
    ensures IsUnmapped(s.view, s.view, first, count)
  {
    hide Space.Good, Pos.Page, Count, IsUnmapped;
    forall v | first <= v < first + count ensures v !in s.view {
      if v in s.view {
        var i := EntryTo(pos, v);
        EntryOver(s, pos, i, v);
      }
    }
    NothingThere(s.view, first, count);
  }

  /** No page below an absent entry is mapped. */
  lemma NotMapped(s: Space, pos: Pos, i: nat, first: nat, count: nat)
    requires s.Good() && pos in s.at && 0 < pos.level <= 3 && i < pos.Slots() && i < 512 && pos.Child(i) !in s.at
    requires pos.Page(i) <= first && first + count <= pos.Page(i) + Span(pos.level)
    ensures IsUnmapped(s.view, s.view, first, count)
  {
    hide Space.Good, Pos.Page, IsUnmapped, Span, Pos.Child, Count, Present;
    forall v | first <= v < first + count ensures v !in s.view {
      if v in s.view { EntryOver(s, pos, i, v); }
    }
    NothingThere(s.view, first, count);
  }

  lemma EntriesFrom(pos: Pos, i: nat)
    requires pos.level <= 3 && i < 512
    ensures pos.Page(512) == pos.Page(i + 1) + (PAGE_ENTRIES - i - 1) * Span(pos.level)
  {
  }

  /** A table whose counter is zero has no present entry. */
  lemma TableBare(s: Space, pos: Pos)
    requires s.Good() && pos in s.at && s.at[pos] in s.mem && |s.mem[s.at[pos]]| == 512 &&
      Count(s.mem[s.at[pos]][0]) == 0
    ensures forall i :: 0 <= i < pos.Slots() ==> i < 512 && !Present(s.mem[s.at[pos]][i])
  {
    hide Present, Addr, Flags, Count;
    OwnFrame(s, pos);
    OccupiedBound(s.mem[s.at[pos]], pos.Slots());
  }

  lemma NotHollow(s: Space, pos: Pos)
    requires s.Good() && pos in s.at && s.at[pos] in s.mem && |s.mem[s.at[pos]]| == 512 &&
      Count(s.mem[s.at[pos]][0]) != 0
    ensures !Hollow(s.mem, s.at, pos)
  {
    hide Present, Addr, Flags, Count;
    OwnFrame(s, pos);
  }

  lemma SweptLeaf(mem: Memory, at: Places, first: nat, last: nat)
    ensures Swept(mem, at, first, last, 0)
  {
  }

  lemma FrameRewritten(s: Space, p: Pos, u: seq<bv64>)
    requires s.Good() && p in s.at
    ensures Untouched(s.mem, s.mem[s.at[p] := u], s.at, p)
  {
    hide CounterRight, EntriesRight, ViewRight, PoolRight;
    forall q | q in s.at && q != p ensures s.at[q] in s.mem && s.mem[s.at[p] := u][s.at[q]] == s.mem[s.at[q]] {
      OwnFrame(s, q);
    }
  }

  /** virt_addr <<= PAGE_TABLE_BITS * page_level */
  function SkipBits(virt: nat, level: nat): (r: nat)
    requires 0 < level <= 3 && Whole(virt, level - 1)
    ensures Spent(r)
  {
    SkipSpends(virt, level);
    (virt * Span(level)) % WORD
  }

  lemma SkipSpends(virt: nat, level: nat)
    requires 0 < level <= 3 && Whole(virt, level - 1)
    ensures Spent((virt * Span(level)) % WORD)
  {
    SpanSteps(level);
    var q := virt / Unit(level - 1);
    assert virt == q * Unit(level - 1);
    assert virt * Span(level) == q * BIT48 by {
      assert q * Unit(level - 1) * Span(level) == q * (Span(level) * Unit(level - 1));
    }
    var w := virt * Span(level) / WORD;
    assert (virt * Span(level)) % WORD == q * BIT48 - w * WORD;
    UniqueMod((virt * Span(level)) % WORD, BIT48, q - w * 65536, 0);
  }

  /** A table that is not empty has a mapped page below it. */
  lemma {:induction false} PageBelow(s: Space, p: Pos) returns (page: nat)
    requires s.Good() && NoEmptyTable(s) && p in s.at && p.level < 3
    ensures page in s.view && TableOf(page, p.level) == p
    decreases p.level
  {
    hide ViewRight, PoolRight, TablesRight, Present, Addr, Flags;
    OwnFrame(s, p);
    OccupiedBound(s.mem[s.at[p]], 512);
    var i :| 0 <= i < 512 && Present(s.mem[s.at[p]][i]);
    assert EntryRight(s.mem[s.at[p]], s.at, s.view, p, i);
    if p.level == 0 {
      page := p.Page(i);
      LeafIs(p, i);
    } else {
      ChildIs(p, i);
      page := PageBelow(s, p.Child(i));
      ParentOf(page, p.level);
    }
  }

  /** The counter of a table tells whether it is empty. */
  lemma CounterTells(s: Space, pos: Pos)
    requires s.Good() && pos in s.at
    ensures s.at[pos] in s.mem && |s.mem[s.at[pos]]| == 512 && pos.level <= 3
    ensures pos.level < 3 && Count(s.mem[s.at[pos]][0]) == 0 ==> EmptyAt(s, pos)
    ensures Count(s.mem[s.at[pos]][0]) != 0 ==> (FullBut(s.mem, s.at, pos) ==> FullBut(s.mem, s.at, Pos(3, 0)))
  {
    hide Present, Addr, Flags, Count;
    OwnFrame(s, pos);
    OccupiedBound(s.mem[s.at[pos]], pos.Slots());
  }

  /** Without the table below an entry, mapping stops before the pages there. */
  lemma StoppedNow(s: Space, pos: Pos, i: nat, page: nat, virt: nat)
    requires s.Good() && pos in s.at && 0 < pos.level <= 3 && i < pos.Slots() && i < 512
    requires s.at[pos] in s.mem && |s.mem[s.at[pos]]| == 512 && !Present(s.mem[s.at[pos]][i])
    requires pos.Page(i) <= page < pos.Page(i) + Span(pos.level) && virt < WORD
    ensures Stopped(s.at, page, page, virt, pos.level, virt)
  {
    hide Space.Good, Spent;
    EntryLeads(s, pos, i);
    LowestIs(s, pos, i, page);
  }

  lemma LowestIs(s: Space, pos: Pos, i: nat, page: nat)
    requires s.Good() && pos in s.at && 0 < pos.level <= 3 && i < pos.Slots() && i < 512 && pos.Child(i) !in s.at
    requires pos.Page(i) <= page < pos.Page(i) + Span(pos.level)
    ensures Lowest(s.at, page) == pos.level && TableOf(page, 0) !in s.at && TableOf(page, pos.level) == pos
  {
    hide Space.Good, Pos.Page, Pos.Child, Span, TableOf;
    SlotOf(pos, i, page);
    ChildIs(pos, i);
    TableParent(page, pos.level - 1);
    TableAbsent(s, page, pos.level - 1);
  }

  /** Without a table on the way to a page there is none further down. */
  lemma {:induction false} TableAbsent(s: Space, page: nat, level: nat)
    requires s.Good() && level < 3 && TableOf(page, level) !in s.at
    ensures forall l :: 0 <= l <= level ==> TableOf(page, l) !in s.at
    decreases level
  {
    hide Space.Good;
    if level > 0 {
      if TableOf(page, level - 1) in s.at {
        ParentExists(s, TableOf(page, level - 1));
        TableParent(page, level - 1);
      }
      TableAbsent(s, page, level - 1);
    }
  }

  lemma TableParent(page: nat, level: nat)
    requires level < 3
    ensures TableOf(page, level).Parent() == TableOf(page, level + 1)
  {
  }

  lemma StoppedAt(at: Places, first: nat, next: nat, virt: nat, k: nat, virt': nat)
    requires Stopped(at, first, next, virt, k, virt')
    ensures TableOf(next, 0) !in at
  {
  }

  lemma RangeMapped(a: map<nat, Leaf>, b: map<nat, Leaf>, first: nat, count: nat, phys: nat, flags: bv64)
    requires IsMapped(a, b, first, count, phys, 0, flags)
    ensures forall v :: first <= v < first + count ==> v in b
  {
    hide Mapped;
    forall v | first <= v < first + count ensures v in b { MappedAt(a, first, count, phys, 0, flags, v); }
  }

  lemma StoppedFirst(at: Places, s: nat, next: nat, virt: nat, level: nat, virt': nat)
    requires Stopped(at, s, next, Shift(virt), level, virt') && level <= 3 && Whole(virt, level)
    ensures Stopped(at, s, next, virt, level + 1, virt')
  {
    Consume(virt, level);
    hide Shift, Spent, Whole, Lowest, TableOf;
  }

  lemma StoppedLater(at: Places, s: nat, mid: nat, next: nat, v: nat, virt: nat, level: nat, virt': nat)
    requires Stopped(at, mid, next, v, level, virt') && s < mid <= next && Spent(v)
    ensures Stopped(at, s, next, virt, level + 1, virt')
  {
    hide Spent, Lowest, TableOf;
  }

  lemma RootStart(t: seq<bv64>, k: nat)
    requires |t| == 512 && 0 < k < 512 && Count(t[0]) == 0 && CountedOnce(t)
    requires forall i :: 0 <= i < k ==> !Present(t[i])
    ensures CounterRight(t, k)
  {
    OccupiedBound(t, k);
  }

  lemma WiderStill(a: Places, b: Places, first: nat, last: nat)
    requires NewWithin(a, b, first, last) && first <= last
    ensures NewWithin(a, b, first, last + 1)
  {
    hide Pos.Page;
  }

  lemma ExtendsSame(at: Places)
    ensures Extends(at, at)
  {
  }

  lemma ExtendsAll(a: Places, b: Places, c: Places, p: Pos)
    requires Extends(a, b) && Extends(b, c)
    ensures Extends(a, c)
    ensures p in b ==> p in c && c[p] == b[p]
  {
  }

  ghost predicate IsMapped(view: map<nat, Leaf>, view': map<nat, Leaf>, first: nat, count: nat, phys: nat, k: nat,
      flags: bv64)
  {
    view' == Mapped(view, first, count, phys, k, flags)
  }

  lemma MappedNone(view: map<nat, Leaf>, first: nat, phys: nat, k: nat, flags: bv64)
    ensures IsMapped(view, view, first, 0, phys, k, flags)
  {
  }

  lemma IsMappedMore(a: map<nat, Leaf>, b: map<nat, Leaf>, c: map<nat, Leaf>, first: nat, m: nat, n: nat, phys: nat,
      k: nat, flags: bv64)
    requires IsMapped(a, b, first, m, phys, k, flags) && IsMapped(b, c, first + m, n, phys, k + m, flags)
    ensures IsMapped(a, c, first, m + n, phys, k, flags)
  {
    MappedMore(a, first, m, n, phys, k, flags);
  }

  lemma IsMappedNext(a: map<nat, Leaf>, b: map<nat, Leaf>, first: nat, m: nat, phys: nat, k: nat, flags: bv64)
    requires IsMapped(a, b, first, m, phys, k, flags)
    ensures IsMapped(a, b[first + m := Leaf(Addr(FrameAt(phys, k + m)), Flags(flags))],
                     first, m + 1, phys, k, flags)
  {
    hide FrameAt, Addr, Flags;
  }

  lemma PageOrder(pos: Pos, i: nat)
    requires pos.level <= 3
    ensures i <= 512 ==> pos.Page(i) <= pos.Page(512)
    ensures pos.level == 0 ==> pos.Page(i) == pos.Page(0) + i && Span(0) == 1
  {
    MulMonotone(i, 512, Span(pos.level));
  }

  lemma InTable(pos: Pos, virt: nat, i: nat)
    requires pos.level <= 3 && Off(virt, pos.level) < Span(pos.level + 1)
    ensures Start(pos, virt) <= pos.Page(512)
  {
    PageSteps(pos, 0);
  }

  /** Inside the user half the root's kernel slot is never reached. */
  lemma SlotBound(s: Space, pos: Pos, i: nat)
    requires s.Good() && pos in s.at
    ensures pos.level <= 3
    ensures i < 512 && pos.Page(i) < USER_PAGES ==> i < pos.Slots()
    ensures pos.level == 3 ==> pos.Page(512) > USER_PAGES
  {
    OwnFrame(s, pos);
  }

  lemma FullNow(mem: Memory, at: Places, p: Pos, i: nat)
    requires p in at && at[p] in mem && |mem[at[p]]| == 512 && i < 512 && Present(mem[at[p]][i])
    ensures FullBut(mem, at, p) ==> FullBut(mem, at, Pos(3, 0))
  {
    OccupiedBound(mem[at[p]], 512);
  }

  lemma FullAnyway(mem: Memory, at: Places, p: Pos)
    ensures FullBut(mem, at, Pos(3, 0)) ==> FullBut(mem, at, p)
  {
  }

  lemma EntryLeads(s: Space, p: Pos, i: nat)
    requires s.Good() && p in s.at && p.level > 0 && i < p.Slots()
    ensures s.at[p] in s.mem && |s.mem[s.at[p]]| == 512 && i < 512
    ensures Present(s.mem[s.at[p]][i]) <==> p.Child(i) in s.at
    ensures p.Child(i) in s.at ==> Frame(Addr(s.mem[s.at[p]][i])) == s.at[p.Child(i)]
  {
    OwnFrame(s, p);
    assert EntryRight(s.mem[s.at[p]], s.at, s.view, p, i);
  }
}
