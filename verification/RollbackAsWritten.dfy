/** map_internal without repairs: when it fails it unmaps with the address and the length its
    recursion has left over. Which failures leave things as they were. */
module RollbackAsWritten {
  import opened Bits
  import opened PageEntry
  import opened PageTables
  import opened PageWalk
  import opened EmptyTables
  import opened TablePool
  import opened AddressSpace
  import opened UnmapAsWritten

  // ---------------------------------------------------------------- the address left over

  /** A page number of 36 bits shifted by nine bits, k times. */
  function ShiftPages(q: nat, k: nat): nat
    decreases k
  {
    if k == 0 then q else ShiftPages((q * 512) % 0x10_0000_0000, k - 1)
  }

  lemma ShiftOnce(v: nat)
    requires v < WORD && v % 4096 == 0
    ensures PageOf(Shift(v)) == (PageOf(v) * 512) % 0x10_0000_0000 && Shift(v) < WORD && Shift(v) % 4096 == 0
  {
    var p := PageOf(v);
    ModOfMod(v, BIT48 / 4096, 4096);
    assert v % BIT48 == p * 4096;
    var q := v / BIT48;
    assert v * 512 == (q * 512) * BIT48 + (p * 512) * 4096;
    var r := (p * 512) % 0x10_0000_0000;
    var w := (p * 512) / 0x10_0000_0000;
    assert (p * 512) * 4096 == w * BIT48 + r * 4096;
    UniqueMod(v * 512, BIT48, q * 512 + w, r * 4096);
    ModOfMod(v * 512, 65536, BIT48);
    ModOfMod(v * 512, WORD / 4096, 4096);
    UniqueMod(v * 512, 4096, v / 4096 * 512, 0);
  }

  lemma {:induction false} ShiftsPages(v: nat, k: nat)
    requires v < WORD && v % 4096 == 0
    ensures PageOf(Shifts(v, k)) == ShiftPages(PageOf(v), k)
    decreases k
  {
    hide PageOf, Shift;
    if k > 0 {
      ShiftOnce(v);
      ShiftsPages(Shift(v), k - 1);
    }
  }

  lemma SpentPage(v: nat)
    requires Spent(v)
    ensures PageOf(v) == 0
  {
  }

  lemma PageBack(first: nat)
    requires first < USER_PAGES
    ensures PageOf(first * 4096) == first && first * 4096 < WORD && (first * 4096) % 4096 == 0
  {
  }

  // ---------------------------------------------------------------- what the descent has made

  /** The table exists once the free pages have gone into the way to page first, down to level low. */
  ghost predicate Kept(b: Space, first: nat, low: nat, p: Pos) {
    p in b.at || (low <= p.level < 3 && p == TableOf(first, p.level))
  }

  /** The last table made, which is empty. */
  ghost predicate Bare(b: Space, first: nat, low: nat, p: Pos) {
    p !in b.at && p == TableOf(first, low)
  }

  lemma LowestMeans(s: Space, first: nat)
    requires s.Good()
    ensures forall l :: 0 <= l < 3 ==> (TableOf(first, l) in s.at <==> Lowest(s.at, first) <= l)
  {
    hide Space.Good, TableOf;
    if TableOf(first, 1) !in s.at { TableAbsent(s, first, 1); }
    if TableOf(first, 2) !in s.at { TableAbsent(s, first, 2); }
  }

  /** The tables of the way from one level up to below another. */
  ghost function Way(first: nat, low: nat, high: nat): set<Pos> {
    set l | low <= l < high :: TableOf(first, l)
  }

  lemma WayHas(first: nat, low: nat, high: nat, p: Pos)
    ensures p in Way(first, low, high) <==> low <= p.level < high && p == TableOf(first, p.level)
  {
    if low <= p.level < high && p == TableOf(first, p.level) { assert p in Way(first, low, high); }
  }

  lemma {:induction false} WaySize(first: nat, low: nat, high: nat)
    requires low <= high
    ensures |Way(first, low, high)| == high - low
    decreases high - low
  {
    hide Span;
    if low < high {
      WaySize(first, low, high - 1);
      assert Way(first, low, high) == Way(first, low, high - 1) + {TableOf(first, high - 1)};
      assert TableOf(first, high - 1) !in Way(first, low, high - 1);
    }
  }

  /** The tables missing for a page are those below the lowest one on its way. */
  lemma MissingFirst(s: Space, first: nat)
    requires s.Good()
    ensures Missing(s.at, first, 1) == Way(first, 0, Lowest(s.at, first))
    ensures |Missing(s.at, first, 1)| == Lowest(s.at, first)
  {
    hide Space.Good, TableOf, Lowest;
    LowestMeans(s, first);
    AtMost3(s.at, first);
    WaySize(first, 0, Lowest(s.at, first));
    var m, n := Missing(s.at, first, 1), Way(first, 0, Lowest(s.at, first));
    forall p | p in m ensures p in n {
      var v, l :| first <= v < first + 1 && 0 <= l < 3 && TableOf(v, l) !in s.at && p == TableOf(v, l);
      assert v == first;
    }
    forall p | p in n ensures p in m {
      var l :| 0 <= l < Lowest(s.at, first) && p == TableOf(first, l);
      assert first <= first < first + 1;
    }
  }

  lemma DescendedSet(b: Space, s: Space, first: nat)
    requires b.Good() && s.Good() && Extends(b.at, s.at) && NewWithin(b.at, s.at, first, first + 1)
    ensures s.at.Keys - b.at.Keys == Way(first, Lowest(s.at, first), Lowest(b.at, first))
  {
    hide Space.Good, NewWithin, TableOf, Missing, Lowest, Way;
    NewAreMissing(b, s, first, 1);
    MissingFirst(b, first);
    LowestMeans(b, first);
    LowestMeans(s, first);
    AtMost3(b.at, first);
    forall p ensures p in s.at.Keys - b.at.Keys <==> p in Way(first, Lowest(s.at, first), Lowest(b.at, first)) {
      WayHas(first, 0, Lowest(b.at, first), p);
      WayHas(first, Lowest(s.at, first), Lowest(b.at, first), p);
    }
  }

  /** Where a descent that maps nothing gets to with the pages there are. */
  lemma Descended(b: Space, s: Space, first: nat)
    requires b.Good() && s.Good() && b.Frames() == s.Frames() && Extends(b.at, s.at) && s.pool == []
    requires NewWithin(b.at, s.at, first, first + 1) && TableOf(first, 0) !in s.at
    ensures 0 < Lowest(s.at, first) && Lowest(b.at, first) == Lowest(s.at, first) + |b.pool|
    ensures forall p :: p in s.at <==> Kept(b, first, Lowest(s.at, first), p)
  {
    hide Space.Good, Space.Frames, NewWithin, TableOf, Kept, Way;
    PoolSpent(b, s);
    DescendedSet(b, s, first);
    LowestOrder(b, s, first);
    WaySize(first, Lowest(s.at, first), Lowest(b.at, first));
    forall p ensures p in s.at <==> Kept(b, first, Lowest(s.at, first), p) { KeptIs(b, s, first, p); }
  }

  lemma LowestOrder(b: Space, s: Space, first: nat)
    requires b.Good() && s.Good() && Extends(b.at, s.at)
    ensures Lowest(s.at, first) <= Lowest(b.at, first)
  {
    hide Space.Good, TableOf;
  }

  lemma KeptIs(b: Space, s: Space, first: nat, p: Pos)
    requires s.Good() && Extends(b.at, s.at)
    requires s.at.Keys - b.at.Keys == Way(first, Lowest(s.at, first), Lowest(b.at, first))
    ensures p in s.at <==> Kept(b, first, Lowest(s.at, first), p)
  {
    hide Space.Good, Lowest;
    LowestMeans(s, first);
    var low, high := Lowest(s.at, first), Lowest(b.at, first);
    if p in s.at && p !in b.at {
      assert p in s.at.Keys - b.at.Keys;
      var l :| low <= l < high && p == TableOf(first, l);
      AtMost3(b.at, first);
    }
  }

  lemma AtMost3(at: Places, first: nat)
    ensures Lowest(at, first) <= 3
  {
  }

  // ---------------------------------------------------------------- which failures do no harm

  /** In the tables left by a descent to level low, unmapping c pages from the page q on, passed down
      to a table of a level below the root, frees nothing and takes no page out. */
  ghost predicate Passes(b: Space, first: nat, low: nat, q: nat, c: nat, level: nat) {
    && (q / Span(level)) % 512 == 0 && !Bare(b, first, low, TableOf(q, level))
    && if level == 0 then c == 1 && q !in b.view
       else if Kept(b, first, low, TableOf(q, level - 1)) then Passes(b, first, low, q, c, level - 1)
       else c <= Span(level)
  }

  /** The page at which the rollback starts when the free pages do not reach page first. */
  function Astray(first: nat, low: nat): nat
    requires low <= 4
  {
    ShiftPages(first, 4 - low)
  }

  /** A failing call for n bytes at page first leaves the flat map as it was in a good space: there
      are fewer free pages than tables missing on the way to the first page, so that nothing is
      mapped, and the rollback passes through. */
  ghost predicate Spared(b: Space, first: nat, n: nat) {
    var high := Lowest(b.at, first);
    |b.pool| < high &&
    var q := Astray(first, high - |b.pool|);
    (Kept(b, first, high - |b.pool|, TableOf(q, 2)) ==>
      Passes(b, first, high - |b.pool|, q, PageCount(PageCount(n)), 2))
  }

  /** The rollback is not led into the kernel's entry of the root. */
  ghost predicate Inside(b: Space, first: nat) {
    var high := Lowest(b.at, first);
    |b.pool| < high ==> Astray(first, high - |b.pool|) < USER_PAGES
  }

  /** A table below the root that exists has a counter above zero unless it is the last one made. */
  lemma CountedAfter(b: Space, s: Space, first: nat, p: Pos)
    requires b.Good() && NoEmptyTable(b) && s.Good() && s.view == b.view && p in s.at && p.level < 3
    requires 0 < Lowest(s.at, first) && forall q :: q in s.at <==> Kept(b, first, Lowest(s.at, first), q)
    ensures Counted(s, p) <==> !Bare(b, first, Lowest(s.at, first), p)
  {
    hide Space.Good, NoEmptyTable, Kept, Count, TableOf, Lowest;
    LowestMeans(s, first);
    AtMost3(s.at, first);
    if p in b.at {
      var v := PageBelow(b, p);
      PathCountedAt(s, v, p);
    } else {
      NewIsWay(b, s, first, p);
      LevelOf(first, Lowest(s.at, first));
      if p.level > Lowest(s.at, first) {
        ChildCounted(s, first, p);
      } else {
        BareCounted(b, s, first, p);
      }
    }
  }

  lemma PathCountedAt(s: Space, v: nat, p: Pos)
    requires s.Good() && v in s.view && p.level < 3 && TableOf(v, p.level) == p
    ensures Counted(s, p)
  {
    hide Space.Good, Count, TableOf, Pos.Page;
    OnPath(s, v, p.level);
    PageOfTable(v, p.level);
    var i := EntryTo(p, v);
    EntryOver(s, p, i, v);
  }

  lemma NewIsWay(b: Space, s: Space, first: nat, p: Pos)
    requires p in s.at && p !in b.at && forall q :: q in s.at <==> Kept(b, first, Lowest(s.at, first), q)
    ensures p == TableOf(first, p.level) && Lowest(s.at, first) <= p.level < 3
  {
    hide TableOf, Lowest;
  }

  /** A table on the way that has the next one below it. */
  lemma ChildCounted(s: Space, first: nat, p: Pos)
    requires s.Good() && p in s.at && 0 < p.level < 3 && p == TableOf(first, p.level) &&
      TableOf(first, p.level - 1) in s.at
    ensures Counted(s, p)
  {
    hide Space.Good, Present, Count, Pos.Child, TableOf, Pos.Page;
    PageOfTable(first, p.level);
    var i := EntryTo(p, first);
    SlotOf(p, i, first);
    ChildPresent(s, p, i);
    OwnFrame(s, p);
    PresentHere(s, p, i);
  }

  lemma PresentHere(s: Space, p: Pos, i: nat)
    requires s.Good() && p in s.at && i < p.Slots() && i < 512
    requires s.at[p] in s.mem && |s.mem[s.at[p]]| == 512 && Present(s.mem[s.at[p]][i])
    ensures Counted(s, p)
  {
    hide Present, Addr, Flags, Count;
    OwnFrame(s, p);
    PresentCounted(s.mem[s.at[p]], p.Slots(), i);
  }

  /** The last table made has nothing below it. */
  lemma BareCounted(b: Space, s: Space, first: nat, p: Pos)
    requires b.Good() && s.Good() && p in s.at && p !in b.at && p == TableOf(first, p.level)
    requires 0 < p.level == Lowest(s.at, first) < 3
    requires forall q :: q in s.at <==> Kept(b, first, Lowest(s.at, first), q)
    ensures !Counted(s, p)
  {
    hide Space.Good, Present, Count, Pos.Child, TableOf, Lowest, Kept;
    OwnFrame(s, p);
    forall i | 0 <= i < 512 ensures !Present(s.mem[s.at[p]][i]) {
      EntryLeads(s, p, i);
      ChildIs(p, i);
      if p.Child(i) in s.at { NotKept(b, s, first, p, p.Child(i)); }
    }
    AllAbsent(s, p);
  }

  lemma NotKept(b: Space, s: Space, first: nat, p: Pos, c: Pos)
    requires b.Good() && p !in b.at && c.level < 3 && c.Parent() == p && c.level + 1 == p.level == Lowest(s.at, first)
    ensures !Kept(b, first, Lowest(s.at, first), c)
  {
    hide Space.Good, Lowest;
    if c in b.at { ParentExists(b, c); }
  }

  lemma AllAbsent(s: Space, p: Pos)
    requires s.Good() && p in s.at && s.at[p] in s.mem && |s.mem[s.at[p]]| == 512
    requires forall i :: 0 <= i < 512 ==> !Present(s.mem[s.at[p]][i])
    ensures !Counted(s, p)
  {
    hide Present, Addr, Flags, Count;
    OwnFrame(s, p);
    OccupiedBound(s.mem[s.at[p]], p.Slots());
  }

  /** Below the root, passing is being quiet and taking no page out. */
  lemma {:induction false} PassesIs(b: Space, s: Space, first: nat, q: nat, c: nat, level: nat)
    requires b.Good() && NoEmptyTable(b) && s.Good() && s.view == b.view && level < 3 && TableOf(q, level) in s.at
    requires 0 < Lowest(s.at, first) && forall p :: p in s.at <==> Kept(b, first, Lowest(s.at, first), p)
    ensures Passes(b, first, Lowest(s.at, first), q, c, level) <==>
      Quiet(s, q, c, level) && (Reaches(s, q, level) ==> q !in s.view)
    decreases level
  {
    hide Space.Good, NoEmptyTable, Kept, Counted, TableOf, Lowest, Span, Bare;
    LevelOf(q, level);
    CountedAfter(b, s, first, TableOf(q, level));
    if level > 0 {
      ReachesOn(s, q, level);
      if TableOf(q, level - 1) in s.at { PassesIs(b, s, first, q, c, level - 1); }
    } else {
      LeafShared(b, s, first, q);
    }
  }

  lemma LevelOf(q: nat, level: nat)
    ensures TableOf(q, level).level == level
  {
  }

  /** A leaf table, which a descent that maps nothing does not make, holds some other page. */
  lemma LeafShared(b: Space, s: Space, first: nat, q: nat)
    requires b.Good() && NoEmptyTable(b) && s.view == b.view && TableOf(q, 0) in s.at && 0 < Lowest(s.at, first)
    requires forall p :: p in s.at <==> Kept(b, first, Lowest(s.at, first), p)
    ensures q !in s.view ==> Shared(s, q)
    ensures !Bare(b, first, Lowest(s.at, first), TableOf(q, 0))
  {
    hide Space.Good, NoEmptyTable, Lowest, Span;
    LevelOf(q, 0);
    LevelOf(first, Lowest(s.at, first));
    assert TableOf(q, 0) in b.at;
    var v := PageBelow(b, TableOf(q, 0));
  }

  /** After a descent that mapped nothing, the rollback leaves the map as it was in a good space
      exactly when it passes through. */
  lemma SparedIs(b: Space, s: Space, first: nat, q: nat, c: nat)
    requires b.Good() && NoEmptyTable(b) && s.Good() && s.view == b.view && c <= Span(3)
    requires 0 < Lowest(s.at, first) && forall p :: p in s.at <==> Kept(b, first, Lowest(s.at, first), p)
    ensures (Kept(b, first, Lowest(s.at, first), TableOf(q, 2)) ==> Passes(b, first, Lowest(s.at, first), q, c, 2)) <==>
      RootQuiet(s, q, c) && s.view - Gone(s, q, c) == b.view
  {
    hide Space.Good, NoEmptyTable, Kept, Passes, Quiet, TableOf, Lowest, Counted;
    ReachesOn(s, q, 3);
    if TableOf(q, 2) in s.at { PassesIs(b, s, first, q, c, 2); }
    assert Target(s, q, c) == q;
    if Reaches(s, q, 3) && q in s.view { assert q !in s.view - {q}; }
  }

  /** A descent that has mapped the first page needed no more pages than there were. */
  lemma EnoughForFirst(b: Space, s: Space, first: nat)
    requires b.Good() && s.Good() && b.Frames() == s.Frames() && Extends(b.at, s.at) && first in s.view
    ensures Lowest(b.at, first) <= |b.pool|
  {
    hide Space.Good, Space.Frames, TableOf, Missing, Lowest;
    PoolSpent(b, s);
    MissingFirst(b, first);
    MissingMade(b.at, s, first, 1);
    SizeMonotone(Missing(b.at, first, 1), s.at.Keys - b.at.Keys);
  }

  /** Pages that have been mapped before the failure stay mapped. */
  lemma StaysMapped(b: Space, s: Space, first: nat, done: nat, q: nat, c: nat)
    requires s.Good() && 0 < done && RootQuiet(s, q, c)
    requires first + done - 1 in s.view && first + done - 1 !in b.view && TableOf(first + done, 0) !in s.at
    ensures s.view - Gone(s, q, c) != b.view
  {
    hide Space.Good, TableOf, Counted, Shared;
    var last := first + done - 1;
    OnPath(s, last, 0);
    LastOfTable(last);
    if last in Gone(s, q, c) {
      QuietFirst(s, q, c);
    }
    assert last in s.view - Gone(s, q, c);
  }

  lemma LastOfTable(v: nat)
    requires TableOf(v, 0) != TableOf(v + 1, 0)
    ensures v % 512 == 511
  {
  }

  /** A page that a quiet call takes out is the first of its table. */
  lemma QuietFirst(s: Space, q: nat, c: nat)
    requires RootQuiet(s, q, c) && Gone(s, q, c) != {}
    ensures Gone(s, q, c) == {Target(s, q, c)} && Target(s, q, c) % 512 == 0
  {
    hide Counted, Shared, TableOf;
    var v := Target(s, q, c);
    ReachesOn(s, v, 3);
    ReachesOn(s, v, 2);
    ReachesOn(s, v, 1);
    var k := if Skips(s, q, c) then c - Span(3) else c;
    assert Quiet(s, v, k, 2);
    assert Quiet(s, v, k, 1);
    assert Quiet(s, v, k, 0);
  }

  // ---------------------------------------------------------------- map_internal

  /** The memory is a good space with this flat map. */
  ghost predicate AsBefore(m: PageMap, view: map<nat, Leaf>)
    reads m
  {
    exists t: Space :: IsNow(m, t) && t.Good() && t.view == view
  }

  /** What a failed recursion has done when it stopped left pages short. */
  ghost predicate Failed(b: Space, s: Space, first: nat, n: nat, left: nat, virt': nat, phys: nat, flags: bv64) {
    && b.Good() && s.Good() && b.Frames() == s.Frames() && Extends(b.at, s.at) && s.pool == []
    && first + PageCount(n) <= USER_PAGES && 0 < left <= PageCount(n)
    && IsMapped(b.view, s.view, first, PageCount(n) - left, phys, 0, flags)
    && Stopped(s.at, first, first + (PageCount(n) - left), first * 4096, 4, virt')
    && NewWithin(b.at, s.at, first, first + (PageCount(n) - left) + 1)
  }

  /** map_internal as it stands, on a range where nothing is mapped: the rollback gets the address
      and the number of pages that the recursion has left, the latter as a number of bytes. A
      failed call leaves the flat map as it was in a good space if and only if it is spared. When
      the rollback is led astray into the kernel's tables, the model stops before it. */
  method MapInternal(m: PageMap, phys: nat, virt: nat, n: nat, flags: bv64)
    returns (ok: bool, stray: bool, ghost s: Space, virt': nat, left: nat)
    requires m.Valid() && NoEmptyTable(m.Abs()) && virt < WORD && 0 < n && PageOf(virt) + PageCount(n) <= USER_PAGES
    requires forall v :: PageOf(virt) <= v < PageOf(virt) + PageCount(n) ==> v !in m.view
    modifies m`mem, m`pool, m`at, m`view
    ensures ok <==> |Missing(old(m.at), PageOf(virt), PageCount(n))| <= |old(m.pool)|
    ensures ok ==> m.Valid() && NoEmptyTable(m.Abs()) && m.Abs().Frames() == old(m.Abs()).Frames()
    ensures ok ==> Made(old(m.Abs()), m.Abs(), PageOf(virt), PageCount(n))
    ensures ok ==> m.view == Mapped(old(m.view), PageOf(virt), PageCount(n), phys, 0, flags)
    ensures !ok ==> Failed(old(m.Abs()), s, PageOf(virt), n, left, virt', phys, flags) && s.root == m.pml4
    ensures !ok && !stray ==> PageOf(virt') < USER_PAGES && Left(m, s, PageOf(virt'), PageCount(left))
    ensures !ok && !stray ==> Wired(s, m.mem) && TablesFreed(s, s.pool, m.pool)
    ensures !ok && !stray && !RootQuiet(s, PageOf(virt'), PageCount(left)) ==> |m.pool| > |s.pool|
    ensures !ok && !stray ==> (AsBefore(m, old(m.view)) <==> Spared(old(m.Abs()), PageOf(virt), n))
    ensures !ok ==> (stray <==> !Inside(old(m.Abs()), PageOf(virt)))
  {
    hide Space.Good, Space.Frames, NoEmptyTable, Mapped, Missing, Stopped, NewWithin, Extends, Spared, RootQuiet,
      NoOther, PageOf, PageCount, IsMapped, Made, Left, AsBefore, Inside, Wired, TablesFreed;
    ghost var b := m.Abs();
    stray := false;
    ok, virt', left := m.MapPages(phys, virt, n, flags);
    s := m.Abs();
    if ok {
      IsMappedMeans(b.view, m.view, PageOf(virt), PageCount(n), phys, flags);
      return;
    }
    FailedAt(b, s, PageOf(virt), n, left, virt', phys, flags);
    if PageOf(virt') >= USER_PAGES {
      stray := true;
      return;
    }
    WiredStart(s);
    UnmapOn(m, virt', left, s);
    Decides(m, b, s, PageOf(virt), n, left, virt', phys, flags);
  }

  lemma IsMappedMeans(a: map<nat, Leaf>, b: map<nat, Leaf>, first: nat, count: nat, phys: nat, flags: bv64)
    requires IsMapped(a, b, first, count, phys, 0, flags)
    ensures b == Mapped(a, first, count, phys, 0, flags)
  {
  }

  /** The rollback starts at page 0 when pages have been mapped, and astray when none has. */
  lemma FailedAt(b: Space, s: Space, first: nat, n: nat, left: nat, virt': nat, phys: nat, flags: bv64)
    requires Failed(b, s, first, n, left, virt', phys, flags)
    ensures virt' < WORD && (left < PageCount(n) ==> PageOf(virt') == 0)
    ensures Inside(b, first) <==> PageOf(virt') < USER_PAGES
    ensures left == PageCount(n) ==> 0 < Lowest(s.at, first) && Lowest(b.at, first) == Lowest(s.at, first) + |b.pool|
    ensures left == PageCount(n) ==> PageOf(virt') == Astray(first, Lowest(s.at, first)) && s.view == b.view
    ensures left == PageCount(n) ==> forall p :: p in s.at <==> Kept(b, first, Lowest(s.at, first), p)
  {
    hide Space.Good, Space.Frames, NewWithin, Extends, Shifts, ShiftPages, TableOf, Kept, Lowest, Mapped, Spent;
    AtMost3(s.at, first);
    PageBack(first);
    if left == PageCount(n) {
      Descended(b, s, first);
      ShiftsPages(first * 4096, 4 - Lowest(s.at, first));
      NothingMappedYet(b.view, s.view, first, phys, flags);
    } else {
      SpentPage(virt');
      DoneMapped(b.view, s.view, first, PageCount(n) - left, phys, flags);
      EnoughForFirst(b, s, first);
    }
  }

  lemma NothingMappedYet(a: map<nat, Leaf>, b: map<nat, Leaf>, first: nat, phys: nat, flags: bv64)
    requires IsMapped(a, b, first, 0, phys, 0, flags)
    ensures b == a
  {
  }

  lemma Decides(m: PageMap, b: Space, s: Space, first: nat, n: nat, left: nat, virt': nat, phys: nat, flags: bv64)
    requires Failed(b, s, first, n, left, virt', phys, flags) && NoEmptyTable(b)
    requires forall v :: first <= v < first + PageCount(n) ==> v !in b.view
    requires Left(m, s, PageOf(virt'), PageCount(left))
    ensures AsBefore(m, b.view) <==> Spared(b, first, n)
  {
    hide Space.Good, Space.Frames, NoEmptyTable, NewWithin, Extends, TableOf, Kept, Lowest, Mapped, IsMapped, Passes,
      RootQuiet, Gone, RootWiped, PageOf, Astray, Stopped, Inside, Left;
    FailedAt(b, s, first, n, left, virt', phys, flags);
    LeftMeans(m, s, PageOf(virt'), PageCount(left), b.view);
    if left == PageCount(n) {
      FewPages(left);
      SparedIs(b, s, first, PageOf(virt'), PageCount(left));
    } else {
      var done := PageCount(n) - left;
      DoneMapped(b.view, s.view, first, done, phys, flags);
      EnoughForFirst(b, s, first);
      StoppedAt(s.at, first, first + done, first * 4096, 4, virt');
      if RootQuiet(s, PageOf(virt'), PageCount(left)) {
        StaysMapped(b, s, first, done, PageOf(virt'), PageCount(left));
      }
    }
  }

  lemma LeftMeans(m: PageMap, s: Space, q: nat, c: nat, view: map<nat, Leaf>)
    requires Left(m, s, q, c)
    ensures AsBefore(m, view) <==> RootQuiet(s, q, c) && s.view - Gone(s, q, c) == view
  {
    hide Space.Good, RootQuiet, Gone, RootWiped;
    if RootQuiet(s, q, c) {
      var t := s.(mem := RootWiped(s, q, c), view := s.view - Gone(s, q, c));
      assert IsNow(m, t) && t.Good();
    }
  }

  lemma FewPages(n: nat)
    requires n <= USER_PAGES
    ensures PageCount(n) <= Span(3)
  {
  }

  lemma DoneMapped(a: map<nat, Leaf>, b: map<nat, Leaf>, first: nat, done: nat, phys: nat, flags: bv64)
    requires IsMapped(a, b, first, done, phys, 0, flags) && 0 < done
    ensures first in b && first + done - 1 in b
  {
    RangeMapped(a, b, first, done, phys, flags);
  }

  // ---------------------------------------------------------------- two calls that go wrong

  /** A new space with one page for tables: mapping a page at the lowest address that is handed out
      makes one table of the way and frees it again through an entry that stays. */
  method OneFreePage(m: PageMap, phys: nat, flags: bv64)
    requires m.Valid() && m.view == map[] && m.at.Keys == {Pos(3, 0)} && |m.pool| == 1
    modifies m`mem, m`pool, m`at, m`view
    ensures forall t: Space :: IsNow(m, t) ==> !t.Good()
  {
    hide Space.Good, Space.Frames, Missing, Spared, RootQuiet, Left, AsBefore, Failed, Wired, TablesFreed, FullBut;
    assert PageOf(0x1000) == 1 && PageCount(0x1000) == 1;
    NewSpace(m.Abs());
    ghost var b := m.Abs();
    var ok, stray, virt', left; ghost var s;
    ok, stray, s, virt', left := MapInternal(m, phys, 0x1000, 0x1000, flags);
    OneTooFew(b);
    OneFreed(b, s, left, virt', phys, flags);
    LeftBad(m, s, PageOf(virt'), PageCount(left));
  }

  lemma NewSpace(s: Space)
    requires s.Good() && s.at.Keys == {Pos(3, 0)}
    ensures NoEmptyTable(s) && Lowest(s.at, 1) == 3 && Lowest(s.at, 512) == 3
  {
    hide Space.Good;
  }

  lemma OneTooFew(b: Space)
    requires b.Good() && Lowest(b.at, 1) == 3 && |b.pool| == 1
    ensures |Missing(b.at, 1, 1)| > |b.pool| && Inside(b, 1)
  {
    hide Space.Good, Lowest;
    MissingFirst(b, 1);
    assert Astray(1, 2) == 0x40000;
  }

  lemma OneFreed(b: Space, s: Space, left: nat, virt': nat, phys: nat, flags: bv64)
    requires Failed(b, s, 1, 0x1000, left, virt', phys, flags) && Lowest(b.at, 1) == 3 && |b.pool| == 1
    ensures !RootQuiet(s, PageOf(virt'), PageCount(left))
  {
    hide Space.Good, Space.Frames, IsMapped, Stopped, NewWithin, Extends, Lowest, PageOf;
    assert PageCount(0x1000) == 1;
    FailedAt(b, s, 1, 0x1000, left, virt', phys, flags);
    assert Astray(1, 2) == 0x40000;
    assert Kept(b, 1, 2, TableOf(0x40000, 2));
    assert (0x40000 / Span(2)) % 512 == 1;
  }

  lemma LeftBad(m: PageMap, s: Space, q: nat, c: nat)
    requires Left(m, s, q, c) && !RootQuiet(s, q, c)
    ensures forall t: Space :: IsNow(m, t) ==> !t.Good()
  {
    hide RootQuiet;
  }

  /** A new space with three pages for tables: mapping 512 pages there fails after 511, and the
      rollback leaves them all mapped. */
  method ThreeFreePages(m: PageMap, phys: nat, flags: bv64)
    requires m.Valid() && m.view == map[] && m.at.Keys == {Pos(3, 0)} && |m.pool| == 3
    modifies m`mem, m`pool, m`at, m`view
    ensures exists t: Space :: IsNow(m, t) && t.Good() && t.view == Mapped(map[], 1, 511, phys, 0, flags)
  {
    hide Space.Good, Space.Frames, Missing, Spared, RootQuiet, Left, Failed, Wired, TablesFreed, FullBut, Mapped, Gone;
    assert PageOf(0x1000) == 1 && PageCount(0x20_0000) == 512;
    NewSpace(m.Abs());
    ghost var b := m.Abs();
    var ok, stray, virt', left; ghost var s;
    ok, stray, s, virt', left := MapInternal(m, phys, 0x1000, 0x20_0000, flags);
    ThreeTooFew(b);
    LastPage(b, s, left, virt', phys, flags);
    LeftMeans(m, s, 0, 1, s.view);
  }

  lemma ThreeTooFew(b: Space)
    requires b.Good() && b.at.Keys == {Pos(3, 0)} && |b.pool| == 3
    ensures |Missing(b.at, 1, 512)| > |b.pool| && Inside(b, 1)
  {
    hide Space.Good;
    var four := {TableOf(1, 0), TableOf(1, 1), TableOf(1, 2), TableOf(512, 0)};
    assert TableOf(1, 0) == Pos(0, 0) && TableOf(1, 1) == Pos(1, 0) && TableOf(1, 2) == Pos(2, 0) &&
      TableOf(512, 0) == Pos(0, 1);
    assert four <= Missing(b.at, 1, 512);
    SizeMonotone(four, Missing(b.at, 1, 512));
  }

  lemma LastPage(b: Space, s: Space, left: nat, virt': nat, phys: nat, flags: bv64)
    requires Failed(b, s, 1, 0x20_0000, left, virt', phys, flags) && b.view == map[] && b.at.Keys == {Pos(3, 0)} &&
      |b.pool| == 3
    ensures PageOf(virt') == 0 && PageCount(left) == 1
    ensures s.view == Mapped(map[], 1, 511, phys, 0, flags)
    ensures RootQuiet(s, 0, 1) && s.view - Gone(s, 0, 1) == s.view
  {
    hide Space.Good, Space.Frames, NewWithin, Extends, Mapped, Spent;
    assert PageCount(0x20_0000) == 512;
    NewSpace(b);
    FailedAt(b, s, 1, 0x20_0000, left, virt', phys, flags);
    var done := 512 - left;
    DoneMapped(b.view, s.view, 1, done, phys, flags);
    OnPath(s, 1, 0);
    assert TableOf(1, 0) == Pos(0, 0);
    assert TableOf(1 + done, 0) != Pos(0, 0);
    assert left == 1;
    FirstQuiet(s);
    NotMappedZero(phys, flags);
  }

  lemma FirstQuiet(s: Space)
    requires s.Good() && 1 in s.view
    ensures RootQuiet(s, 0, 1) && Target(s, 0, 1) == 0
  {
    hide Space.Good, Counted;
    PathReaches(s, 1);
    PathCounted(s, 1, 1);
    PathCounted(s, 1, 2);
    assert TableOf(0, 0) == TableOf(1, 0) && TableOf(0, 1) == TableOf(1, 1) && TableOf(0, 2) == TableOf(1, 2);
    assert Shared(s, 0);
    assert Quiet(s, 0, 1, 0);
    assert Quiet(s, 0, 1, 1);
  }

  lemma NotMappedZero(phys: nat, flags: bv64)
    ensures 0 !in Mapped(map[], 1, 511, phys, 0, flags)
  {
    MappedAt(map[], 1, 511, phys, 0, flags, 0);
  }
}
