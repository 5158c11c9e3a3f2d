/** Mapping and unmapping ranges of pages, against the flat map the hardware walk computes. */
module PageWalk {
  import opened Bits
  import opened PageEntry
  import opened PageTables
  import opened Words

  // ---------------------------------------------------------------- the address

  const BIT39: nat := 0x80_0000_0000
  const BIT48: nat := 0x1_0000_0000_0000

  /** get_bits (virt_addr, 39, 47) */
  function Index(virt: nat): nat { (virt % BIT48) / BIT39 }

  /** virt_addr <<= 9 */
  function Shift(virt: nat): nat { (virt * 512) % WORD }

  /** Bytes below one page at the level's position in the shifted address. */
  function Unit(level: nat): nat {
    match level
    case 0 => BIT39
    case 1 => 0x4000_0000
    case 2 => 0x20_0000
    case _ => 0x1000
  }

  /** Pages from the start of a table of the given level to the address left in virt. */
  function Off(virt: nat, level: nat): nat { (virt % BIT48) / Unit(level) }

  /** Below the page offset at this level the address is zero. */
  predicate Whole(virt: nat, level: nat) {
    virt < WORD && virt % Unit(level) == 0
  }

  /** All nine-bit indices have been used up. */
  predicate Spent(virt: nat) { virt < WORD && virt % BIT48 == 0 }

  lemma ShiftLow(virt: nat)
    requires virt < WORD
    ensures Shift(virt) < WORD && Shift(virt) % BIT48 == (virt % BIT39) * 512
    ensures virt % BIT48 == Index(virt) * BIT39 + virt % BIT39 && Index(virt) < 512
  {
    var q, r := virt / BIT39, virt % BIT39;
    var w := (virt * 512) / WORD;
    assert virt * 512 == q * BIT48 + r * 512;
    assert Shift(virt) == (q - w * 65536) * BIT48 + r * 512;
    UniqueMod(Shift(virt), BIT48, q - w * 65536, r * 512);
    UniqueMod(virt, BIT48, q / 512, (q % 512) * BIT39 + r);
    UniqueMod((q % 512) * BIT39 + r, BIT39, q % 512, r);
  }

  lemma UnitSteps(level: nat)
    requires level <= 3
    ensures BIT39 == Span(level) * Unit(level) && BIT48 == Span(level + 1) * Unit(level)
    ensures level > 0 ==> Unit(level - 1) == 512 * Unit(level)
    ensures Unit(level) > 0
  {
  }

  lemma DivParts(i: nat, m: nat, u: nat, r: nat)
    requires u > 0 && m > 0 && r < m * u
    ensures (i * (m * u) + r) / u == i * m + r / u && r / u < m
  {
    DivMod(r, u);
    var t := r / u;
    assert i * (m * u) + r == (i * m + t) * u + r % u by {
      assert (i * m + t) * u == (i * m) * u + t * u;
      assert i * (m * u) == (i * m) * u;
    }
    UniqueMod(i * (m * u) + r, u, i * m + t, r % u);
    MulMonotone(m, t, u);
  }

  lemma DivScaled(r: nat, u: nat)
    requires u > 0
    ensures (r * 512) / (512 * u) == r / u && (r * 512) % (512 * u) == (r % u) * 512
  {
    DivMod(r, u);
    var q, t := r / u, r % u;
    assert r * 512 == q * (512 * u) + t * 512 by { assert q * (512 * u) == (q * u) * 512; }
    UniqueMod(r * 512, 512 * u, q, t * 512);
  }

  lemma ModOfMod(x: nat, m: nat, u: nat)
    requires u > 0 && m > 0
    ensures (x % (m * u)) % u == x % u
  {
    DivMod(x, u);
    DivMod(x, m * u);
    var q := x / (m * u);
    assert q * (m * u) == (q * m) * u;
    DivMod(x % (m * u), u);
    var t := (x % (m * u)) / u;
    assert x == (q * m + t) * u + (x % (m * u)) % u by { assert (q * m + t) * u == (q * m) * u + t * u; }
    UniqueMod(x, u, q * m + t, (x % (m * u)) % u);
  }

  lemma Consume(virt: nat, level: nat)
    requires Whole(virt, level) && level <= 3
    ensures Index(virt) < 512 && Shift(virt) < WORD && virt < WORD
    ensures Index(virt) * Span(level) <= Off(virt, level) < Span(level + 1)
    ensures level > 0 ==>
      Off(virt, level) == Index(virt) * Span(level) + Off(Shift(virt), level - 1) && Whole(Shift(virt), level - 1)
    ensures level == 0 ==> Off(virt, 0) == Index(virt)
    ensures level == 0 || Spent(virt) ==> Spent(Shift(virt))
  {
    var i, r, u := Index(virt), virt % BIT39, Unit(level);
    ShiftLow(virt);
    UnitSteps(level);
    hide Span, Unit, Index, Shift;
    DivParts(i, Span(level), u, r);
    MulMonotone(i + 1, 512, Span(level));
    SpanSteps(level);
    DivScaled(r, u);
    ModOfMod(virt, Span(level), u);
    ModOfMod(virt, 512, BIT39);
    if level > 0 { ModOfMod(Shift(virt), Span(level), Unit(level - 1)); }
  }

  lemma SpanSteps(level: nat)
    requires level <= 3
    ensures Span(level + 1) == 512 * Span(level) && Span(level) > 0
    ensures level > 0 ==> BIT48 == Span(level) * Unit(level - 1)
  {
  }

  lemma SpentIsWhole(virt: nat, level: nat)
    requires Spent(virt) && level <= 3
    ensures Whole(virt, level) && Off(virt, level) == 0
  {
    UnitSteps(level);
    ModOfMod(virt, Span(level + 1), Unit(level));
  }

  lemma PageSteps(pos: Pos, i: nat)
    requires pos.level <= 3
    ensures pos.Page(i + 1) == pos.Page(i) + Span(pos.level)
    ensures pos.Page(0) + i * Span(pos.level) == pos.Page(i)
    ensures pos.Page(512) == pos.Page(0) + Span(pos.level + 1)
    ensures pos.level > 0 && i < 512 ==> pos.Child(i).Page(0) == pos.Page(i)
  {
  }

  // ---------------------------------------------------------------- the flat map

  /** phys_addr + PAGE_SIZE * k - kernel_vma, modulo 2^64: the physical address of the mapping's page k. */
  function FrameNumber(phys: nat, k: nat): nat {
    (phys + PAGE_SIZE * k + (WORD - KERNEL_BASE)) % WORD
  }

  function FrameAt(phys: nat, k: nat): bv64 {
    Word(FrameNumber(phys, k))
  }

  /** What the leaf entry of page k says. */
  function LeafAt(phys: nat, k: nat, flags: bv64): Leaf {
    Leaf(Addr(FrameAt(phys, k)), Flags(flags))
  }

  /** The map after pages first, first + 1, ... have been given frames k, k + 1, ... */
  ghost function Mapped(view: map<nat, Leaf>, first: nat, count: nat, phys: nat, k: nat, flags: bv64): map<nat, Leaf>
  {
    if count == 0 then view
    else Mapped(view, first, count - 1, phys, k, flags)[first + count - 1 := LeafAt(phys, k + count - 1, flags)]
  }

  ghost function Unmapped(view: map<nat, Leaf>, first: nat, count: nat): map<nat, Leaf> {
    if count == 0 then view else Unmapped(view, first, count - 1) - {first + count - 1}
  }

  /** What Mapped means page by page. */
  lemma {:induction false} MappedAt(view: map<nat, Leaf>, first: nat, count: nat, phys: nat, k: nat, flags: bv64,
      v: nat)
    ensures v in Mapped(view, first, count, phys, k, flags) <==> v in view || first <= v < first + count
    ensures first <= v < first + count ==>
      Mapped(view, first, count, phys, k, flags)[v] == LeafAt(phys, k + (v - first), flags)
    ensures v in view && !(first <= v < first + count) ==> Mapped(view, first, count, phys, k, flags)[v] == view[v]
  {
    hide LeafAt;
    if count > 0 { MappedAt(view, first, count - 1, phys, k, flags, v); }
  }

  lemma {:induction false} UnmappedAt(view: map<nat, Leaf>, first: nat, count: nat, v: nat)
    ensures v in Unmapped(view, first, count) <==> v in view && !(first <= v < first + count)
    ensures v in Unmapped(view, first, count) ==> Unmapped(view, first, count)[v] == view[v]
  {
    if count > 0 { UnmappedAt(view, first, count - 1, v); }
  }

  lemma {:induction false} MappedMore(view: map<nat, Leaf>, first: nat, c: nat, d: nat, phys: nat, k: nat, flags: bv64)
    ensures Mapped(Mapped(view, first, c, phys, k, flags), first + c, d, phys, k + c, flags) ==
      Mapped(view, first, c + d, phys, k, flags)
    decreases d
  {
    hide LeafAt;
    if d > 0 { MappedMore(view, first, c, d - 1, phys, k, flags); }
  }

  lemma {:induction false} UnmappedMore(view: map<nat, Leaf>, first: nat, c: nat, d: nat)
    ensures Unmapped(Unmapped(view, first, c), first + c, d) == Unmapped(view, first, c + d)
    decreases d
  {
    if d > 0 { UnmappedMore(view, first, c, d - 1); }
  }

  /** Unmapping what was mapped where nothing was mapped before restores the map. */
  lemma UnmapUndoesMap(view: map<nat, Leaf>, first: nat, count: nat, phys: nat, k: nat, flags: bv64)
    requires forall v :: first <= v < first + count ==> v !in view
    ensures Unmapped(Mapped(view, first, count, phys, k, flags), first, count) == view
  {
    hide LeafAt, Mapped, Unmapped;
    var m := Mapped(view, first, count, phys, k, flags);
    var u := Unmapped(m, first, count);
    forall v ensures (v in u <==> v in view) && (v in view ==> u[v] == view[v]) {
      if v >= 0 { MappedAt(view, first, count, phys, k, flags, v); UnmappedAt(m, first, count, v); }
    }
  }

  // ---------------------------------------------------------------- the hardware walk

  /** 4-level paging as the processor does it: each level's nine bits pick an entry, an
      absent entry ends the walk, and the address bits of a present one lead on. */
  function Walk(mem: map<Frame, seq<bv64>>, table: Frame, level: nat, page: nat): Option<Leaf>
    decreases level
  {
    var i := (page / Span(level)) % 512;
    if table !in mem || |mem[table]| != 512 || !Present(mem[table][i]) then None
    else
      var e := mem[table][i];
      if level == 0 then Some(Leaf(Addr(e), Flags(e))) else Walk(mem, Frame(Addr(e)), level - 1, page)
  }

  lemma PathSteps(page: nat, level: nat)
    requires page < USER_PAGES && level <= 3
    ensures var p := TableOf(page, level); var i := (page / Span(level)) % 512;
      && i < p.Slots()
      && (level > 0 ==> p.Child(i) == TableOf(page, level - 1))
      && (level == 0 ==> p.Page(i) == page)
    ensures TableOf(page, 3) == Pos(3, 0)
  {
  }

  /** The entry a page's path takes out of a table. */
  lemma PathEntry(s: Space, page: nat, level: nat)
    requires s.Good() && page < USER_PAGES && level <= 3 && TableOf(page, level) in s.at
    ensures var f, i := s.at[TableOf(page, level)], (page / Span(level)) % 512;
      && f in s.mem && |s.mem[f]| == 512
      && (level > 0 ==> (Present(s.mem[f][i]) <==> TableOf(page, level - 1) in s.at))
      && (level > 0 && Present(s.mem[f][i]) ==> Frame(Addr(s.mem[f][i])) == s.at[TableOf(page, level - 1)])
      && (level > 0 && Present(s.mem[f][i]) ==> Flags(s.mem[f][i]) == V_ALL_PERMISSIONS)
      && (level == 0 ==> (Present(s.mem[f][i]) <==> page in s.view))
      && (level == 0 && Present(s.mem[f][i]) ==> s.view[page] == Leaf(Addr(s.mem[f][i]), Flags(s.mem[f][i])))
  {
    var p, i := TableOf(page, level), (page / Span(level)) % 512;
    PathSteps(page, level);
    OwnFrame(s, p);
    assert EntryRight(s.mem[s.at[p]], s.at, s.view, p, i);
    hide Space.Good, TableOf, Present, Addr, Flags, Pos.Child, Pos.Page, Span, CounterRight;
  }

  /** The walk from any table on a page's path reads the flat map. */
  lemma {:induction false} WalkFrom(s: Space, page: nat, level: nat)
    requires s.Good() && page < USER_PAGES && level <= 3 && TableOf(page, level) in s.at
    ensures Walk(s.mem, s.at[TableOf(page, level)], level, page) == if page in s.view then Some(s.view[page]) else None
    decreases level
  {
    hide Space.Good, TableOf, Present, Addr, Flags, Span;
    PathEntry(s, page, level);
    if level > 0 {
      if TableOf(page, level - 1) in s.at {
        WalkFrom(s, page, level - 1);
      } else {
        NotBelow(s, page, level - 1);
      }
    }
  }

  /** Without the table of one level, the page is not mapped. */
  lemma {:induction false} NotBelow(s: Space, page: nat, level: nat)
    requires s.Good() && page < USER_PAGES && level < 3 && TableOf(page, level) !in s.at
    ensures page !in s.view
    decreases level
  {
    PathSteps(page, level);
    hide TablesRight, EntriesRight, PoolRight, Span;
    if level > 0 {
      NoOrphans(s, TableOf(page, level), (page / Span(level)) % 512);
      NotBelow(s, page, level - 1);
    }
  }

  /** The hardware's walk from the root computes exactly the flat map of the user half. */
  lemma WalkIsView(s: Space, page: nat)
    requires s.Good() && page < USER_PAGES
    ensures Walk(s.mem, s.root, 3, page) == if page in s.view then Some(s.view[page]) else None
  {
    PathSteps(page, 3);
    hide TablesRight, EntriesRight, PoolRight, ViewRight, Walk;
    WalkFrom(s, page, 3);
  }

  // ---------------------------------------------------------------- what the walk allows

  /** What an entry allows: bit 1 is write, bit 2 is user, bit 63 is execute-disable. */
  datatype Rights = Rights(write: bool, user: bool, noExecute: bool)

  function EntryRights(e: bv64): Rights {
    Rights(e & 0x2 != 0, e & 0x4 != 0, e & 0x8000_0000_0000_0000 != 0)
  }

  /** A page may be written, or used by user code, if every entry on the way allows it, and be
      executed unless one of them forbids it. */
  function WalkRights(mem: map<Frame, seq<bv64>>, table: Frame, level: nat, page: nat): Option<Rights>
    decreases level
  {
    var i := (page / Span(level)) % 512;
    if table !in mem || |mem[table]| != 512 || !Present(mem[table][i]) then None
    else
      var e := mem[table][i];
      if level == 0 then Some(EntryRights(e))
      else match WalkRights(mem, Frame(Addr(e)), level - 1, page)
        case None => None
        case Some(r) =>
          var o := EntryRights(e);
          Some(Rights(o.write && r.write, o.user && r.user, o.noExecute || r.noExecute))
  }

  /** Rights are among the flags an entry keeps, and those of entries above the leaves forbid nothing. */
  lemma FlagRights(e: bv64)
    ensures EntryRights(Flags(e)) == EntryRights(e)
    ensures Flags(e) == V_ALL_PERMISSIONS ==> EntryRights(e) == Rights(true, true, false)
  {
  }

  lemma PathRights(s: Space, page: nat, level: nat)
    requires s.Good() && page < USER_PAGES && level <= 3 && TableOf(page, level) in s.at
    ensures var f, i := s.at[TableOf(page, level)], (page / Span(level)) % 512;
      && f in s.mem && |s.mem[f]| == 512
      && (level > 0 && Present(s.mem[f][i]) ==> EntryRights(s.mem[f][i]) == Rights(true, true, false))
      && (level == 0 && page in s.view ==> EntryRights(s.mem[f][i]) == EntryRights(s.view[page].flags))
  {
    PathEntry(s, page, level);
    FlagRights(s.mem[s.at[TableOf(page, level)]][(page / Span(level)) % 512]);
    hide Space.Good, TableOf, Present, Addr, Flags, EntryRights;
  }

  lemma {:induction false} RightsFrom(s: Space, page: nat, level: nat)
    requires s.Good() && page < USER_PAGES && level <= 3 && TableOf(page, level) in s.at
    ensures WalkRights(s.mem, s.at[TableOf(page, level)], level, page) ==
      if page in s.view then Some(EntryRights(s.view[page].flags)) else None
    decreases level
  {
    hide Space.Good, TableOf, Present, Addr, Flags, Span, EntryRights;
    PathEntry(s, page, level);
    PathRights(s, page, level);
    if level > 0 {
      if TableOf(page, level - 1) in s.at {
        RightsFrom(s, page, level - 1);
      } else {
        NotBelow(s, page, level - 1);
      }
    }
  }

  /** What may be done with a page is what its leaf's flags say. */
  lemma RightsAre(s: Space, page: nat)
    requires s.Good() && page < USER_PAGES
    ensures WalkRights(s.mem, s.root, 3, page) ==
      if page in s.view then Some(EntryRights(s.view[page].flags)) else None
  {
    PathSteps(page, 3);
    hide TablesRight, EntriesRight, PoolRight, ViewRight, WalkRights, EntryRights;
    RightsFrom(s, page, 3);
  }

  /** The physical address of a byte: the frame's address bits, and the offset in the page. */
  function Translate(mem: map<Frame, seq<bv64>>, root: Frame, address: nat): Option<nat> {
    match Walk(mem, root, 3, (address % BIT48) / 4096)
    case None => None
    case Some(l) => Some(Value(l.addr, 48) + address % 4096)
  }

  /** Frame k of a mapping is k pages behind the one phys is in, less kernel_vma, modulo 2^48. */
  lemma LeafValue(phys: nat, k: nat, flags: bv64)
    ensures Value(LeafAt(phys, k, flags).addr, 48) ==
      (phys - phys % 4096 + 4096 * k + 0x80_0000_0000) % 0x1_0000_0000_0000
    ensures EntryRights(LeafAt(phys, k, flags).flags) == EntryRights(flags)
  {
    hide Value, Word, EntryRights;
    FlagRights(flags);
    AddrValue(FrameNumber(phys, k));
    FramePage(phys, k);
  }

  lemma FramePage(phys: nat, k: nat)
    ensures var n := FrameNumber(phys, k);
      (n - n % 4096) % BIT48 == (phys - phys % 4096 + 4096 * k + 0x80_0000_0000) % BIT48
  {
    var x := phys + PAGE_SIZE * k + (WORD - KERNEL_BASE);
    var m, r := x - x % 4096, x % 4096;
    UniqueMod(x, 4096, phys / 4096 + k + 0x800_0000, phys % 4096);
    ModOfMod(x, 0x10_0000_0000_0000, 4096);
    var n, q := x % WORD, x / WORD;
    assert m == q * WORD + (n - r);
    UniqueMod(m, WORD, q, n - r);
    ModOfMod(m, 65536, BIT48);
  }
}
