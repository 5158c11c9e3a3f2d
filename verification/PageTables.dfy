/** 4-level page tables: a tree of 512-entry tables in physical memory, mapped and unmapped
    by a walk that consumes the virtual address nine bits a level. */
module PageTables {
  import opened PageEntry

  const PAGE_LEVELS: nat := 4
  const PAGE_ENTRIES: nat := 512
  /** V_WRITE | V_USER */
  const V_ALL_PERMISSIONS: bv64 := 6
  const V_WRITE: bv64 := 2
  const MINUS_ONE: bv64 := 0xffff_ffff_ffff_ffff
  /** Entry of the root that leads to the tables every address space shares. */
  const KERNEL_SLOT: nat := 511

  /** Pages below one entry of a table of the given level; Span(level + 1) is the whole table. */
  function Span(level: nat): nat {
    match level
    case 0 => 1
    case 1 => 512
    case 2 => 262144
    case 3 => 134217728
    case _ => 68719476736
  }

  /** First page of the half the kernel slot leaves to the user. */
  const USER_PAGES: nat := 68585259008

  /** A table's place in the tree: its level and the index path that leads to it. */
  datatype Pos = Pos(level: nat, prefix: nat) {
    function Child(i: nat): Pos
      requires level > 0
    {
      Pos(level - 1, prefix * 512 + i)
    }

    function Parent(): Pos { Pos(level + 1, prefix / 512) }

    function Slot(): nat { prefix % 512 }

    /** Entries the address space owns. */
    function Slots(): nat { if level == 3 then KERNEL_SLOT else PAGE_ENTRIES }

    /** First page below entry i. */
    function Page(i: nat): nat { prefix * Span(level + 1) + i * Span(level) }
  }

  function TableOf(page: nat, level: nat): Pos { Pos(level, page / Span(level + 1)) }

  /** Where a page is mapped: the frame's physical address and the flags. */
  datatype Leaf = Leaf(addr: bv64, flags: bv64)

  /** A page of physical memory that holds a table. */
  datatype Frame = Frame(addr: bv64)

  lemma AllPermissions()
    ensures Flags(V_ALL_PERMISSIONS) == V_ALL_PERMISSIONS
  {
  }

  // ---------------------------------------------------------------- one table

  function Occupied(t: seq<bv64>, n: nat): nat
    requires n <= |t|
  {
    if n == 0 then 0 else Occupied(t, n - 1) + if Present(t[n - 1]) then 1 else 0
  }

  lemma OccupiedBound(t: seq<bv64>, n: nat)
    requires n <= |t|
    ensures Occupied(t, n) <= n
    ensures Occupied(t, n) == 0 <==> forall i :: 0 <= i < n ==> !Present(t[i])
  {
    hide Present;
  }

  lemma PresentCounted(t: seq<bv64>, n: nat, i: nat)
    requires i < n <= |t| && Present(t[i])
    ensures Occupied(t, n) > 0
  {
    OccupiedBound(t, n);
  }

  lemma OccupiedSame(t: seq<bv64>, u: seq<bv64>, n: nat)
    requires n <= |t| == |u| && forall j :: 0 <= j < n ==> Present(u[j]) == Present(t[j])
    ensures Occupied(u, n) == Occupied(t, n)
  {
    hide Present;
  }

  lemma OccupiedChange(t: seq<bv64>, u: seq<bv64>, n: nat, i: nat)
    requires i < n <= |t| == |u| && forall j :: 0 <= j < n && j != i ==> Present(u[j]) == Present(t[j])
    ensures Occupied(u, n) == Occupied(t, n) + (if Present(u[i]) then 1 else 0) - (if Present(t[i]) then 1 else 0)
  {
    hide Present;
    if i == n - 1 { OccupiedSame(t, u, n - 1); }
  }

  /** Only entry 0 carries a count. */
  ghost predicate CountedOnce(t: seq<bv64>) {
    forall i :: 0 < i < |t| ==> Count(t[i]) == 0
  }

  ghost predicate CounterRight(t: seq<bv64>, slots: nat) {
    |t| == 512 && slots <= 512 && Count(t[0]) == Occupied(t, slots) && CountedOnce(t)
  }

  function Bump(t: seq<bv64>, n: bv64): seq<bv64>
    requires |t| > 0
  {
    t[0 := PageCounterAdd(t[0], n)]
  }

  function WithEntry(t: seq<bv64>, i: nat, n: bv64, flags: bv64): seq<bv64>
    requires i < |t|
  {
    t[i := PageSet(t[i], i, n, flags)]
  }

  function WithoutEntry(t: seq<bv64>, i: nat): seq<bv64>
    requires i < |t|
  {
    t[i := PageUnset(t[i], i)]
  }

  ghost predicate SameData(a: bv64, b: bv64) {
    Present(a) == Present(b) && Addr(a) == Addr(b) && Flags(a) == Flags(b)
  }

  /** Entry i of u holds a page, the rest reads as in t, and the counter is right. */
  ghost predicate Stored(t: seq<bv64>, u: seq<bv64>, slots: nat, i: nat, n: bv64, flags: bv64)
    requires i < 512
  {
    && |u| == 512 && CounterRight(u, slots)
    && Present(u[i]) && Addr(u[i]) == Addr(n) && Flags(u[i]) == Flags(flags)
    && (|t| == 512 && forall j :: 0 <= j < 512 && j != i ==> SameData(u[j], t[j]))
  }

  /** Entry i of u is absent, the rest reads as in t, and the counter is right. */
  ghost predicate Cleared(t: seq<bv64>, u: seq<bv64>, slots: nat, i: nat)
    requires i < 512
  {
    && |u| == 512 && CounterRight(u, slots) && !Present(u[i])
    && (|t| == 512 && forall j :: 0 <= j < 512 && j != i ==> SameData(u[j], t[j]))
  }

  /** map_internal_recurse above the leaves: page_set, then the counter. */
  lemma StoreThenCount(t: seq<bv64>, slots: nat, i: nat, n: bv64, flags: bv64)
    requires CounterRight(t, slots) && i < slots && !Present(t[i])
    ensures Stored(t, Bump(WithEntry(t, i, n, flags), 1), slots, i, n, flags)
  {
    hide PageSet, PageCounterAdd, Present, Addr, Flags, Count, Occupied;
    var s := WithEntry(t, i, n, flags);
    var u := Bump(s, 1);
    PageSetIs(t[i], i, n, flags);
    OccupiedChange(t, s, slots, i);
    OccupiedBound(s, slots);
    CounterUp(s[0]);
    OccupiedSame(s, u, slots);
  }

  /** map_internal_recurse at the leaves: the counter, when the entry is new, then page_set. */
  lemma CountThenStore(t: seq<bv64>, slots: nat, i: nat, n: bv64, flags: bv64)
    requires CounterRight(t, slots) && i < slots
    ensures Stored(t, WithEntry(if Present(t[i]) then t else Bump(t, 1), i, n, flags), slots, i, n, flags)
  {
    hide PageSet, PageCounterAdd, Present, Addr, Flags, Count, Occupied;
    var s := if Present(t[i]) then t else Bump(t, 1);
    var u := WithEntry(s, i, n, flags);
    PageSetIs(s[i], i, n, flags);
    OccupiedBound(t, slots);
    if !Present(t[i]) {
      OccupiedChange(t, t[i := u[i]], slots, i);
      OccupiedBound(t[i := u[i]], slots);
      CounterUp(t[0]);
    }
    OccupiedSame(t, s, slots);
    OccupiedChange(s, u, slots, i);
  }

  /** Unmapping: the counter, when the entry is present, then page_unset. */
  lemma CountThenClear(t: seq<bv64>, slots: nat, i: nat)
    requires CounterRight(t, slots) && i < slots
    ensures Cleared(t, WithoutEntry(if Present(t[i]) then Bump(t, MINUS_ONE) else t, i), slots, i)
  {
    hide PageUnset, PageCounterAdd, Present, Addr, Flags, Count, Occupied;
    var s := if Present(t[i]) then Bump(t, MINUS_ONE) else t;
    var u := WithoutEntry(s, i);
    OccupiedBound(t, slots);
    if Present(t[i]) {
      PresentCounted(t, slots, i);
      CounterDown(t[0]);
    }
    OccupiedSame(t, s, slots);
    PageUnsetIs(s[i], i);
    OccupiedChange(s, u, slots, i);
  }

  // ---------------------------------------------------------------- the whole tree

  type Memory = map<Frame, seq<bv64>>
  type Places = map<Pos, Frame>

  ghost predicate TableRight(mem: Memory, at: Places, p: Pos)
    requires p in at
  {
    && p.level <= 3 && (p.level == 3 ==> p.prefix == 0)
    && at[p] in mem && |mem[at[p]]| == 512 && CounterRight(mem[at[p]], p.Slots())
    && Addr(at[p].addr) == at[p].addr
    && (p.level < 3 ==> p.Parent() in at && p.Slot() < p.Parent().Slots())
  }

  /** Every table is well formed, has a parent, and has a frame of its own. */
  ghost predicate TablesRight(mem: Memory, at: Places) {
    && (forall p :: p in at ==> TableRight(mem, at, p))
    && (forall p, q :: p in at && q in at && p != q ==> at[p] != at[q])
  }

  /** An entry above the leaves is present exactly when its child table exists, and leads
      there with all rights; a leaf entry is present exactly when its page is mapped, and says where. */
  ghost predicate EntryRight(t: seq<bv64>, at: Places, view: map<nat, Leaf>, p: Pos, i: nat) {
    i < |t| &&
    if p.level > 0 then
      && (Present(t[i]) <==> p.Child(i) in at)
      && (Present(t[i]) ==> Addr(t[i]) == at[p.Child(i)].addr && Flags(t[i]) == V_ALL_PERMISSIONS)
    else
      (Present(t[i]) <==> p.Page(i) in view) && (Present(t[i]) ==> view[p.Page(i)] == Leaf(Addr(t[i]), Flags(t[i])))
  }

  ghost predicate EntriesRight(mem: Memory, at: Places, view: map<nat, Leaf>) {
    forall p, i :: p in at && at[p] in mem && 0 <= i < p.Slots() ==> EntryRight(mem[at[p]], at, view, p, i)
  }

  ghost predicate ViewRight(at: Places, view: map<nat, Leaf>) {
    forall v :: v in view ==> v < USER_PAGES && TableOf(v, 0) in at
  }

  ghost predicate PoolRight(pool: seq<Frame>, at: Places) {
    && (forall k :: 0 <= k < |pool| ==> Addr(pool[k].addr) == pool[k].addr)
    && (forall j, k :: 0 <= j < k < |pool| ==> pool[j] != pool[k])
    && (forall k, p :: 0 <= k < |pool| && p in at ==> pool[k] != at[p])
  }

  datatype Space = Space(mem: Memory, root: Frame, pool: seq<Frame>, at: Places, view: map<nat, Leaf>) {
    ghost predicate Good() {
      && Pos(3, 0) in at && at[Pos(3, 0)] == root
      && TablesRight(mem, at) && EntriesRight(mem, at, view) && ViewRight(at, view) && PoolRight(pool, at)
    }

    ghost function Frames(): set<Frame> {
      (set k | 0 <= k < |pool| :: pool[k]) + (set p | p in at :: at[p])
    }
  }

  /** No table but the root, and possibly p, is empty. */
  ghost predicate FullBut(mem: Memory, at: Places, p: Pos) {
    forall q :: q in at && q.level < 3 && q != p ==>
      at[q] in mem && |mem[at[q]]| == 512 && Occupied(mem[at[q]], 512) > 0
  }

  lemma ChildIs(p: Pos, i: nat)
    requires p.level > 0 && i < 512
    ensures p.Child(i).Parent() == p && p.Child(i).Slot() == i && p.Child(i).level == p.level - 1
  {
  }

  lemma ParentIs(q: Pos)
    ensures q.Parent().Child(q.Slot()) == q && q.Slot() < 512
  {
  }

  lemma LeafIs(p: Pos, i: nat)
    requires p.level == 0 && i < 512
    ensures TableOf(p.Page(i), 0) == p && p.Page(i) % 512 == i
  {
  }

  lemma PageSlot(v: nat)
    ensures TableOf(v, 0).Page(v % 512) == v && TableOf(v, 0).level == 0
  {
  }

  lemma PrefixBound(mem: Memory, at: Places, p: Pos)
    requires TablesRight(mem, at) && p in at
    ensures p.level == 2 ==> p.prefix < 511
    ensures p.level == 1 ==> p.prefix < 261632
    ensures p.level == 0 ==> p.prefix < 133955584
    decreases 10 - p.level
  {
    hide CounterRight, Addr;
    assert TableRight(mem, at, p);
    if p.level < 2 { PrefixBound(mem, at, p.Parent()); }
  }

  /** Rewriting one table in place. */
  lemma TableRewritten(mem: Memory, at: Places, p: Pos, u: seq<bv64>)
    requires TablesRight(mem, at) && p in at && |u| == 512 && CounterRight(u, p.Slots())
    ensures TablesRight(mem[at[p] := u], at)
    ensures forall q :: q in at && q != p ==> at[q] in mem && mem[at[p] := u][at[q]] == mem[at[q]]
  {
    hide CounterRight, Addr, Pos.Parent, Pos.Slot, Pos.Slots;
    assert TableRight(mem, at, p);
    forall q | q in at ensures TableRight(mem[at[p] := u], at, q) {
      assert TableRight(mem, at, q);
      assert q != p ==> at[q] != at[p];
    }
  }

  lemma SetLeaf(s: Space, p: Pos, i: nat, u: seq<bv64>, n: bv64, flags: bv64)
    requires s.Good() && p in s.at && p.level == 0 && i < 512
    requires s.at[p] in s.mem && Stored(s.mem[s.at[p]], u, 512, i, n, flags)
    ensures s.(mem := s.mem[s.at[p] := u], view := s.view[p.Page(i) := Leaf(Addr(n), Flags(flags))]).Good()
  {
    hide TablesRight, CounterRight, Present, Addr, Flags, Pos.Page, Pos.Child;
    TableRewritten(s.mem, s.at, p, u);
    PrefixBound(s.mem, s.at, p);
    LeafIs(p, i);
    LeafBound(p, i);
    var mem, view := s.mem[s.at[p] := u], s.view[p.Page(i) := Leaf(Addr(n), Flags(flags))];
    forall q, j | q in s.at && s.at[q] in mem && 0 <= j < q.Slots() ensures EntryRight(mem[s.at[q]], s.at, view, q, j) {
      assert EntryRight(s.mem[s.at[q]], s.at, s.view, q, j);
      if q.level == 0 { LeafIs(q, j); }
    }
  }

  lemma LeafBound(p: Pos, i: nat)
    requires p.level == 0 && i < 512 && p.prefix < 133955584
    ensures p.Page(i) < USER_PAGES
  {
  }

  lemma ClearLeaf(s: Space, p: Pos, i: nat, u: seq<bv64>)
    requires s.Good() && p in s.at && p.level == 0 && i < 512
    requires s.at[p] in s.mem && Cleared(s.mem[s.at[p]], u, 512, i)
    ensures s.(mem := s.mem[s.at[p] := u], view := s.view - {p.Page(i)}).Good()
  {
    hide TablesRight, CounterRight, Present, Addr, Flags, Pos.Page, Pos.Child;
    TableRewritten(s.mem, s.at, p, u);
    LeafIs(p, i);
    var mem, view := s.mem[s.at[p] := u], s.view - {p.Page(i)};
    forall q, j | q in s.at && s.at[q] in mem && 0 <= j < q.Slots() ensures EntryRight(mem[s.at[q]], s.at, view, q, j) {
      assert EntryRight(s.mem[s.at[q]], s.at, s.view, q, j);
      if q.level == 0 { LeafIs(q, j); }
    }
  }

  function Zeroes(): seq<bv64> { seq(512, _ => 0 as bv64) }

  lemma ZeroTable(slots: nat)
    requires slots <= 512
    ensures |Zeroes()| == 512 && CounterRight(Zeroes(), slots) && forall i :: 0 <= i < 512 ==> !Present(Zeroes()[i])
    ensures Occupied(Zeroes(), slots) == 0
  {
    ZeroEntry();
    OccupiedBound(Zeroes(), slots);
  }

  /** Nothing hangs below a table that does not exist. */
  lemma NoOrphans(s: Space, k: Pos, j: nat)
    requires s.Good() && k !in s.at && j < 512 && k.level < 3
    ensures k.level > 0 ==> k.Child(j) !in s.at
    ensures k.level == 0 ==> k.Page(j) !in s.view
  {
    hide Present, Addr, Flags, CounterRight, EntriesRight, PoolRight;
    if k.level > 0 {
      ChildIs(k, j);
      assert k.Child(j) in s.at ==> TableRight(s.mem, s.at, k.Child(j));
    } else {
      LeafIs(k, j);
    }
  }

  /** allocz and page_set give entry i of table p a new, empty child. */
  function Grown(s: Space, p: Pos, i: nat, u: seq<bv64>): Space
    requires p in s.at && p.level > 0 && s.pool != []
  {
    var c := s.pool[|s.pool| - 1];
    s.(mem := s.mem[c := Zeroes()][s.at[p] := u], pool := s.pool[..|s.pool| - 1], at := s.at[p.Child(i) := c])
  }

  /** What the frames of the old tables hold, except p's, is what they held before. */
  ghost predicate Untouched(mem: Memory, mem': Memory, at: Places, p: Pos) {
    forall q :: q in at && q != p ==> at[q] in mem && at[q] in mem' && mem'[at[q]] == mem[at[q]]
  }

  ghost predicate NothingBelow(at: Places, view: map<nat, Leaf>, k: Pos) {
    forall j :: 0 <= j < 512 ==> if k.level > 0 then k.Child(j) !in at else k.Page(j) !in view
  }

  lemma TablesGrown(mem: Memory, at: Places, p: Pos, i: nat, u: seq<bv64>, c: Frame)
    requires TablesRight(mem, at) && p in at && p.level > 0 && i < p.Slots() && p.Child(i) !in at
    requires |u| == 512 && CounterRight(u, p.Slots()) && Addr(c.addr) == c.addr && forall q :: q in at ==> at[q] != c
    ensures TablesRight(mem[c := Zeroes()][at[p] := u], at[p.Child(i) := c])
    ensures Untouched(mem, mem[c := Zeroes()][at[p] := u], at, p) && at[p] in mem
  {
    assert TableRight(mem, at, p);
    assert p.level <= 3;
    hide CounterRight, Addr, Zeroes, TableRight, Pos.Child;
    var k := p.Child(i);
    var mem', at' := mem[c := Zeroes()][at[p] := u], at[k := c];
    TableBorn(mem, at, p, i, u, c);
    TableGrown(mem, at, p, i, u, c, p);
    forall q | q in at' ensures TableRight(mem', at', q) { if q in at { TableGrown(mem, at, p, i, u, c, q); } }
    forall q | q in at && q != p ensures at[q] in mem && at[q] in mem' && mem'[at[q]] == mem[at[q]] {
      TableGrown(mem, at, p, i, u, c, q);
    }
  }

  lemma TableBorn(mem: Memory, at: Places, p: Pos, i: nat, u: seq<bv64>, c: Frame)
    requires TablesRight(mem, at) && p in at && p.level > 0 && i < p.Slots() && at[p] != c && Addr(c.addr) == c.addr
    ensures TableRight(mem[c := Zeroes()][at[p] := u], at[p.Child(i) := c], p.Child(i))
  {
    ChildIs(p, i);
    ZeroTable(p.Child(i).Slots());
    hide CounterRight, Addr, Zeroes, Pos.Child, Pos.Parent, Pos.Slot, Occupied, Present;
    assert TableRight(mem, at, p);
  }

  lemma TwoWrites(mem: Memory, c: Frame, z: seq<bv64>, f: Frame, u: seq<bv64>, g: Frame)
    requires g != c && g in mem
    ensures g in mem[c := z][f := u] && mem[c := z][f := u][g] == if g == f then u else mem[g]
  {
  }

  lemma TableGrown(mem: Memory, at: Places, p: Pos, i: nat, u: seq<bv64>, c: Frame, q: Pos)
    requires p in at && 0 < p.level <= 3 && q in at && TableRight(mem, at, q) && at[q] != c &&
      (q != p ==> at[q] != at[p])
    requires |u| == 512 && CounterRight(u, p.Slots()) && p.Child(i) !in at
    ensures TableRight(mem[c := Zeroes()][at[p] := u], at[p.Child(i) := c], q)
    ensures at[q] in mem && (q != p ==> mem[c := Zeroes()][at[p] := u][at[q]] == mem[at[q]])
  {
    hide CounterRight, Addr, Zeroes, Pos.Child, Pos.Parent, Pos.Slot, Pos.Slots;
    TwoWrites(mem, c, Zeroes(), at[p], u, at[q]);
  }

  lemma EntriesGrown(mem: Memory, mem': Memory, at: Places, view: map<nat, Leaf>, p: Pos, i: nat, c: Frame, flags: bv64)
    requires EntriesRight(mem, at, view) && p in at && p.level > 0 && i < p.Slots() && p.Child(i) !in at
    requires at[p] in mem && at[p] in mem' && c in mem' && Addr(c.addr) == c.addr && Untouched(mem, mem', at, p)
    requires Stored(mem[at[p]], mem'[at[p]], p.Slots(), i, c.addr, flags) && Flags(flags) == V_ALL_PERMISSIONS
    requires |mem'[c]| == 512 && forall j :: 0 <= j < 512 ==> !Present(mem'[c][j])
    requires NothingBelow(at, view, p.Child(i))
    ensures EntriesRight(mem', at[p.Child(i) := c], view)
  {
    hide Present, Addr, Flags, CounterRight, Pos.Page, Pos.Child;
    var k := p.Child(i);
    var at' := at[k := c];
    forall q, j | q in at' && at'[q] in mem' && 0 <= j < q.Slots() ensures EntryRight(mem'[at'[q]], at', view, q, j) {
      if q == k {
        ChildOther(k, j);
      } else {
        assert EntryRight(mem[at[q]], at, view, q, j);
        if q.level > 0 { ChildIs(q, j); ChildIs(p, i); }
      }
    }
  }

  lemma PoolGrown(pool: seq<Frame>, at: Places, k: Pos)
    requires PoolRight(pool, at) && pool != []
    ensures forall q :: q in at ==> at[q] != pool[|pool| - 1]
    ensures PoolRight(pool[..|pool| - 1], at[k := pool[|pool| - 1]]) &&
      Addr(pool[|pool| - 1].addr) == pool[|pool| - 1].addr
  {
    hide Addr;
  }

  lemma PoolShrunk(pool: seq<Frame>, at: Places, k: Pos)
    requires PoolRight(pool, at) && k in at && Addr(at[k].addr) == at[k].addr
    requires forall q :: q in at && q != k ==> at[q] != at[k]
    ensures PoolRight(pool + [at[k]], at - {k})
  {
    hide Addr;
  }

  /** The place for a new child is free, and nothing is below it yet. */
  lemma FreePlace(s: Space, p: Pos, i: nat)
    requires s.Good() && p in s.at && p.level > 0 && i < p.Slots() && s.at[p] in s.mem
    requires i < |s.mem[s.at[p]]| && !Present(s.mem[s.at[p]][i])
    ensures p.level <= 3 && p.Child(i) !in s.at && NothingBelow(s.at, s.view, p.Child(i))
  {
    hide Present, Addr;
    assert TableRight(s.mem, s.at, p);
    assert EntryRight(s.mem[s.at[p]], s.at, s.view, p, i);
    var k := p.Child(i);
    forall j | 0 <= j < 512 ensures if k.level > 0 then k.Child(j) !in s.at else k.Page(j) !in s.view {
      NoOrphans(s, k, j);
    }
  }

  lemma AddTable(s: Space, p: Pos, i: nat, u: seq<bv64>, flags: bv64)
    requires s.Good() && p in s.at && p.level > 0 && i < p.Slots() && s.pool != []
    requires s.at[p] in s.mem && Stored(s.mem[s.at[p]], u, p.Slots(), i, s.pool[|s.pool| - 1].addr, flags)
    requires i < |s.mem[s.at[p]]| && !Present(s.mem[s.at[p]][i]) && Flags(flags) == V_ALL_PERMISSIONS
    ensures Grown(s, p, i, u).Good() && p.Child(i) !in s.at
    ensures Untouched(s.mem, Grown(s, p, i, u).mem, s.at, p)
  {
    hide Present, Addr, TablesRight, EntriesRight, CounterRight, PoolRight, NothingBelow, Untouched, Pos.Child,
      Zeroes, Pos.Slots;
    var t, k := Grown(s, p, i, u), p.Child(i);
    FreePlace(s, p, i);
    ChildIs(p, i);
    ZeroTable(512);
    PoolGrown(s.pool, s.at, k);
    TablesGrown(s.mem, s.at, p, i, u, s.pool[|s.pool| - 1]);
    EntriesGrown(s.mem, t.mem, s.at, s.view, p, i, s.pool[|s.pool| - 1], flags);
  }

  /** A new table is the only empty one, since its parent has an entry for it. */
  lemma FullGrown(mem: Memory, mem': Memory, at: Places, p: Pos, i: nat, k: Pos, c: Frame)
    requires FullBut(mem, at, p) && Untouched(mem, mem', at, p) && p in at && at[p] in mem' && k !in at
    requires |mem'[at[p]]| == 512 && i < 512 && Present(mem'[at[p]][i])
    ensures FullBut(mem', at[k := c], k)
  {
    OccupiedBound(mem'[at[p]], 512);
  }

  lemma ChildOther(k: Pos, j: nat)
    ensures k.level > 0 ==> k.Child(j) != k
  {
  }

  /** page_unset and free take an empty child off entry i of table p. */
  function Shrunk(s: Space, p: Pos, i: nat, u: seq<bv64>): Space
    requires p in s.at && p.level > 0 && p.Child(i) in s.at
  {
    s.(mem := s.mem[s.at[p] := u], pool := s.pool + [s.at[p.Child(i)]], at := s.at - {p.Child(i)})
  }

  ghost predicate EmptyAt(s: Space, k: Pos) {
    k in s.at && s.at[k] in s.mem && |s.mem[s.at[k]]| == 512 && forall j :: 0 <= j < 512 ==> !Present(s.mem[s.at[k]][j])
  }

  lemma ShrunkTables(s: Space, p: Pos, i: nat, u: seq<bv64>)
    requires s.Good() && p in s.at && 0 < p.level && i < p.Slots() && p.Child(i) in s.at
    requires |u| == 512 && CounterRight(u, p.Slots()) && EmptyAt(s, p.Child(i))
    ensures TablesRight(Shrunk(s, p, i, u).mem, Shrunk(s, p, i, u).at)
    ensures Untouched(s.mem, s.mem[s.at[p] := u], s.at, p)
  {
    hide Present, CounterRight, Addr, ViewRight, PoolRight;
    var t, k := Shrunk(s, p, i, u), p.Child(i);
    TableRewritten(s.mem, s.at, p, u);
    ChildIs(p, i);
    forall q | q in t.at ensures TableRight(t.mem, t.at, q) {
      assert TableRight(s.mem, s.at, q) && TableRight(t.mem, s.at, q);
      ParentIs(q);
      assert q.Parent() == k ==> EntryRight(s.mem[s.at[k]], s.at, s.view, k, q.Slot());
    }
  }

  lemma EntriesShrunk(mem: Memory, mem': Memory, at: Places, view: map<nat, Leaf>, p: Pos, i: nat)
    requires EntriesRight(mem, at, view) && p in at && p.level > 0 && i < p.Slots() && p.Child(i) in at
    requires at[p] in mem && at[p] in mem' && Untouched(mem, mem', at, p)
    requires Cleared(mem[at[p]], mem'[at[p]], p.Slots(), i)
    ensures EntriesRight(mem', at - {p.Child(i)}, view)
  {
    hide Present, Addr, Flags, CounterRight, Pos.Page, Pos.Child;
    var k := p.Child(i);
    var at' := at - {k};
    forall q, j | q in at' && at'[q] in mem' && 0 <= j < q.Slots() ensures EntryRight(mem'[at'[q]], at', view, q, j) {
      assert EntryRight(mem[at[q]], at, view, q, j);
      if q.level > 0 { ChildIs(q, j); ChildIs(p, i); }
    }
  }

  lemma NoPageBelow(s: Space, k: Pos)
    requires s.Good() && EmptyAt(s, k) && k.level < 3
    ensures forall v :: v in s.view ==> TableOf(v, 0) != k
  {
    forall v | v in s.view ensures TableOf(v, 0) != k {
      PageSlot(v);
      assert TableOf(v, 0) == k ==> EntryRight(s.mem[s.at[k]], s.at, s.view, k, v % 512);
    }
  }

  lemma DropTable(s: Space, p: Pos, i: nat, u: seq<bv64>)
    requires s.Good() && p in s.at && 0 < p.level && i < p.Slots() && p.Child(i) in s.at
    requires s.at[p] in s.mem && Cleared(s.mem[s.at[p]], u, p.Slots(), i) && EmptyAt(s, p.Child(i))
    ensures Shrunk(s, p, i, u).Good()
    ensures Untouched(s.mem, Shrunk(s, p, i, u).mem, s.at, p)
  {
    hide Present, Addr, EntriesRight, CounterRight, TablesRight, PoolRight, Untouched, Pos.Child, EmptyAt, TableOf;
    var t, k := Shrunk(s, p, i, u), p.Child(i);
    ChildIs(p, i);
    OwnFrame(s, p);
    OwnFrame(s, k);
    NoPageBelow(s, k);
    ShrunkTables(s, p, i, u);
    PoolShrunk(s.pool, s.at, k);
    EntriesShrunk(s.mem, t.mem, s.at, s.view, p, i);
  }

  lemma OwnFrame(s: Space, k: Pos)
    requires s.Good() && k in s.at
    ensures k.level <= 3 && Addr(s.at[k].addr) == s.at[k].addr
    ensures forall q :: q in s.at && q != k ==> s.at[q] != s.at[k]
    ensures s.at[k] in s.mem && |s.mem[s.at[k]]| == 512 && CounterRight(s.mem[s.at[k]], k.Slots())
    ensures k.level == 3 ==> k.prefix == 0
  {
    hide Addr, CounterRight;
    assert TableRight(s.mem, s.at, k);
  }

  lemma FramesGrown(s: Space, p: Pos, i: nat, u: seq<bv64>)
    requires p in s.at && p.level > 0 && s.pool != [] && p.Child(i) !in s.at
    ensures Grown(s, p, i, u).Frames() == s.Frames()
  {
    var t, c := Grown(s, p, i, u), s.pool[|s.pool| - 1];
    assert p.Child(i) in t.at;
    forall f | f in s.Frames() ensures f in t.Frames() {
      if q :| q in s.at && s.at[q] == f { assert q in t.at; }
      else {
        var k :| 0 <= k < |s.pool| && s.pool[k] == f;
        if k < |t.pool| { assert t.pool[k] == f; }
      }
    }
  }

  lemma FramesShrunk(s: Space, p: Pos, i: nat, u: seq<bv64>)
    requires p in s.at && p.level > 0 && p.Child(i) in s.at
    ensures Shrunk(s, p, i, u).Frames() == s.Frames()
  {
    var t, c := Shrunk(s, p, i, u), p.Child(i);
    assert t.pool[|s.pool|] == s.at[c];
    forall f | f in s.Frames() ensures f in t.Frames() {
      if k :| 0 <= k < |s.pool| && s.pool[k] == f { assert t.pool[k] == f; }
      else {
        var q :| q in s.at && s.at[q] == f;
        if q != c { assert q in t.at; }
      }
    }
  }
}
