/** unmap_internal without repairs: it asks entry i, not entry 0, whether its table is empty, and
    leaves the entry of a freed table present. Which calls it survives. */
module UnmapAsWritten {
  import opened Bits
  import opened PageEntry
  import opened PageTables
  import opened PageWalk
  import opened EmptyTables
  import opened TablePool
  import opened AddressSpace

  /** Table u still reads like t above the leaves, and only entry 0 carries a count. */
  ghost predicate Reads(t: seq<bv64>, u: seq<bv64>, level: nat) {
    && |t| == |u| == 512 && CountedOnce(u)
    && (level > 0 ==> forall i :: 0 <= i < 512 ==> SameData(u[i], t[i]))
  }

  /** Every table of s is where it was, with its way to the tables below. */
  ghost predicate Wired(s: Space, mem: Memory) {
    forall p :: p in s.at ==> s.at[p] in s.mem && s.at[p] in mem && Reads(s.mem[s.at[p]], mem[s.at[p]], p.level)
  }

  ghost predicate IsTable(s: Space, f: Frame) {
    exists q :: q in s.at && q.level < 3 && s.at[q] == f
  }

  /** The pool has grown by tables of s. */
  ghost predicate TablesFreed(s: Space, pool: seq<Frame>, pool': seq<Frame>) {
    pool <= pool' && forall k :: |pool| <= k < |pool'| ==> IsTable(s, pool'[k])
  }

  // ---------------------------------------------------------------- a freed table is still reached

  /** From the root, every table of s is still reached in whatever tree the memory holds. */
  lemma {:induction false} SameTree(s: Space, t: Space, q: Pos)
    requires s.Good() && t.Good() && t.root == s.root && Wired(s, t.mem) && q in s.at
    ensures q in t.at && t.at[q] == s.at[q]
    decreases 3 - q.level
  {
    OwnFrame(s, q);
    if q.level < 3 {
      var p := q.Parent();
      ParentIs(q);
      ParentExists(s, q);
      SameTree(s, t, p);
      EntrySame(s, t, p, q.Slot());
    }
  }

  lemma EntrySame(s: Space, t: Space, p: Pos, i: nat)
    requires s.Good() && t.Good() && Wired(s, t.mem) && p in s.at && p in t.at && t.at[p] == s.at[p]
    requires 0 < p.level <= 3 && i < 512 && p.Child(i) in s.at
    ensures p.Child(i) in t.at && t.at[p.Child(i)] == s.at[p.Child(i)]
  {
    hide Space.Good, Present, Addr, Flags, Pos.Child, CountedOnce;
    ChildPresent(s, p, i);
    EntryLeads(s, p, i);
    assert Reads(s.mem[s.at[p]], t.mem[s.at[p]], p.level);
    EntryLeads(t, p, i);
  }

  /** Once a table has been freed, no reading of the memory makes a good space of it. */
  lemma Dangling(s: Space, t: Space, f: Frame)
    requires s.Good() && t.root == s.root && Wired(s, t.mem) && f in t.pool && IsTable(s, f)
    ensures !t.Good()
  {
    if t.Good() {
      hide Space.Good;
      var q :| q in s.at && q.level < 3 && s.at[q] == f;
      SameTree(s, t, q);
      NotInPool(t, q);
    }
  }

  lemma NotInPool(t: Space, q: Pos)
    requires t.Good() && q in t.at
    ensures t.at[q] !in t.pool
  {
    hide TablesRight, EntriesRight, ViewRight;
  }

  // ---------------------------------------------------------------- steps

  lemma WiredStart(s: Space)
    requires s.Good()
    ensures Wired(s, s.mem)
  {
    hide Space.Good;
    forall p | p in s.at ensures s.at[p] in s.mem && Reads(s.mem[s.at[p]], s.mem[s.at[p]], p.level) { OwnFrame(s, p); }
  }

  lemma WiredAt(s: Space, mem: Memory, p: Pos)
    requires Wired(s, mem) && p in s.at
    ensures s.at[p] in s.mem && s.at[p] in mem && Reads(s.mem[s.at[p]], mem[s.at[p]], p.level)
  {
  }

  lemma WiredWrite(s: Space, mem: Memory, p: Pos, u: seq<bv64>)
    requires s.Good() && Wired(s, mem) && p in s.at && s.at[p] in s.mem && Reads(s.mem[s.at[p]], u, p.level)
    ensures Wired(s, mem[s.at[p] := u])
  {
    hide Reads, TablesRight;
    OwnFrame(s, p);
  }

  lemma BumpReads(t: seq<bv64>, u: seq<bv64>, level: nat, n: bv64)
    requires Reads(t, u, level)
    ensures Reads(t, Bump(u, n), level)
  {
    hide PageCounterAdd, Present, Addr, Flags, Count;
    CounterAddBits(u[0], n);
    DataBits(PageCounterAdd(u[0], n), u[0]);
  }

  lemma ClearReads(t: seq<bv64>, u: seq<bv64>, i: nat)
    requires Reads(t, u, 0) && i < 512
    ensures Reads(t, WithoutEntry(u, i), 0)
    ensures i > 0 ==> Count(WithoutEntry(u, i)[i]) == 0
  {
    hide PageUnset, Count, Present;
    PageUnsetIs(u[i], i);
  }

  /** A child's frame goes back to the pool. */
  lemma FreedMore(s: Space, pool: seq<Frame>, pool': seq<Frame>, q: Pos)
    requires TablesFreed(s, pool, pool') && q in s.at && q.level < 3
    ensures TablesFreed(s, pool, pool' + [s.at[q]])
  {
    assert IsTable(s, s.at[q]);
  }

  lemma FreedAll(s: Space, a: seq<Frame>, b: seq<Frame>, c: seq<Frame>)
    requires TablesFreed(s, a, b) && TablesFreed(s, b, c)
    ensures TablesFreed(s, a, c)
  {
  }

  // ---------------------------------------------------------------- the calls that free nothing

  /** Some other page shares the leaf table. */
  ghost predicate Shared(s: Space, page: nat) {
    exists v :: v in s.view && v != page && TableOf(v, 0) == TableOf(page, 0)
  }

  /** The table's counter is not zero. */
  ghost predicate Counted(s: Space, p: Pos) {
    p in s.at && s.at[p] in s.mem && |s.mem[s.at[p]]| == 512 && Count(s.mem[s.at[p]][0]) != 0
  }

  /** A call for c pages from page q on, passed down to a table of a level below the root, frees
      nothing: it enters every table at its first entry, uses up its pages below that, and leaves
      each counter above zero. */
  ghost predicate Quiet(s: Space, q: nat, c: nat, level: nat) {
    && (q / Span(level)) % 512 == 0
    && if level == 0 then c == 1 && Shared(s, q)
       else (Counted(s, TableOf(q, level)) &&
             if TableOf(q, level - 1) in s.at then Quiet(s, q, c, level - 1) else c <= Span(level))
  }

  /** The memory of s with the leaf entry of page q cleared, and counted out if it was present. */
  ghost function WithoutLeaf(s: Space, q: nat): Memory {
    if TableOf(q, 0) in s.at && s.at[TableOf(q, 0)] in s.mem && |s.mem[s.at[TableOf(q, 0)]]| == 512 then
      var t := s.mem[s.at[TableOf(q, 0)]];
      var i := q % 512;
      s.mem[s.at[TableOf(q, 0)] := WithoutEntry(if Present(t[i]) then Bump(t, MINUS_ONE) else t, i)]
    else s.mem
  }

  /** The way down from a level to page q is there. */
  ghost predicate Reaches(s: Space, q: nat, level: nat) {
    level > 0 ==> TableOf(q, level - 1) in s.at && Reaches(s, q, level - 1)
  }

  ghost function Wiped(s: Space, q: nat, level: nat): Memory {
    if Reaches(s, q, level) then WithoutLeaf(s, q) else s.mem
  }

  /** An absent first entry of the root is skipped, and the call goes on at the second. */
  ghost predicate Skips(s: Space, q: nat, c: nat) {
    TableOf(q, 2) !in s.at && q < Span(3) && Span(3) < c && Counted(s, Pos(3, 0)) && TableOf(Span(3), 2) in s.at
  }

  /** The whole call frees nothing. */
  ghost predicate RootQuiet(s: Space, q: nat, c: nat) {
    && (TableOf(q, 2) in s.at ==> Quiet(s, q, c, 2))
    && (Skips(s, q, c) ==> Quiet(s, Span(3), c - Span(3), 2))
  }

  /** The page whose leaf entry the whole call clears, if it gets that far. */
  ghost function Target(s: Space, q: nat, c: nat): nat {
    if Skips(s, q, c) then Span(3) else q
  }

  ghost function RootWiped(s: Space, q: nat, c: nat): Memory { Wiped(s, Target(s, q, c), 3) }

  /** How a call on s itself ends: with at most one leaf entry cleared and nothing else, or with a
      table freed or about to be. */
  ghost predicate Ended(s: Space, q: nat, c: nat, level: nat, mem: Memory, pool: seq<Frame>, pool': seq<Frame>,
      empty: bool, left: nat)
  {
    if level == 3 then
      if RootQuiet(s, q, c) then mem == RootWiped(s, q, c) && pool' == pool else |pool'| > |pool|
    else if Quiet(s, q, c, level) then mem == Wiped(s, q, level) && pool' == pool && !empty && left == 0
    else |pool'| > |pool| || empty
  }

  /** How one of its turns ends. */
  ghost predicate Turned(s: Space, q: nat, c: nat, level: nat, mem: Memory, pool: seq<Frame>, pool': seq<Frame>,
      left: nat)
  {
    if level == 0 then mem == WithoutLeaf(s, q) && pool' == pool && left == c - 1
    else if TableOf(q, level - 1) !in s.at then
      mem == s.mem && pool' == pool && left == if Span(level) >= c then 0 else c - Span(level)
    else if Quiet(s, q, c, level - 1) then mem == Wiped(s, q, level) && pool' == pool && left == 0
    else |pool'| > |pool|
  }

  lemma IndexIs(pos: Pos, virt: nat)
    requires Whole(virt, pos.level) && pos.level <= 3
    ensures Index(virt) < 512 && (Start(pos, virt) / Span(pos.level)) % 512 == Index(virt)
    ensures TableOf(Start(pos, virt), pos.level) == pos
    ensures Start(pos, virt) == pos.Page(Index(virt)) + Ahead(Shift(virt), pos.level)
    ensures pos.Page(0) <= Start(pos, virt) < pos.Page(512)
    ensures pos.level > 0 ==> Whole(Shift(virt), pos.level - 1) && Ahead(Shift(virt), pos.level) < Span(pos.level)
  {
    Consume(virt, pos.level);
    PageSteps(pos, Index(virt));
    if pos.level == 0 { PageOrder(pos, Index(virt)); } else { Consume(Shift(virt), pos.level - 1); }
    EntryIndex(pos, Index(virt), Start(pos, virt));
  }

  lemma EntryIndex(pos: Pos, i: nat, q: nat)
    requires pos.level <= 3 && i < 512 && pos.Page(i) <= q < pos.Page(i) + Span(pos.level)
    ensures (q / Span(pos.level)) % 512 == i && TableOf(q, pos.level) == pos
    ensures pos.level == 3 && pos.prefix == 0 ==> (i == 0 <==> q < Span(3))
  {
    SpanSteps(pos.level);
    var u := Span(pos.level);
    assert pos.Page(i) == (pos.prefix * 512 + i) * u;
    UniqueMod(q, u, pos.prefix * 512 + i, q - pos.Page(i));
    UniqueMod(pos.prefix * 512 + i, 512, pos.prefix, i);
    assert pos.Page(i) == pos.prefix * Span(pos.level + 1) + i * u;
    MulMonotone(i + 1, 512, u);
    UniqueMod(q, Span(pos.level + 1), pos.prefix, i * u + (q - pos.Page(i)));
  }

  /** The leaf table still holds a page exactly when another one shares it. */
  lemma LeafCount(s: Space, pos: Pos, i: nat)
    requires s.Good() && pos in s.at && pos.level == 0 && i < 512
    ensures TableOf(pos.Page(i), 0) == pos && s.at[pos] in s.mem && |s.mem[s.at[pos]]| == 512
    ensures var t := s.mem[s.at[pos]];
      WithoutLeaf(s, pos.Page(i)) == s.mem[s.at[pos] := WithoutEntry(if Present(t[i]) then Bump(t, MINUS_ONE)
        else t, i)]
    ensures s.at[pos] in WithoutLeaf(s, pos.Page(i)) && |WithoutLeaf(s, pos.Page(i))[s.at[pos]]| == 512
    ensures Count(WithoutLeaf(s, pos.Page(i))[s.at[pos]][0]) != 0 <==> Shared(s, pos.Page(i))
  {
    hide Space.Good, Present, Addr, Flags, PageUnset, PageCounterAdd, Count;
    OwnFrame(s, pos);
    LeafIs(pos, i);
    LeafEntry(s, pos, i);
    var t := s.mem[s.at[pos]];
    CountThenClear(t, 512, i);
    var u := WithoutEntry(if Present(t[i]) then Bump(t, MINUS_ONE) else t, i);
    OccupiedBound(u, 512);
    if Shared(s, pos.Page(i)) {
      var v :| v in s.view && v != pos.Page(i) && TableOf(v, 0) == TableOf(pos.Page(i), 0);
      PageSlot(v);
      LeafEntry(s, pos, v % 512);
      assert SameData(u[v % 512], t[v % 512]);
    }
    if j :| 0 <= j < 512 && Present(u[j]) {
      assert SameData(u[j], t[j]);
      LeafEntry(s, pos, j);
      LeafIs(pos, j);
      assert pos.Page(j) in s.view && TableOf(pos.Page(j), 0) == TableOf(pos.Page(i), 0) && pos.Page(j) != pos.Page(i);
    }
  }

  lemma LeafEntry(s: Space, pos: Pos, i: nat)
    requires s.Good() && pos in s.at && pos.level == 0 && i < 512
    ensures s.at[pos] in s.mem && |s.mem[s.at[pos]]| == 512 && (Present(s.mem[s.at[pos]][i]) <==> pos.Page(i) in s.view)
  {
    hide Present, Addr, Flags, CounterRight, ViewRight, PoolRight, Pos.Page;
    OwnFrame(s, pos);
    assert EntryRight(s.mem[s.at[pos]], s.at, s.view, pos, i);
  }

  /** Clearing a leaf entry changes no table above the leaves. */
  lemma UpperSame(s: Space, pos: Pos, q: nat)
    requires s.Good() && pos in s.at && 0 < pos.level
    ensures s.at[pos] in s.mem && |s.mem[s.at[pos]]| == 512
    ensures forall l :: s.at[pos] in Wiped(s, q, l) && Wiped(s, q, l)[s.at[pos]] == s.mem[s.at[pos]]
  {
    hide Space.Good, Reaches, Present;
    OwnFrame(s, pos);
    LeafLevel(q);
    if TableOf(q, 0) in s.at { OwnFrame(s, TableOf(q, 0)); }
  }

  lemma LeafLevel(page: nat)
    ensures TableOf(page, 0).level == 0
  {
  }

  /** Below the root: the first turn leaves the tested counter zero. */
  lemma EndsEmpty(s: Space, pos: Pos, virt: nat, c: nat, mem: Memory, pool: seq<Frame>, pool': seq<Frame>, left: nat,
      left': nat)
    requires s.Good() && pos in s.at && pos.level < 3 && Whole(virt, pos.level)
    requires Turned(s, Start(pos, virt), c, pos.level, mem, pool, pool', left)
    requires s.at[pos] in mem && |mem[s.at[pos]]| == 512 && Index(virt) < 512 && Count(mem[s.at[pos]][Index(virt)]) == 0
    ensures Ended(s, Start(pos, virt), c, pos.level, mem, pool, pool', true, left')
  {
    hide Space.Good, Off, Whole, Index, Shift, Span, Count, Shared, WithoutLeaf, Wiped, Pos.Page;
    IndexIs(pos, virt);
    if pos.level == 0 { LeafCount(s, pos, Index(virt)); } else { UpperSame(s, pos, Start(pos, virt)); }
  }

  /** Below the root: the first turn uses up the range and leaves the counter above zero. */
  lemma EndsLeft(s: Space, pos: Pos, virt: nat, c: nat, mem: Memory, pool: seq<Frame>, pool': seq<Frame>)
    requires s.Good() && pos in s.at && pos.level < 3 && Whole(virt, pos.level)
    requires Turned(s, Start(pos, virt), c, pos.level, mem, pool, pool', 0)
    requires s.at[pos] in mem && |mem[s.at[pos]]| == 512 && Index(virt) == 0 && Count(mem[s.at[pos]][0]) != 0
    ensures Ended(s, Start(pos, virt), c, pos.level, mem, pool, pool', false, 0)
  {
    hide Space.Good, Off, Whole, Index, Shift, Span, Count, Shared, WithoutLeaf, Pos.Page;
    IndexIs(pos, virt);
    if pos.level == 0 { LeafCount(s, pos, Index(virt)); } else { UpperSame(s, pos, Start(pos, virt)); }
  }

  /** Below the root a second turn ends with the table freed. */
  lemma EndsSecond(s: Space, q: nat, c: nat, level: nat, mem: Memory, mem': Memory, pool: seq<Frame>, pool': seq<Frame>,
      pool'': seq<Frame>, left: nat, left': nat)
    requires level < 3 && Turned(s, q, c, level, mem, pool, pool', left) && left > 0 && TablesFreed(s, pool', pool'')
    ensures Ended(s, q, c, level, mem', pool, pool'', true, left')
  {
    hide Span;
  }

  /** At the root: the call ends with the first turn. */
  lemma EndsAtRoot(s: Space, virt: nat, c: nat, mem: Memory, pool: seq<Frame>, pool': seq<Frame>, left: nat,
      empty: bool, left': nat)
    requires s.Good() && Whole(virt, 3) && Index(virt) < 511
    requires Turned(s, Start(Pos(3, 0), virt), c, 3, mem, pool, pool', left)
    requires Index(virt) == 0 && left > 0 && |pool'| <= |pool| ==> !Counted(s, Pos(3, 0))
    ensures Ended(s, Start(Pos(3, 0), virt), c, 3, mem, pool, pool', empty, left')
  {
    hide Space.Good, Off, Whole, Index, Shift, Span, Count, Counted, WithoutLeaf, Pos.Page, Reaches;
    IndexIs(Pos(3, 0), virt);
    EntryIndex(Pos(3, 0), Index(virt), Start(Pos(3, 0), virt));
    ReachesOn(s, Start(Pos(3, 0), virt), 3);
  }

  lemma ReachesOn(s: Space, q: nat, level: nat)
    requires level > 0
    ensures Reaches(s, q, level) <==> TableOf(q, level - 1) in s.at && Reaches(s, q, level - 1)
  {
  }

  /** At the root: the call ends with the second turn, the first having skipped an absent entry. */
  lemma EndsAtSecond(s: Space, virt: nat, c: nat, mem: Memory, mem': Memory, pool: seq<Frame>, pool': seq<Frame>,
      pool'': seq<Frame>, left: nat, left': nat, empty: bool, left'': nat)
    requires s.Good() && Whole(virt, 3) && Index(virt) == 0 && Counted(s, Pos(3, 0)) && left > 0
    requires Turned(s, Start(Pos(3, 0), virt), c, 3, mem, pool, pool', left) && TablesFreed(s, pool', pool'')
    requires |pool'| <= |pool| ==> Turned(s, Span(3), left, 3, mem', pool', pool'', left')
    ensures Ended(s, Start(Pos(3, 0), virt), c, 3, mem', pool, pool'', empty, left'')
  {
    hide Space.Good, Off, Whole, Index, Shift, Span, Count, Counted, WithoutLeaf, Pos.Page, Reaches;
    IndexIs(Pos(3, 0), virt);
    EntryIndex(Pos(3, 0), 0, Start(Pos(3, 0), virt));
    ReachesOn(s, Start(Pos(3, 0), virt), 3);
    ReachesOn(s, Span(3), 3);
  }

  lemma RootIs(s: Space, pos: Pos)
    requires s.Good() && pos in s.at && pos.level == 3
    ensures pos == Pos(3, 0)
  {
    hide TablesRight, EntriesRight, ViewRight, PoolRight;
    OwnFrame(s, pos);
  }

  /** The first turn leaves the tested counter zero. */
  lemma EndsFirst(s: Space, pos: Pos, virt: nat, c: nat, mem: Memory, pool: seq<Frame>, pool': seq<Frame>, left: nat,
      left': nat)
    requires s.Good() && pos in s.at && pos.level <= 3 && Whole(virt, pos.level) && Index(virt) < pos.Slots()
    requires Turned(s, Start(pos, virt), c, pos.level, mem, pool, pool', left)
    requires s.at[pos] in mem && |mem[s.at[pos]]| == 512 && Index(virt) < 512 && Count(mem[s.at[pos]][Index(virt)]) == 0
    ensures Ended(s, Start(pos, virt), c, pos.level, mem, pool, pool', true, left')
  {
    hide Space.Good, Off, Whole, Index, Shift, Span, Count, Ended, Start, WithoutLeaf, Wiped, Pos.Page, Quiet;
    if pos.level < 3 {
      EndsEmpty(s, pos, virt, c, mem, pool, pool', left, left');
    } else {
      RootIs(s, pos);
      UpperSame(s, pos, Start(pos, virt));
      EndsAtRoot(s, virt, c, mem, pool, pool', left, true, left');
    }
  }

  /** A second turn leaves the tested counter zero. */
  lemma EndsLater(s: Space, pos: Pos, virt: nat, c: nat, mem: Memory, mem': Memory, pool: seq<Frame>,
      pool': seq<Frame>, pool'': seq<Frame>, left: nat, v: nat, left': nat, left'': nat)
    requires s.Good() && pos in s.at && pos.level <= 3 && Whole(virt, pos.level) && Index(virt) == 0 && left > 0
    requires Turned(s, Start(pos, virt), c, pos.level, mem, pool, pool', left) && TablesFreed(s, pool', pool'')
    requires pos.level == 3 && |pool'| <= |pool| ==> Spent(v) && mem == s.mem && Counted(s, pos)
    requires pos.level == 3 && mem == s.mem && Spent(v) ==>
      Turned(s, pos.Page(1) + Ahead(v, 3), left, 3, mem', pool', pool'', left')
    ensures Ended(s, Start(pos, virt), c, pos.level, mem', pool, pool'', true, left'')
  {
    hide Space.Good, Whole, Index, Shift, Count, Ended, Turned, Start, WithoutLeaf, Wiped, Quiet, Counted, TablesFreed;
    if pos.level < 3 {
      EndsSecond(s, Start(pos, virt), c, pos.level, mem, mem', pool, pool', pool'', left, left'');
    } else {
      RootIs(s, pos);
      if |pool'| <= |pool| {
        SpentIsWhole(v, 2);
        SecondPage(v);
        EndsAtSecond(s, virt, c, mem, mem', pool, pool', pool'', left, left', true, left'');
      } else {
        GrownAtRoot(s, virt, c, mem, mem', pool, pool', pool'', left, true, left'');
      }
    }
  }

  lemma SpentAhead(v: nat)
    requires Spent(v)
    ensures Whole(v, 2) && Ahead(v, 3) < Span(3)
  {
    SpentIsWhole(v, 2);
  }

  lemma SecondPage(v: nat)
    requires Off(v, 2) == 0
    ensures Pos(3, 0).Page(1) + Ahead(v, 3) == Span(3)
  {
  }

  lemma GrownAtRoot(s: Space, virt: nat, c: nat, mem: Memory, mem': Memory, pool: seq<Frame>, pool': seq<Frame>,
      pool'': seq<Frame>, left: nat, empty: bool, left': nat)
    requires s.Good() && Whole(virt, 3)
    requires Turned(s, Start(Pos(3, 0), virt), c, 3, mem, pool, pool', left) && |pool'| > |pool| &&
      TablesFreed(s, pool', pool'')
    ensures Ended(s, Start(Pos(3, 0), virt), c, 3, mem', pool, pool'', empty, left')
  {
    hide Space.Good, Off, Whole, Index, Span, Count, Counted, Wiped, Pos.Page, Reaches, Quiet;
  }

  /** A second turn of the whole call finds the memory as it was. */
  lemma SecondTurn(s: Space, pos: Pos, virt: nat, c: nat, mem: Memory, pool: seq<Frame>, pool': seq<Frame>, left: nat)
    requires s.Good() && pos in s.at && pos.level <= 3 && left > 0
    requires Turned(s, Start(pos, virt), c, pos.level, mem, pool, pool', left)
    requires s.at[pos] in mem && |mem[s.at[pos]]| == 512 && Count(mem[s.at[pos]][0]) != 0
    requires Whole(virt, pos.level) && Index(virt) < 512
    ensures pos.level == 3 && |pool'| <= |pool| ==>
      pos.Child(Index(virt)) !in s.at && mem == s.mem && Counted(s, pos)
  {
    hide Space.Good, Count, Start, Quiet, Span, Pos.Page, Whole, Index, TableOf, Pos.Child, Shift;
    OwnFrame(s, pos);
    IndexIs(pos, virt);
    if pos.level == 3 { SlotOf(pos, Index(virt), Start(pos, virt)); }
  }

  lemma FreedNone(s: Space, pool: seq<Frame>)
    ensures TablesFreed(s, pool, pool)
  {
  }

  // ---------------------------------------------------------------- the recursion

  /** The recursion as it stands. Whatever the state of the tables, those of s stay wired and only
      tables of s are freed; a call on s itself ends as Ended says. */
  method Recurse(m: PageMap, virt: nat, pageN: nat, level: nat, table: Frame, ghost s: Space, ghost pos: Pos)
    returns (empty: bool, virt': nat, pageN': nat)
    requires s.Good() && pos in s.at && s.at[pos] == table && pos.level == level <= 3
    requires Wired(s, m.mem) && 0 < pageN && Index(virt) < pos.Slots()
    modifies m`mem, m`pool
    ensures Wired(s, m.mem) && TablesFreed(s, old(m.pool), m.pool) && pageN' < pageN
    ensures old(m.mem) == s.mem && Whole(virt, level) ==>
      Ended(s, Start(pos, virt), pageN, level, m.mem, old(m.pool), m.pool, empty, pageN')
    decreases level, 2
  {
    hide Space.Good, Present, Addr, Flags, Count, Pos.Page, Span, Off, Index, Shift, Whole, Wired, TablesFreed,
      Turned, Ended, Counted, PageCounterAdd, PageUnset, Spent;
    ghost var q, clean := Start(pos, virt), m.mem == s.mem && Whole(virt, level);
    var i: nat := Index(virt);
    virt' := Shift(virt);
    pageN' := pageN;
    FreedNone(s, m.pool);
    if clean { IndexIs(pos, virt); }
    ghost var done := false;
    while pageN' > 0
      invariant Wired(s, m.mem) && TablesFreed(s, old(m.pool), m.pool) && pageN' <= pageN
      invariant !done ==> i == Index(virt) && virt' == Shift(virt) && pageN' == pageN && m.mem == old(m.mem)
      invariant !done ==> m.pool == old(m.pool)
      invariant done ==> i == 1 && Index(virt) == 0 && pageN' < pageN
      invariant done ==> table in m.mem && |m.mem[table]| == 512 && Count(m.mem[table][0]) != 0
      invariant done && clean ==> Turned(s, q, pageN, level, m.mem, old(m.pool), m.pool, pageN')
      invariant done && clean && pageN' > 0 && level == 3 && |m.pool| <= |old(m.pool)| ==>
        Spent(virt') && m.mem == s.mem && Counted(s, pos)
      decreases PAGE_ENTRIES - i
    {
      if i >= PAGE_ENTRIES {
        return false, virt', pageN';
      }
      ghost var before, mem, n, v := m.pool, m.mem, pageN', virt';
      if level == 3 && Spent(virt') { SpentAhead(virt'); }
      virt', pageN' := Turn(m, virt', pageN', level, table, i, s, pos);
      WiredAt(s, m.mem, pos);
      FreedAll(s, old(m.pool), before, m.pool);
      if Count(m.mem[table][i]) == 0 {
        ghost var left := pageN';
        var skipped := PAGE_ENTRIES - i - 1;
        pageN' := if skipped >= pageN' then 0 else pageN' - skipped;
        if clean {
          if !done { EndsFirst(s, pos, virt, pageN, m.mem, old(m.pool), m.pool, left, pageN'); }
          else { EndsLater(s, pos, virt, pageN, mem, m.mem, old(m.pool), before, m.pool, n, v, left, pageN'); }
        }
        return true, virt', pageN';
      }
      CountedAt0(m.mem[table], i);
      if clean && pageN' > 0 { SecondTurn(s, pos, virt, pageN, m.mem, old(m.pool), m.pool, pageN'); }
      i := i + 1;
      done := true;
    }
    if clean {
      if level < 3 { EndsLeft(s, pos, virt, pageN, m.mem, old(m.pool), m.pool); }
      else { RootIs(s, pos); EndsAtRoot(s, virt, pageN, m.mem, old(m.pool), m.pool, 0, false, 0); }
    }
    empty := false;
  }

  lemma CountedAt0(t: seq<bv64>, i: nat)
    requires CountedOnce(t) && i < |t| && Count(t[i]) != 0
    ensures i == 0
  {
  }

  /** One turn of the loop. */
  method Turn(m: PageMap, virt: nat, pageN: nat, level: nat, table: Frame, i: nat, ghost s: Space, ghost pos: Pos)
    returns (virt': nat, pageN': nat)
    requires s.Good() && pos in s.at && s.at[pos] == table && pos.level == level <= 3
    requires Wired(s, m.mem) && 0 < pageN && i < pos.Slots() && i < 512
    modifies m`mem, m`pool
    ensures Wired(s, m.mem) && TablesFreed(s, old(m.pool), m.pool) && pageN' < pageN
    ensures old(m.mem) == s.mem && (level > 0 ==> Whole(virt, level - 1) && Ahead(virt, level) < Span(level)) ==>
      Turned(s, pos.Page(i) + Ahead(virt, level), pageN, level, m.mem, old(m.pool), m.pool, pageN')
    ensures level > 0 && Whole(virt, level - 1) && Ahead(virt, level) < Span(level) && pos.Child(i) !in s.at ==>
      Spent(virt')
    decreases level, 1
  {
    hide Space.Good, Present, Addr, Flags, Count, Pos.Page, Span, Off, Index, Shift, Whole, Wired, TablesFreed,
      Turned, PageCounterAdd, PageUnset, Pos.Child, Spent;
    virt' := virt;
    WiredAt(s, m.mem, pos);
    FreedNone(s, m.pool);
    if level > 0 {
      virt', pageN' := UpperTurn(m, virt, pageN, level, table, i, s, pos);
    } else {
      LeafTurn(m, table, i, s, pos);
      pageN' := pageN - 1;
      if old(m.mem) == s.mem { LeafTurned(s, pageN, pos, i, m.mem, m.pool); }
    }
  }

  /** The turn at a leaf. */
  method LeafTurn(m: PageMap, table: Frame, i: nat, ghost s: Space, ghost pos: Pos)
    requires s.Good() && pos in s.at && s.at[pos] == table && pos.level == 0 && i < 512
    requires Wired(s, m.mem) && table in m.mem && |m.mem[table]| == 512
    modifies m`mem
    ensures Wired(s, m.mem)
    ensures var t := old(m.mem)[table];
      m.mem == old(m.mem)[table := WithoutEntry(if Present(t[i]) then Bump(t, MINUS_ONE) else t, i)]
  {
    hide Space.Good, Present, Wired, PageCounterAdd, PageUnset, Reads;
    var t := m.mem[table];
    WiredAt(s, m.mem, pos);
    BumpReads(s.mem[table], t, 0, MINUS_ONE);
    if Present(t[i]) {
      t := Bump(t, MINUS_ONE);
    }
    ClearReads(s.mem[table], t, i);
    t := WithoutEntry(t, i);
    WiredWrite(s, m.mem, pos, t);
    m.mem := m.mem[table := t];
  }

  lemma LeafTurned(s: Space, pageN: nat, pos: Pos, i: nat, mem: Memory, pool: seq<Frame>)
    requires s.Good() && pos in s.at && pos.level == 0 && i < 512 && 0 < pageN
    requires s.at[pos] in s.mem && |s.mem[s.at[pos]]| == 512
    requires var t := s.mem[s.at[pos]];
      mem == s.mem[s.at[pos] := WithoutEntry(if Present(t[i]) then Bump(t, MINUS_ONE) else t, i)]
    ensures Turned(s, pos.Page(i), pageN, 0, mem, pool, pool, pageN - 1)
  {
    hide Space.Good, Present, WithoutLeaf, Count, Pos.Page, Shared;
    LeafCount(s, pos, i);
  }

  /** The turn above the leaves. */
  method UpperTurn(m: PageMap, virt: nat, pageN: nat, level: nat, table: Frame, i: nat, ghost s: Space, ghost pos: Pos)
    returns (virt': nat, pageN': nat)
    requires s.Good() && pos in s.at && s.at[pos] == table && 0 < pos.level == level <= 3
    requires Wired(s, m.mem) && table in m.mem && |m.mem[table]| == 512 && 0 < pageN && i < pos.Slots() && i < 512
    modifies m`mem, m`pool
    ensures Wired(s, m.mem) && TablesFreed(s, old(m.pool), m.pool) && pageN' < pageN
    ensures old(m.mem) == s.mem && Whole(virt, level - 1) && Off(virt, level - 1) < Span(level) ==>
      Turned(s, pos.Page(i) + Off(virt, level - 1), pageN, level, m.mem, old(m.pool), m.pool, pageN')
    ensures Whole(virt, level - 1) && pos.Child(i) !in s.at ==> Spent(virt')
    decreases level, 0
  {
    hide Space.Good, Present, Addr, Flags, Count, Pos.Page, Span, Off, Index, Shift, Whole, Wired, TablesFreed,
      Turned, PageCounterAdd, PageUnset, Pos.Child, Ended, Spent;
    ghost var q := pos.Page(i) + Off(virt, level - 1);
    ghost var clean := m.mem == s.mem && Whole(virt, level - 1) && Off(virt, level - 1) < Span(level);
    virt' := virt;
    FreedNone(s, m.pool);
    WiredAt(s, m.mem, pos);
    SpanSteps(level);
    EntryWired(s, m.mem, pos, i);
    if clean { SlotOf(pos, i, q); }
    if !Present(m.mem[table][i]) {
      var skipped := Span(level);
      pageN' := if skipped >= pageN then 0 else pageN - skipped;
      if Whole(virt, level - 1) { SkipSpends(virt, level); }
      virt' := (virt' * Span(level)) % WORD;
      if clean { TurnedAbsent(s, q, pageN, level, m.pool); }
    } else {
      ghost var c := pos.Child(i);
      ChildIs(pos, i);
      PageSteps(pos, i);
      IndexSmall(virt);
      var empty;
      empty, virt', pageN' := Recurse(m, virt, pageN, level - 1, Frame(Addr(m.mem[table][i])), s, c);
      EntryWired(s, m.mem, pos, i);
      WiredAt(s, m.mem, pos);
      if clean { assert Start(c, virt) == q; }
      if clean && !empty { ChildLeft(s, q, pageN, level, m.mem, old(m.pool), m.pool, pageN'); }
      if empty {
        ghost var mem, pool := m.mem, m.pool;
        FreedMore(s, old(m.pool), m.pool, c);
        BumpReads(s.mem[table], m.mem[table], level, MINUS_ONE);
        WiredWrite(s, m.mem, pos, Bump(m.mem[table], MINUS_ONE));
        m.pool := m.pool + [Frame(Addr(m.mem[table][i]))];
        m.mem := m.mem[table := Bump(m.mem[table], MINUS_ONE)];
        if clean { ChildEmpty(s, q, pageN, level, mem, m.mem, old(m.pool), pool, m.pool, pageN'); }
      }
    }
  }

  lemma IndexSmall(virt: nat)
    ensures Index(virt) < 512
  {
  }

  /** An entry above the leaves is present, and leads on, as it did in s. */
  lemma EntryWired(s: Space, mem: Memory, pos: Pos, i: nat)
    requires s.Good() && Wired(s, mem) && pos in s.at && 0 < pos.level && i < pos.Slots() && i < 512
    ensures s.at[pos] in mem && |mem[s.at[pos]]| == 512 && s.at[pos] in s.mem && |s.mem[s.at[pos]]| == 512
    ensures Present(mem[s.at[pos]][i]) <==> pos.Child(i) in s.at
    ensures pos.Child(i) in s.at ==> Frame(Addr(mem[s.at[pos]][i])) == s.at[pos.Child(i)]
  {
    hide Space.Good, Present, Addr, Flags, CountedOnce, Pos.Child, Wired;
    WiredAt(s, mem, pos);
    EntryLeads(s, pos, i);
  }

  lemma TurnedAbsent(s: Space, q: nat, c: nat, level: nat, pool: seq<Frame>)
    requires 0 < level <= 3 && TableOf(q, level - 1) !in s.at
    ensures Turned(s, q, c, level, s.mem, pool, pool, if Span(level) >= c then 0 else c - Span(level))
  {
  }

  lemma ChildLeft(s: Space, q: nat, c: nat, level: nat, mem: Memory, pool: seq<Frame>, pool': seq<Frame>, left: nat)
    requires 0 < level <= 3 && Ended(s, q, c, level - 1, mem, pool, pool', false, left)
    requires TableOf(q, level - 1) in s.at
    ensures Turned(s, q, c, level, mem, pool, pool', left)
  {
    hide Quiet, WithoutLeaf, TableOf, Reaches;
    ReachesOn(s, q, level);
  }

  lemma ChildEmpty(s: Space, q: nat, c: nat, level: nat, mem: Memory, mem': Memory, pool: seq<Frame>,
      pool': seq<Frame>, pool'': seq<Frame>, left: nat)
    requires 0 < level <= 3 && Ended(s, q, c, level - 1, mem, pool, pool', true, left)
    requires TableOf(q, level - 1) in s.at
    requires TablesFreed(s, pool, pool') && |pool''| == |pool'| + 1
    ensures Turned(s, q, c, level, mem', pool, pool'', left)
  {
    hide Quiet, WithoutLeaf, TableOf;
  }

  // ---------------------------------------------------------------- the whole call

  /** A reading of m's memory as a space. */
  ghost predicate IsNow(m: PageMap, t: Space)
    reads m
  {
    t.mem == m.mem && t.root == m.pml4 && t.pool == m.pool
  }

  /** The page a quiet call takes out of the map, if it reaches a leaf. */
  ghost function Gone(s: Space, q: nat, c: nat): set<nat> {
    if Reaches(s, Target(s, q, c), 3) then {Target(s, q, c)} else {}
  }

  /** No other page of the range was mapped. */
  ghost predicate NoOther(s: Space, q: nat, c: nat) {
    forall v :: q <= v < q + c && v in s.view ==> v in Gone(s, q, c)
  }

  /** What the memory is after a call for c pages from page q on. */
  ghost predicate Left(m: PageMap, s: Space, q: nat, c: nat)
    reads m
  {
    if RootQuiet(s, q, c) then
      var t := s.(mem := RootWiped(s, q, c), view := s.view - Gone(s, q, c));
      t.Good() && IsNow(m, t) && forall u: Space :: IsNow(m, u) && u.Good() ==> u.view == t.view
    else forall u: Space :: IsNow(m, u) ==> !u.Good()
  }

  /** unmap_internal as it stands, on memory that has come from a good space s by calls of it. */
  method UnmapOn(m: PageMap, virt: nat, n: nat, ghost s: Space)
    requires s.Good() && s.root == m.pml4 && Wired(s, m.mem) && virt < WORD && 0 < n && PageOf(virt) < USER_PAGES
    modifies m`mem, m`pool
    ensures Wired(s, m.mem) && TablesFreed(s, old(m.pool), m.pool)
    ensures old(IsNow(m, s)) ==> Left(m, s, PageOf(virt), PageCount(n))
    ensures old(IsNow(m, s)) && !RootQuiet(s, PageOf(virt), PageCount(n)) ==> |m.pool| > |old(m.pool)|
  {
    hide Space.Good, Off, Whole, RootQuiet, Wired, TablesFreed, Span, Index, Shift, Gone, Left;
    CallIs(s, virt);
    ghost var pool := m.pool;
    var empty, v', left := Recurse(m, PageOf(virt) * 4096, PageCount(n), PAGE_LEVELS - 1, m.pml4, s, Pos(3, 0));
    if old(IsNow(m, s)) { LeftIs(m, s, PageOf(virt), PageCount(n), pool, empty, left); }
  }

  /** unmap_internal as it stands, on any range. It leaves a good space if and only if the call is
      quiet, and takes at most one page out of the map; it removes exactly the range if and only
      if besides no other page of the range was mapped. After any other call a freed table is still
      reached from the root, and no reading of the memory is a good space. */
  method UnmapInternal(m: PageMap, virt: nat, n: nat)
    requires m.Valid() && virt < WORD && 0 < n && PageOf(virt) < USER_PAGES
    modifies m`mem, m`pool
    ensures var s, q, c := old(m.Abs()), PageOf(virt), PageCount(n);
      && Left(m, s, q, c)
      && ((exists t: Space :: IsNow(m, t) && t.Good() && t.view == Unmapped(s.view, q, c)) <==>
          RootQuiet(s, q, c) && NoOther(s, q, c))
  {
    hide Space.Good, Unmapped, RootQuiet, Wired, TablesFreed, NoOther, Left;
    ghost var s := m.Abs();
    WiredStart(s);
    UnmapOn(m, virt, n, s);
    RemovedIs(m, s, PageOf(virt), PageCount(n));
  }

  lemma CallIs(s: Space, virt: nat)
    requires s.Good() && PageOf(virt) < USER_PAGES
    ensures Pos(3, 0) in s.at && s.at[Pos(3, 0)] == s.root
    ensures Whole(PageOf(virt) * 4096, 3) && Start(Pos(3, 0), PageOf(virt) * 4096) == PageOf(virt)
    ensures Index(PageOf(virt) * 4096) < Pos(3, 0).Slots()
  {
    hide Space.Good;
    RootCall(s, virt);
    Consume(PageOf(virt) * 4096, 3);
    RootAddress(virt);
  }

  /** The memory has one view at most. */
  lemma OneView(t: Space, u: Space)
    requires t.Good() && u.Good() && t.mem == u.mem && t.root == u.root
    ensures t.view == u.view
  {
    hide Space.Good, Walk;
    forall v: nat ensures (v in t.view <==> v in u.view) && (v in t.view ==> t.view[v] == u.view[v]) {
      if v in t.view { OnPath(t, v, 0); }
      if v in u.view { OnPath(u, v, 0); }
      if v < USER_PAGES {
        WalkIsView(t, v);
        WalkIsView(u, v);
      }
    }
  }

  lemma WipedGood(s: Space, q: nat)
    requires s.Good()
    ensures s.(mem := Wiped(s, q, 3), view := s.view - if Reaches(s, q, 3) then {q} else {}).Good()
  {
    hide Space.Good, Present, Addr, Flags, PageUnset, PageCounterAdd, CounterRight, Reaches;
    if Reaches(s, q, 3) {
      ReachesLeaf(s, q);
      PageSlot(q);
      var pos, i := TableOf(q, 0), q % 512;
      OwnFrame(s, pos);
      CountThenClear(s.mem[s.at[pos]], 512, i);
      ClearLeaf(s, pos, i, WithoutEntry(if Present(s.mem[s.at[pos]][i]) then Bump(s.mem[s.at[pos]], MINUS_ONE)
        else s.mem[s.at[pos]], i));
    } else {
      assert s.view - {} == s.view;
      assert s.(mem := s.mem, view := s.view - {}) == s;
    }
  }

  lemma ReachesLeaf(s: Space, q: nat)
    requires Reaches(s, q, 3)
    ensures TableOf(q, 0) in s.at && TableOf(q, 1) in s.at && TableOf(q, 2) in s.at
  {
    ReachesOn(s, q, 3);
    ReachesOn(s, q, 2);
    ReachesOn(s, q, 1);
  }

  lemma LeftIs(m: PageMap, s: Space, q: nat, c: nat, pool: seq<Frame>, empty: bool, left: nat)
    requires s.Good() && s.root == m.pml4 && s.pool == pool && Wired(s, m.mem) && TablesFreed(s, pool, m.pool)
    requires Ended(s, q, c, 3, m.mem, pool, m.pool, empty, left)
    ensures Left(m, s, q, c)
  {
    hide Space.Good, Wired, RootQuiet, TablesFreed, Reaches, Target, Wiped;
    if RootQuiet(s, q, c) {
      WipedGood(s, Target(s, q, c));
      var t := s.(mem := RootWiped(s, q, c), view := s.view - Gone(s, q, c));
      forall u: Space | IsNow(m, u) && u.Good() ensures u.view == t.view { OneView(t, u); }
    } else {
      forall u: Space | IsNow(m, u) ensures !u.Good() { FreedDangles(s, pool, u); }
    }
  }

  /** The range is exactly what is removed. */
  lemma RemovedIs(m: PageMap, s: Space, q: nat, c: nat)
    requires Left(m, s, q, c) && 0 < c
    ensures (exists t: Space :: IsNow(m, t) && t.Good() && t.view == Unmapped(s.view, q, c)) <==>
      RootQuiet(s, q, c) && NoOther(s, q, c)
  {
    hide Space.Good, RootQuiet, Unmapped, NoOther, RootWiped, Gone;
    ExactlyGone(s, q, c);
    if RootQuiet(s, q, c) {
      var t := s.(mem := RootWiped(s, q, c), view := s.view - Gone(s, q, c));
      if NoOther(s, q, c) { assert IsNow(m, t) && t.Good() && t.view == Unmapped(s.view, q, c); }
    }
  }

  lemma ExactlyGone(s: Space, q: nat, c: nat)
    requires 0 < c
    ensures Unmapped(s.view, q, c) == s.view - Gone(s, q, c) <==> NoOther(s, q, c)
  {
    hide Unmapped, Reaches, TableOf, Counted;
    var u, w := Unmapped(s.view, q, c), s.view - Gone(s, q, c);
    forall v: nat ensures v in u <==> v in s.view && !(q <= v < q + c) { UnmappedAt(s.view, q, c, v); }
    forall v: nat | v in u ensures u[v] == s.view[v] { UnmappedAt(s.view, q, c, v); }
    assert forall v :: v in Gone(s, q, c) ==> q <= v < q + c;
    if NoOther(s, q, c) {
      assert forall v: nat :: v in u <==> v in w;
    } else {
      var v :| q <= v < q + c && v in s.view && v !in Gone(s, q, c);
      assert v in w && v !in u;
    }
  }

  lemma FreedDangles(s: Space, pool: seq<Frame>, t: Space)
    requires s.Good() && t.root == s.root && Wired(s, t.mem) && TablesFreed(s, pool, t.pool) && |t.pool| > |pool|
    ensures !t.Good()
  {
    hide Space.Good, Wired;
    assert IsTable(s, t.pool[|pool|]);
    Dangling(s, t, t.pool[|pool|]);
  }

  // ---------------------------------------------------------------- ranges that are mapped

  /** On a mapped range the calls that work are those for one page, the first below its entry in the
      root, whose leaf table maps another page. */
  lemma MappedSurvives(s: Space, q: nat, c: nat)
    requires s.Good() && 0 < c && forall v :: q <= v < q + c ==> v in s.view
    ensures RootQuiet(s, q, c) && NoOther(s, q, c) <==> c == 1 && q % Span(3) == 0 && Shared(s, q)
  {
    hide Space.Good, TableOf, Shared, Counted, Span, Quiet, Reaches;
    PathReaches(s, q);
    PathCounted(s, q, 1);
    PathCounted(s, q, 2);
    QuietOn(s, q, c);
    if c > 1 { assert q + 1 in s.view; }
  }

  lemma PathReaches(s: Space, q: nat)
    requires s.Good() && q in s.view
    ensures Reaches(s, q, 3) && TableOf(q, 0) in s.at && TableOf(q, 1) in s.at && TableOf(q, 2) in s.at
  {
    hide Space.Good, TableOf;
    OnPath(s, q, 0);
    OnPath(s, q, 1);
    OnPath(s, q, 2);
    ReachesOn(s, q, 1);
    ReachesOn(s, q, 2);
    ReachesOn(s, q, 3);
  }

  lemma PathCounted(s: Space, q: nat, level: nat)
    requires s.Good() && q in s.view && 0 < level < 3
    ensures Counted(s, TableOf(q, level))
  {
    hide Space.Good, Count, TableOf, Pos.Page;
    OnPath(s, q, level);
    PageOfTable(q, level);
    var i := EntryTo(TableOf(q, level), q);
    EntryOver(s, TableOf(q, level), i, q);
  }

  lemma QuietOn(s: Space, q: nat, c: nat)
    requires TableOf(q, 0) in s.at && TableOf(q, 1) in s.at
    requires Counted(s, TableOf(q, 1)) && Counted(s, TableOf(q, 2))
    ensures Quiet(s, q, c, 2) <==> q % Span(3) == 0 && c == 1 && Shared(s, q)
  {
    hide Counted, Shared, TableOf;
    Indices(q);
    assert Quiet(s, q, c, 1) <==> (q / Span(1)) % 512 == 0 && Quiet(s, q, c, 0);
  }

  lemma Indices(q: nat)
    ensures q % Span(3) == 0 <==> q % 512 == 0 && (q / 512) % 512 == 0 && (q / 262144) % 512 == 0
  {
    var x := q / 512;
    var y := x / 512;
    var z := y / 512;
    var a, b, d := q % 512, x % 512, y % 512;
    assert x == 512 * y + b && y == 512 * z + d;
    UniqueMod(q, 262144, y, 512 * b + a);
    UniqueMod(q, 134217728, z, 262144 * d + 512 * b + a);
  }

  /** Two pages at the lowest address that is ever handed out. */
  method FirstTwoPages(m: PageMap)
    requires m.Valid() && 1 in m.view && 2 in m.view
    modifies m`mem, m`pool
    ensures forall t: Space :: IsNow(m, t) ==> !t.Good()
  {
    hide Space.Good, Unmapped, Quiet, Reaches, Counted;
    assert PageOf(0x1000) == 1 && PageCount(0x2000) == 2;
    NotQuiet(m.Abs());
    UnmapInternal(m, 0x1000, 0x2000);
  }

  lemma NotQuiet(s: Space)
    requires s.Good() && 1 in s.view
    ensures !RootQuiet(s, 1, 2)
  {
    hide Space.Good, Counted, Shared;
    PathReaches(s, 1);
    PathCounted(s, 1, 1);
    PathCounted(s, 1, 2);
    QuietOn(s, 1, 2);
  }
}
