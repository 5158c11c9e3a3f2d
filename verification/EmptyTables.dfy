/** Which tables below the root are empty, and which tables a range of pages passes through. */
module EmptyTables {
  import opened Bits
  import opened PageEntry
  import opened PageTables
  import opened PageWalk

  ghost predicate Hollow(mem: Memory, at: Places, q: Pos)
    requires q in at
  {
    q.level < 3 && at[q] in mem && |mem[at[q]]| == 512 && Occupied(mem[at[q]], 512) == 0
  }

  /** No table but p has become empty. */
  ghost predicate NoNewHollow(mem: Memory, at: Places, mem': Memory, at': Places, p: Pos) {
    forall q :: q in at' && q != p && Hollow(mem', at', q) ==> q in at && Hollow(mem, at, q)
  }

  /** Some page of the range lies below table q. */
  predicate Meets(q: Pos, first: nat, last: nat) {
    first < last && q.Page(0) < last && first < q.Page(512)
  }

  /** Below the given level, no table that the range passes through is empty. */
  ghost predicate Swept(mem: Memory, at: Places, first: nat, last: nat, level: nat) {
    forall q :: q in at && q.level < level && Meets(q, first, last) ==> !Hollow(mem, at, q)
  }

  /** New tables are on the way to pages of the range. */
  ghost predicate NewWithin(at: Places, at': Places, first: nat, last: nat) {
    forall q :: q in at' && q !in at ==> Meets(q, first, last)
  }

  // ---------------------------------------------------------------- ancestors

  function Up(q: Pos, level: nat): Pos
    decreases level - q.level
  {
    if q.level >= level then q else Up(q.Parent(), level)
  }

  lemma PagesInOrder(q: Pos)
    requires q.level <= 3
    ensures q.Page(0) < q.Page(512)
  {
  }

  lemma SpanOfParent(q: Pos)
    requires q.level < 3
    ensures q.Parent().Page(0) <= q.Page(0) && q.Page(512) <= q.Parent().Page(512)
  {
  }

  lemma SameSpan(q: Pos, c: Pos, x: nat)
    requires q.level == c.level <= 3
    requires q.Page(0) <= x < q.Page(512) && c.Page(0) <= x < c.Page(512)
    ensures q == c
  {
  }

  /** The table above that a page of c leads through is c. */
  lemma {:induction false} UpIs(q: Pos, c: Pos, x: nat)
    requires q.level <= c.level <= 3 && q.Page(0) <= x < q.Page(512) && c.Page(0) <= x < c.Page(512)
    ensures Up(q, c.level) == c
    decreases c.level - q.level
  {
    if q.level < c.level {
      SpanOfParent(q);
      UpIs(q.Parent(), c, x);
    } else {
      SameSpan(q, c, x);
    }
  }

  lemma {:induction false} UpExists(s: Space, q: Pos, level: nat)
    requires s.Good() && q in s.at && q.level <= level <= 3
    ensures Up(q, level) in s.at && Up(q, level).level == level
    decreases level - q.level
  {
    if q.level < level {
      ParentExists(s, q);
      UpExists(s, q.Parent(), level);
    }
  }

  lemma ParentExists(s: Space, q: Pos)
    requires s.Good() && q in s.at && q.level < 3
    ensures q.Parent() in s.at
  {
    hide CounterRight, EntriesRight, ViewRight, PoolRight;
    assert TableRight(s.mem, s.at, q);
  }

  // ---------------------------------------------------------------- sweeping

  lemma SweptNothing(mem: Memory, at: Places, first: nat, level: nat)
    ensures Swept(mem, at, first, first, level)
  {
  }

  /** Below a table that is gone, or never was, there is nothing to sweep. */
  lemma SweptGone(s: Space, c: Pos, first: nat, last: nat)
    requires s.Good() && c !in s.at && c.level < 3 && c.Page(0) <= first <= last <= c.Page(512)
    ensures Swept(s.mem, s.at, first, last, c.level + 1)
  {
    hide Space.Good, Pos.Page, Hollow;
    forall q | q in s.at && q.level < c.level + 1 && Meets(q, first, last) ensures false {
      PagesInOrder(q);
      UpIs(q, c, if q.Page(0) < first then first else q.Page(0));
      UpExists(s, q, c.level);
    }
  }

  /** A table that is not empty, with nothing empty below it. */
  lemma SweptChild(s: Space, c: Pos, first: nat, last: nat)
    requires s.Good() && c in s.at && c.level < 3 && c.Page(0) <= first <= last <= c.Page(512)
    requires Swept(s.mem, s.at, first, last, c.level) && !Hollow(s.mem, s.at, c)
    ensures Swept(s.mem, s.at, first, last, c.level + 1)
  {
    hide Space.Good, Pos.Page, Hollow;
    forall q | q in s.at && q.level < c.level + 1 && Meets(q, first, last) ensures !Hollow(s.mem, s.at, q) {
      if q.level == c.level {
        PagesInOrder(q);
        SameSpan(q, c, if q.Page(0) < first then first else q.Page(0));
      }
    }
  }

  /** Below an empty table there is nothing to sweep. */
  lemma SweptEmpty(s: Space, p: Pos, first: nat, last: nat)
    requires s.Good() && p in s.at && 0 < p.level <= 3 && p.Page(0) <= first <= last <= p.Page(512)
    requires s.at[p] in s.mem && |s.mem[s.at[p]]| == 512
    requires forall i :: 0 <= i < p.Slots() ==> !Present(s.mem[s.at[p]][i])
    ensures Swept(s.mem, s.at, first, last, p.level)
  {
    hide Space.Good, Pos.Page, Pos.Child, Pos.Slots, Hollow, Present, Span;
    forall q | q in s.at && q.level < p.level && Meets(q, first, last) ensures false {
      var x := if q.Page(0) < first then first else q.Page(0);
      UpExists(s, q, p.level - 1);
      PagesInOrder(q);
      var i := EntryTo(p, x);
      PageSteps(p, i);
      ChildIs(p, i);
      PageSteps(p.Child(i), 0);
      UpIs(q, p.Child(i), x);
      ChildPresent(s, p, i);
    }
  }

  lemma ChildPresent(s: Space, p: Pos, i: nat)
    requires s.Good() && p in s.at && 0 < p.level <= 3 && i < 512 && p.Child(i) in s.at
    ensures i < p.Slots() && s.at[p] in s.mem && |s.mem[s.at[p]]| == 512 && Present(s.mem[s.at[p]][i])
  {
    hide Present, Addr, Flags, CounterRight, ViewRight, PoolRight;
    OwnFrame(s, p);
    ChildIs(p, i);
    assert TableRight(s.mem, s.at, p.Child(i));
    assert EntryRight(s.mem[s.at[p]], s.at, s.view, p, i);
  }

  /** The entry that leads to a page. */
  lemma EntryTo(p: Pos, x: nat) returns (i: nat)
    requires p.level <= 3 && p.Page(0) <= x < p.Page(512)
    ensures i < 512 && p.Page(i) <= x < p.Page(i) + Span(p.level)
  {
    var u := Span(p.level);
    var r := x - p.Page(0);
    i := r / u;
    DivMod(r, u);
    SpanSteps(p.level);
    hide Span;
    PageSteps(p, i);
    if i >= 512 { MulMonotone(512, i, u); }
  }

  /** A further step extends the swept range. */
  lemma SweptMore(mem: Memory, at: Places, mem': Memory, at': Places, p: Pos, first: nat, mid: nat, last: nat)
    requires Swept(mem, at, first, mid, p.level) && Swept(mem', at', mid, last, p.level) && p.level <= 3
    requires NoNewHollow(mem, at, mem', at', p) && first <= mid <= last
    ensures Swept(mem', at', first, last, p.level)
  {
    hide Hollow, Pos.Page;
    forall q | q in at' && q.level < p.level && Meets(q, first, last) ensures !Hollow(mem', at', q) {
      PagesInOrder(q);
      assert Meets(q, first, mid) || Meets(q, mid, last);
    }
  }

  lemma HollowSame(mem: Memory, at: Places, p: Pos)
    ensures NoNewHollow(mem, at, mem, at, p)
  {
  }

  lemma HollowMore(m0: Memory, a0: Places, m1: Memory, a1: Places, m2: Memory, a2: Places, p: Pos)
    requires NoNewHollow(m0, a0, m1, a1, p) && NoNewHollow(m1, a1, m2, a2, p)
    ensures NoNewHollow(m0, a0, m2, a2, p)
  {
    hide Hollow;
  }

  /** The child, which alone may have become empty, is not, or is dropped. */
  lemma HollowChild(m0: Memory, a0: Places, m1: Memory, a1: Places, m2: Memory, a2: Places, c: Pos, p: Pos)
    requires NoNewHollow(m0, a0, m1, a1, c) && NoNewHollow(m1, a1, m2, a2, p) && a2.Keys <= a1.Keys
    requires c !in a2 || !Hollow(m2, a2, c)
    ensures NoNewHollow(m0, a0, m2, a2, p)
  {
    hide Hollow;
  }

  /** One table rewritten, others possibly dropped. */
  lemma HollowTouched(s: Space, mem': Memory, at': Places, p: Pos)
    requires s.Good() && p in s.at && Untouched(s.mem, mem', s.at, p) && forall q :: q in at' ==>
      q in s.at && at'[q] == s.at[q]
    ensures NoNewHollow(s.mem, s.at, mem', at', p)
  {
  }

  // ---------------------------------------------------------------- no empty tables

  lemma FullIs(s: Space)
    requires s.Good()
    ensures FullBut(s.mem, s.at, Pos(3, 0)) <==> forall q :: q in s.at ==> !Hollow(s.mem, s.at, q)
  {
    forall q | q in s.at ensures s.at[q] in s.mem && |s.mem[s.at[q]]| == 512 { OwnFrame(s, q); }
  }

  lemma FullStays(s: Space, t: Space)
    requires s.Good() && t.Good() && FullBut(s.mem, s.at, Pos(3, 0)) && NoNewHollow(s.mem, s.at, t.mem, t.at, Pos(3, 0))
    ensures FullBut(t.mem, t.at, Pos(3, 0))
  {
    FullIs(s);
    FullIs(t);
  }

  // ---------------------------------------------------------------- new tables

  lemma NothingNew(at: Places, first: nat)
    ensures NewWithin(at, at, first, first)
  {
  }

  lemma NewMore(a: Places, b: Places, c: Places, first: nat, mid: nat, last: nat)
    requires NewWithin(a, b, first, mid) && NewWithin(b, c, mid, last) && first <= mid <= last
    ensures NewWithin(a, c, first, last)
  {
    hide Pos.Page;
  }

  /** One new table, and those below it. */
  lemma NewChild(a: Places, b: Places, c: Places, k: Pos, first: nat, last: nat)
    requires b.Keys <= a.Keys + {k} && NewWithin(b, c, first, last) && k.Page(0) <= first < k.Page(512) && first < last
    ensures NewWithin(a, c, first, last)
  {
    hide Pos.Page;
  }
}
