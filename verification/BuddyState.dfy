/** The allocator's whole state as a value, and what one split, take, give or merge
    does to it. The class in Buddy.dfy performs these steps on its tables. */
module BuddyState {
  import opened Bits
  import opened Blocks
  import opened FreeLists

  datatype State = State(
    ls: seq<seq<nat>>, ms: seq<Metadata>, header: map<nat, nat>,
    free: set<Block>, live: set<Block>, r: Range, top: nat)
  {
    ghost predicate Good() {
      && Ground(free, live, r)
      && ListsAgree(ls, free, r.fo, top)
      && MetaAgree(ms, live, r)
      && HeadersAgree(header, free)
      && Sized(r, top, |ms|)
    }

    function Order(b: Block): int { b.bits - r.fo }
  }

  /** Free and live blocks share out the range. */
  ghost predicate Ground(free: set<Block>, live: set<Block>, r: Range) {
    && Tiles(free + live, r) && free !! live
    && Bytes(free) + Bytes(live) == r.hi - r.lo
  }

  /** The tables are large enough for the range. */
  ghost predicate Sized(r: Range, top: nat, bytes: nat) {
    && r.lo <= r.hi && r.lo % Pow2(r.fo) == 0 && r.hi % Pow2(r.fo) == 0
    && Chunk(r, r.hi) <= bytes
    && forall g :: r.Places(g) ==> g.bits <= r.fo + top
  }

  lemma SplitGround(free: set<Block>, live: set<Block>, r: Range, v: Block)
    requires Ground(free, live, r) && v in free && r.fo < v.bits
    ensures v.Lower() !in free + live && v.Upper() !in free + live
    ensures Ground(free - {v} + {v.Lower(), v.Upper()}, live, r)
    ensures Bytes(free - {v} + {v.Lower(), v.Upper()}) == Bytes(free)
    ensures forall f :: f in free && f != v ==> f.addr != v.addr && f.addr != v.Upper().addr
  {
    hide Bytes, Covered, Block.Aligned;
    var l, u := v.Lower(), v.Upper();
    assert v in free + live;
    forall b | b in free + live && b != v ensures b.addr != v.addr && b.addr != u.addr && b != l && b != u {
      assert b.Apart(v);
    }
    SplitTiles(free + live, r, v);
    assert free + live - {v} + {l, u} == (free - {v} + {l, u}) + live;
    BytesSplit(free, v);
  }

  lemma MoveGround(from: set<Block>, to: set<Block>, r: Range, b: Block)
    requires Ground(from, to, r) && b in from
    ensures Ground(from - {b}, to + {b}, r)
    ensures r.Places(b) && Bytes(from - {b}) == Bytes(from) - b.Size()
    ensures forall f :: f in from + to && f != b ==> f.addr != b.addr
  {
    assert b in from + to;
    forall f | f in from + to && f != b ensures f.addr != b.addr { assert f.Apart(b); }
    BytesRemove(from, b);
    BytesAdd(to, b);
    assert (from - {b}) + (to + {b}) == from + to;
  }

  lemma MergeGround(free: set<Block>, live: set<Block>, r: Range, p: Block)
    requires Ground(free, live, r) && p.bits > 0 && p.Aligned() && p.Lower() in free && p.Upper() in free
    ensures r.Places(p) && p !in free + live
    ensures Ground(free - {p.Lower(), p.Upper()} + {p}, live, r)
    ensures Bytes(free - {p.Lower(), p.Upper()} + {p}) == Bytes(free)
    ensures forall f :: f in free && f != p.Lower() ==> f.addr != p.addr
  {
    var l, u := p.Lower(), p.Upper();
    assert l in free + live && u in free + live;
    assert p !in free + live by { assert !p.Apart(l) && p != l; }
    forall f | f in free && f != l ensures f.addr != p.addr { assert f in free + live && f.Apart(l); }
    MergeTiles(free + live, r, p);
    var free' := free - {l, u} + {p};
    assert free + live - {l, u} + {p} == free' + live;
    assert free' - {p} + {l, u} == free;
    BytesSplit(free', p);
  }

  lemma GroundSymmetric(a: set<Block>, b: set<Block>, r: Range)
    requires Ground(a, b, r)
    ensures Ground(b, a, r)
  {
    assert a + b == b + a;
  }

  /** No free buddies, except possibly b and its buddy. */
  ghost predicate CoalescedBut(free: set<Block>, b: Block) {
    forall f :: f in free && f != b && f.Buddy() != b ==> f.Buddy() !in free
  }

  lemma CoalescedIsBut(free: set<Block>, b: Block)
    requires Coalesced(free)
    ensures CoalescedBut(free, b)
  {
  }

  function Last(s: State, k: nat): Block
    requires k < |s.ls| && s.ls[k] != []
  {
    Block(s.ls[k][|s.ls[k]| - 1], s.r.fo + k)
  }

  // ---------------------------------------------------------------- split

  function Split(s: State, k: nat): State
    requires 0 < k < |s.ls| && s.ls[k] != []
    requires Last(s, k).addr in s.header
  {
    var v := Last(s, k);
    var half := s.header[v.addr] / 2;
    var buddy := Xor(v.addr, half);
    s.(ls := Appended(Appended(Popped(s.ls, k), k - 1, v.addr), k - 1, buddy),
       header := s.header[v.addr := half][buddy := half],
       free := s.free - {v} + {v.Lower(), v.Upper()})
  }

  lemma LastIsFree(s: State, k: nat)
    requires s.Good() && k < |s.ls| && s.ls[k] != []
    ensures k <= s.top && Last(s, k) in s.free && s.r.Places(Last(s, k))
    ensures Last(s, k).addr in s.header && s.header[Last(s, k).addr] == Last(s, k).Size()
  {
    assert Listed(s.ls, s.r.fo, Last(s, k));
    assert Last(s, k) in s.free + s.live;
  }

  lemma SplitGood(s: State, k: nat)
    requires s.Good() && 0 < k < |s.ls| && s.ls[k] != []
    ensures Last(s, k).addr in s.header && Split(s, k).Good()
    ensures Last(s, k) in s.free
    ensures Split(s, k).ls[k - 1] != [] && Last(Split(s, k), k - 1) == Last(s, k).Upper()
    ensures Last(s, k).Upper().End() == Last(s, k).End()
    ensures Bytes(Split(s, k).free) == Bytes(s.free)
  {
    LastIsFree(s, k);
    var v := Last(s, k);
    Halves(v);
    HalfSize(v);
    SplitGround(s.free, s.live, s.r, v);
    SplitLists(s, k);
    SplitHeaders(s.header, s.free, v);
  }

  lemma HalfSize(v: Block)
    requires v.Aligned() && v.bits > 0
    ensures v.Size() / 2 == Pow2(v.bits - 1) && Xor(v.addr, v.Size() / 2) == v.Upper().addr
  {
    Halves(v);
    assert Pow2(v.bits) == 2 * Pow2(v.bits - 1);
    assert v.Lower().Buddy().addr == v.Upper().addr;
  }

  lemma SplitHeaders(header: map<nat, nat>, free: set<Block>, v: Block)
    requires HeadersAgree(header, free) && v.bits > 0
    requires forall f :: f in free && f != v ==> f.addr != v.addr && f.addr != v.Upper().addr
    ensures HeadersAgree(header[v.addr := Pow2(v.bits - 1)][v.Upper().addr := Pow2(v.bits - 1)],
                         free - {v} + {v.Lower(), v.Upper()})
  {
  }

  lemma MergeHeaders(header: map<nat, nat>, free: set<Block>, p: Block)
    requires HeadersAgree(header, free) && p.bits > 0
    requires forall f :: f in free && f != p.Lower() ==> f.addr != p.addr
    ensures HeadersAgree(header[p.addr := p.Size()], free - {p.Lower(), p.Upper()} + {p})
  {
  }

  lemma SplitLists(s: State, k: nat)
    requires ListsAgree(s.ls, s.free, s.r.fo, s.top) && 0 < k <= s.top && s.ls[k] != []
    requires Last(s, k).Lower() !in s.free && Last(s, k).Upper() !in s.free && Last(s, k) in s.free
    ensures ListsAgree(Appended(Appended(Popped(s.ls, k), k - 1, Last(s, k).addr), k - 1, Last(s, k).Upper().addr),
                       s.free - {Last(s, k)} + {Last(s, k).Lower(), Last(s, k).Upper()}, s.r.fo, s.top)
  {
    var v := Last(s, k);
    var l, u := v.Lower(), v.Upper();
    assert l != u;
    ListsPop(s.ls, s.free, s.r.fo, s.top, k);
    ListsAppend(Popped(s.ls, k), s.free - {v}, s.r.fo, s.top, k - 1, l.addr);
    ListsAppend(Appended(Popped(s.ls, k), k - 1, l.addr), s.free - {v} + {l}, s.r.fo, s.top, k - 1, u.addr);
    assert s.free - {v} + {l} + {u} == s.free - {v} + {l, u};
  }

  lemma SplitCoalesced(s: State, k: nat)
    requires s.Good() && 0 < k < |s.ls| && s.ls[k] != [] && Last(s, k).addr in s.header
    requires CoalescedBut(s.free, Last(s, k))
    ensures CoalescedBut(Split(s, k).free, Last(s, k).Upper())
  {
    LastIsFree(s, k);
    var v := Last(s, k);
    Halves(v);
    SplitGround(s.free, s.live, s.r, v);
    forall f | f in s.free && f != v ensures f.Buddy() != v.Lower() && f.Buddy() != v.Upper() {
      assert f in s.free + s.live;
      Family(f);
    }
  }

  // ---------------------------------------------------------------- take

  function Take(s: State, k: nat): State
    requires k < |s.ls| && s.ls[k] != [] && s.r.lo <= Last(s, k).addr
    requires Chunk(s.r, Last(s, k).addr) < |s.ms|
  {
    var v := Last(s, k);
    s.(ls := Popped(s.ls, k), ms := s.ms[Chunk(s.r, v.addr) := Metadata(true, k)],
       free := s.free - {v}, live := s.live + {v})
  }

  lemma TakeGood(s: State, k: nat)
    requires s.Good() && k < |s.ls| && s.ls[k] != []
    ensures s.r.Places(Last(s, k)) && Chunk(s.r, Last(s, k).addr) < |s.ms|
    ensures Take(s, k).Good() && Last(s, k) in s.free && Last(s, k) !in s.live
    ensures Bytes(s.free - {Last(s, k)}) == Bytes(s.free) - Last(s, k).Size()
  {
    LastIsFree(s, k);
    var v := Last(s, k);
    PlacedChunk(s.r, v);
    MoveGround(s.free, s.live, s.r, v);
    MetaTake(s.ms, s.live, s.r, v);
    ListsPop(s.ls, s.free, s.r.fo, s.top, k);
  }

  // ---------------------------------------------------------------- give back

  function Give(s: State, b: Block): State
    requires b in s.live && s.Order(b) >= 0 && s.Order(b) < |s.ls|
    requires s.r.lo <= b.addr && Chunk(s.r, b.addr) < |s.ms|
  {
    var c := Chunk(s.r, b.addr);
    s.(ls := Appended(s.ls, s.Order(b), b.addr), ms := s.ms[c := Metadata(false, s.ms[c].order)],
       header := s.header[b.addr := b.Size()], free := s.free + {b}, live := s.live - {b})
  }

  lemma GiveGood(s: State, b: Block)
    requires s.Good() && b in s.live
    ensures s.r.Places(b) && 0 <= s.Order(b) <= s.top && s.top < |s.ls| && Recorded(s.ms, s.r, b) && Give(s, b).Good()
    ensures Bytes(s.free + {b}) == Bytes(s.free) + b.Size()
  {
    GroundSymmetric(s.free, s.live, s.r);
    MoveGround(s.live, s.free, s.r, b);
    GroundSymmetric(s.live - {b}, s.free + {b}, s.r);
    MetaDrop(s.ms, s.live, s.r, b);
    ListsAppend(s.ls, s.free, s.r.fo, s.top, s.Order(b), b.addr);
    BytesAdd(s.free, b);
    assert Block(b.addr, s.r.fo + s.Order(b)) == b;
  }

  // ---------------------------------------------------------------- merge

  function Merge(s: State, b: Block): State
    requires s.Order(b) >= 0 && s.Order(b) + 1 < |s.ls|
  {
    var p, k := b.Parent(), s.Order(b);
    s.(ls := Appended(Unlinked(Unlinked(s.ls, k, p.Lower().addr), k, p.Upper().addr), k + 1, p.addr),
       header := s.header[p.addr := p.Size()],
       free := s.free - {p.Lower(), p.Upper()} + {p})
  }

  lemma MergeGood(s: State, b: Block)
    requires s.Good() && b in s.free && b.Buddy() in s.free
    ensures b.Aligned() && 0 <= s.Order(b) && s.Order(b) + 1 < |s.ls|
    ensures Merge(s, b).Good()
    ensures Bytes(Merge(s, b).free) == Bytes(s.free)
  {
    assert b in s.free + s.live && b.Buddy() in s.free + s.live;
    Family(b);
    var p := b.Parent();
    MergeGround(s.free, s.live, s.r, p);
    MergeLists(s, p);
    MergeHeaders(s.header, s.free, p);
  }

  lemma MergeCoalesced(s: State, b: Block)
    requires s.Good() && b in s.free && b.Buddy() in s.free && CoalescedBut(s.free, b)
    ensures CoalescedBut(s.free - {b.Parent().Lower(), b.Parent().Upper()} + {b.Parent()}, b.Parent())
  {
    assert b in s.free + s.live;
    Family(b);
    Halves(b.Parent());
  }

  lemma MergeLists(s: State, p: Block)
    requires ListsAgree(s.ls, s.free, s.r.fo, s.top)
    requires p.bits > 0 && p !in s.free && p.Lower() in s.free && p.Upper() in s.free
    requires p.bits <= s.r.fo + s.top
    ensures 0 <= s.Order(p) - 1 && s.Order(p) < |s.ls|
    ensures ListsAgree(Appended(Unlinked(Unlinked(s.ls, s.Order(p) - 1, p.Lower().addr), s.Order(p) - 1,
      p.Upper().addr), s.Order(p), p.addr),
                       s.free - {p.Lower(), p.Upper()} + {p}, s.r.fo, s.top)
  {
    var l, u, k := p.Lower(), p.Upper(), s.Order(p) - 1;
    assert l != u;
    ListsUnlink(s.ls, s.free, s.r.fo, s.top, k, l.addr);
    ListsUnlink(Unlinked(s.ls, k, l.addr), s.free - {l}, s.r.fo, s.top, k, u.addr);
    assert s.free - {l} - {u} == s.free - {l, u};
    ListsAppend(Unlinked(Unlinked(s.ls, k, l.addr), k, u.addr), s.free - {l, u}, s.r.fo, s.top, k + 1, p.addr);
  }

  // ---------------------------------------------------------------- the buddy test

  /** The block over a placed buddy of a free block starts at the buddy's address. */
  lemma OverBuddy(free: set<Block>, live: set<Block>, r: Range, b: Block) returns (f: Block)
    requires Ground(free, live, r) && b in free && r.Places(b.Buddy())
    ensures f in free + live && f.addr == b.Buddy().addr
    ensures forall g :: g in free + live && g.addr == f.addr ==> g == f
  {
    var m := b.Buddy();
    assert b in free + live;
    assert Covered(free + live, m.addr);
    f :| f in free + live && f.Has(m.addr);
    Family(b);
    if f.bits > b.bits {
      Nested(b.Parent(), f, m.addr);
      assert false; // f and b overlap
    } else {
      Nested(f, m, m.addr);
    }
    forall g | g in free + live && g.addr == f.addr ensures g == f { assert !g.Apart(f); }
  }

  /** Where a placed buddy's metadata says "not allocated", the first word there is a
      valid size, and it equals ours exactly when the buddy itself is free. */
  lemma BuddyHeader(s: State, b: Block)
    requires s.Good() && b in s.free && s.r.Places(b.Buddy())
    ensures Chunk(s.r, b.Buddy().addr) < |s.ms|
    ensures s.ms[Chunk(s.r, b.Buddy().addr)].alloced ==> b.Buddy() !in s.free
    ensures !s.ms[Chunk(s.r, b.Buddy().addr)].alloced ==>
      b.Buddy().addr in s.header && (s.header[b.Buddy().addr] == b.Size() <==> b.Buddy() in s.free)
  {
    var m := b.Buddy();
    var f := OverBuddy(s.free, s.live, s.r, b);
    PlacedChunk(s.r, m);
    var meta := s.ms[Chunk(s.r, m.addr)];
    if meta.alloced {
      assert Block(m.addr, s.r.fo + meta.order) in s.free + s.live;
    } else {
      assert f !in s.live by { assert f in s.live ==> Recorded(s.ms, s.r, f); }
      if f.Size() == b.Size() { Pow2Injective(f.bits, b.bits); }
    }
    assert m in s.free ==> m in s.free + s.live;
  }
}
