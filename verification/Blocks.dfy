/** Naturally aligned power-of-two blocks, and the one fact about them the buddy
    allocator rests on: a coalesced tiling of a range is determined by the part
    of the range that is taken. */
module Blocks {
  import opened Bits

  datatype Block = Block(addr: nat, bits: nat) {
    function Size(): nat { Pow2(bits) }

    function End(): nat { addr + Pow2(bits) }

    predicate Aligned() { addr % Pow2(bits) == 0 }

    predicate Has(x: int) { addr <= x < addr + Pow2(bits) }

    predicate Within(o: Block) { o.addr <= addr && End() <= o.End() }

    predicate Apart(o: Block) { End() <= o.addr || o.End() <= addr }

    function Lower(): Block
      requires bits > 0
    {
      Block(addr, bits - 1)
    }

    function Upper(): Block
      requires bits > 0
    {
      Block(addr + Pow2(bits - 1), bits - 1)
    }

    function Buddy(): Block { Block(Xor(addr, Pow2(bits)), bits) }

    function Parent(): Block { Block(if Buddy().addr < addr then Buddy().addr else addr, bits + 1) }
  }

  /** The part of the machine's memory an allocator owns, in chunks of 2^fo bytes. */
  datatype Range = Range(lo: nat, hi: nat, fo: nat) {
    predicate Places(b: Block) {
      fo <= b.bits && b.Aligned() && lo <= b.addr && b.End() <= hi
    }
  }

  ghost predicate Covered(s: set<Block>, x: int) {
    exists b :: b in s && b.Has(x)
  }

  /** The blocks of s are placed in the range, do not overlap and leave no gap. */
  ghost predicate Tiles(s: set<Block>, r: Range) {
    && (forall b :: b in s ==> r.Places(b))
    && (forall a, b :: a in s && b in s && a != b ==> a.Apart(b))
    && (forall x :: r.lo <= x < r.hi ==> Covered(s, x))
  }

  /** No two buddies are both in the set. */
  ghost predicate Coalesced(s: set<Block>) {
    forall b :: b in s ==> b.Buddy() !in s
  }

  /** A placed block whose parent would leave the range. */
  predicate Maximal(b: Block, r: Range) {
    r.Places(b) && !r.Places(b.Parent())
  }

  // ---------------------------------------------------------------- geometry

  /** Aligned blocks that share an address are nested. */
  lemma Nested(a: Block, b: Block, x: nat)
    requires a.Aligned() && b.Aligned() && a.bits <= b.bits && a.Has(x) && b.Has(x)
    ensures a.Within(b)
    ensures a.bits == b.bits ==> a == b
  {
    hide Pow2;
    ModWeaken(b.addr, a.bits, b.bits);
    Pow2Add(a.bits, b.bits - a.bits);
    NestedIntervals(a.addr, b.addr, a.Size(), Pow2(b.bits - a.bits));
  }

  lemma Halves(b: Block)
    requires b.Aligned() && b.bits > 0
    ensures b.Lower().Aligned() && b.Upper().Aligned()
    ensures b.Lower().Buddy() == b.Upper() && b.Upper().Buddy() == b.Lower()
    ensures b.Lower().Parent() == b && b.Upper().Parent() == b
  {
    hide Xor;
    HalfMods(b.addr, Pow2(b.bits - 1));
    XorPow2(b.addr, b.bits - 1);
    XorPow2(b.addr + Pow2(b.bits - 1), b.bits - 1);
  }

  /** A block is a half of its parent, and its buddy is the other half. */
  lemma Family(b: Block)
    requires b.Aligned()
    ensures b.Parent().Aligned() && b.Buddy() != b && b.Buddy().Buddy() == b
    ensures b.Parent().addr == if b.addr < b.Buddy().addr then b.addr else b.Buddy().addr
    ensures (b == b.Parent().Lower() && b.Buddy() == b.Parent().Upper())
         || (b == b.Parent().Upper() && b.Buddy() == b.Parent().Lower())
  {
    XorPow2(b.addr, b.bits);
    ParentMods(b.addr, Pow2(b.bits));
    Halves(b.Parent());
  }

  // ---------------------------------------------------------------- tilings

  lemma SplitTiles(s: set<Block>, r: Range, v: Block)
    requires Tiles(s, r) && v in s && r.fo < v.bits
    ensures Tiles(s - {v} + {v.Lower(), v.Upper()}, r)
  {
    Halves(v);
    var l, u := v.Lower(), v.Upper();
    var t := s - {v} + {l, u};
    assert l.End() == u.addr && u.End() == v.End();
    forall a, b | a in t && b in t && a != b ensures a.Apart(b) {
      var a' := if a == l || a == u then v else a;
      var b' := if b == l || b == u then v else b;
      assert a' in s && b' in s;
    }
    forall x | r.lo <= x < r.hi ensures Covered(t, x) {
      assert Covered(s, x);
      var b :| b in s && b.Has(x);
      var c := if b != v then b else if l.Has(x) then l else u;
      assert c in t && c.Has(x);
    }
  }

  lemma MergeTiles(s: set<Block>, r: Range, p: Block)
    requires Tiles(s, r) && p.bits > 0 && p.Aligned() && p.Lower() in s && p.Upper() in s
    ensures Tiles(s - {p.Lower(), p.Upper()} + {p}, r)
  {
    var l, u := p.Lower(), p.Upper();
    var t := s - {l, u} + {p};
    assert l.End() == u.addr && u.End() == p.End();
    forall b | b in s && b != l && b != u ensures b.Apart(p) && p.Apart(b) {
      assert b.Apart(l) && b.Apart(u);
    }
    forall x | r.lo <= x < r.hi ensures Covered(t, x) {
      assert Covered(s, x);
      var b :| b in s && b.Has(x);
      var c := if b == l || b == u then p else b;
      assert c in t && c.Has(x);
    }
  }

  /** Every placed region that meets no taken block lies inside one free block. */
  lemma {:induction false} Swallowed(free: set<Block>, live: set<Block>, r: Range, g: Block) returns (f: Block)
    requires Tiles(free + live, r) && Coalesced(free) && r.Places(g)
    requires forall l :: l in live ==> l.Apart(g)
    ensures f in free && g.Within(f) && g.bits <= f.bits
    decreases g.bits
  {
    assert Covered(free + live, g.addr);
    if g.bits == r.fo {
      f :| f in free + live && f.Has(g.addr);
      Nested(g, f, g.addr);
    } else {
      Halves(g);
      f := Swallowed(free, live, r, g.Lower());
      var u := Swallowed(free, live, r, g.Upper());
      if f.bits >= g.bits {
        Nested(g, f, g.addr);
      } else if u.bits >= g.bits {
        Nested(g, u, g.Upper().addr);
        f := u;
      } else {
        assert false; // f and u would be the two halves, free buddies
      }
    }
  }

  lemma FreeInOther(f1: set<Block>, f2: set<Block>, live: set<Block>, r: Range, a: Block)
    requires Tiles(f1 + live, r) && Coalesced(f1) && f1 !! live
    requires Tiles(f2 + live, r) && Coalesced(f2) && f2 !! live
    requires a in f1
    ensures a in f2
  {
    var b := Swallowed(f2, live, r, a);
    var c := Swallowed(f1, live, r, b);
    assert !a.Apart(c);
  }

  /** The coalesced free blocks are a function of the taken ones: the order in which
      blocks were taken and given back leaves no trace. */
  lemma FreeDetermined(f1: set<Block>, f2: set<Block>, live: set<Block>, r: Range)
    requires Tiles(f1 + live, r) && Coalesced(f1) && f1 !! live
    requires Tiles(f2 + live, r) && Coalesced(f2) && f2 !! live
    ensures f1 == f2
  {
    forall a ensures a in f1 <==> a in f2 {
      if a in f1 { FreeInOther(f1, f2, live, r, a); }
      if a in f2 { FreeInOther(f2, f1, live, r, a); }
    }
  }

  /** With nothing taken, the coalesced tiling is exactly the maximal placed blocks. */
  lemma FullTilingIsMaximal(free: set<Block>, r: Range)
    requires Tiles(free, r) && Coalesced(free)
    ensures forall b :: b in free <==> Maximal(b, r)
  {
    assert free + {} == free;
    forall b ensures b in free <==> Maximal(b, r) {
      if b in free && r.Places(b.Parent()) {
        Family(b);
        var f := Swallowed(free, {}, r, b.Parent());
        assert false; // b would lie properly inside f
      }
      if Maximal(b, r) {
        var f := Swallowed(free, {}, r, b);
        if f.bits == b.bits {
          Nested(f, b, b.addr);
        } else {
          Family(b);
          Nested(b.Parent(), f, b.addr);
          assert false; // the parent would be placed
        }
      }
    }
  }

  // ---------------------------------------------------------------- sizes

  ghost function Bytes(s: set<Block>): nat {
    if s == {} then 0 else var b :| b in s; b.Size() + Bytes(s - {b})
  }

  lemma {:induction false} BytesRemove(s: set<Block>, b: Block)
    requires b in s
    ensures Bytes(s) == b.Size() + Bytes(s - {b})
  {
    var c :| c in s && Bytes(s) == c.Size() + Bytes(s - {c});
    if b != c {
      BytesRemove(s - {c}, b);
      BytesRemove(s - {b}, c);
      assert s - {c} - {b} == s - {b} - {c};
    }
  }

  lemma BytesAdd(s: set<Block>, b: Block)
    requires b !in s
    ensures Bytes(s + {b}) == b.Size() + Bytes(s)
  {
    BytesRemove(s + {b}, b);
    assert s + {b} - {b} == s;
  }

  lemma BytesSplit(s: set<Block>, v: Block)
    requires v.bits > 0 && v in s && v.Lower() !in s && v.Upper() !in s
    ensures Bytes(s - {v} + {v.Lower(), v.Upper()}) == Bytes(s)
  {
    BytesRemove(s, v);
    BytesAdd(s - {v}, v.Lower());
    BytesAdd(s - {v} + {v.Lower()}, v.Upper());
    assert s - {v} + {v.Lower()} + {v.Upper()} == s - {v} + {v.Lower(), v.Upper()};
  }
}
