/** What holds of the allocator over whole runs. */
module Recovery {
  import opened Bits
  import opened Blocks
  import opened FreeLists
  import opened BuddyState
  import opened Buddy

  datatype Op = Take(order: nat) | Give(mem: nat) | Write(mem: nat, offset: nat, word: nat)

  /** With no live block the free lists hold exactly the zones `init` built. */
  lemma FullRecovery(a: PAllocator)
    requires a.Valid() && a.live == {}
    ensures forall b :: b in a.free <==> Maximal(b, a.Region())
    ensures forall b :: Maximal(b, a.Region()) <==>
      0 <= b.bits - a.foBits < |a.lists| && b.addr in a.lists[b.bits - a.foBits]
  {
    hide MetaAgree, HeadersAgree, Bytes;
    assert a.free + {} == a.free;
    FullTilingIsMaximal(a.free, a.Region());
    forall b
      ensures Maximal(b, a.Region()) <==> 0 <= b.bits - a.foBits < |a.lists| && b.addr in a.lists[b.bits - a.foBits] {
      assert b in a.free <==> Listed(a.lists, a.foBits, b);
    }
  }

  /** Any run of allocations, frees and writes by the owners keeps the allocator valid, and
      once the same blocks are live again the same blocks are free again, whatever the order
      of the steps in between. */
  method Run(a: PAllocator, ops: seq<Op>)
    requires a.Valid() && a.Narrow()
    modifies a`lists, a`header, a`free, a`live, a`freeSpace, a`freed, a.meta
    ensures a.Valid() && a.Narrow()
    ensures a.live == old(a.live) ==> a.free == old(a.free)
    ensures a.live == {} ==> forall b :: b in a.free <==> Maximal(b, a.Region())
  {
    hide State.Good, Coalesced, CoalescedBut, Bytes, Range.Places;
    ghost var before := a.Abs();
    for i := 0 to |ops|
      invariant a.Valid() && a.Narrow()
    {
      match ops[i]
      case Take(order) =>
        var out; ghost var v;
        out, v := a.OAlloc(order);
      case Give(mem) =>
        a.Free(mem);
      case Write(mem, offset, word) =>
        OwnerWrites(a, mem, offset, word);
    }
    if a.live == before.live {
      SameLiveSameFree(before, a.Abs());
    }
    if a.live == {} {
      FullRecovery(a);
    }
  }

  /** The owner of the block that mem starts writes a word inside it. */
  method OwnerWrites(a: PAllocator, mem: nat, offset: nat, word: nat)
    requires a.Valid()
    modifies a`header
    ensures a.Valid()
  {
    hide State.Good, Coalesced, Bytes, Range.Places;
    if a.startAddr <= mem < a.endAddr {
      MetaTells(a.Abs(), mem);
      var r := Range(a.startAddr, a.endAddr, a.foBits);
      var meta := a.meta[Chunk(r, mem)];
      var b := Block(Head(r, Chunk(r, mem)), a.foBits + meta.order);
      if meta.alloced && offset < b.Size() {
        a.ClientWrite(b.addr + offset, word, b);
      }
    }
  }

  lemma SameLiveSameFree(s: State, t: State)
    requires s.Good() && t.Good() && Coalesced(s.free) && Coalesced(t.free) && s.live == t.live && s.r == t.r
    ensures s.free == t.free
  {
    FreeDetermined(s.free, t.free, s.live, s.r);
  }

  /** Giving back what was just allocated undoes the allocation, except in the counter
      of free bytes, which stays short by the size of the block. */
  method TakeAndGive(a: PAllocator, order: nat)
    requires a.Valid() && a.Narrow()
    modifies a`lists, a`header, a`free, a`live, a`freeSpace, a`freed, a.meta
    ensures a.Valid() && a.live == old(a.live) && a.free == old(a.free)
    ensures Available(old(a.Abs()), order) ==> a.freeSpace == (old(a.freeSpace) - Pow2(a.foBits + order)) % WORD
  {
    hide State.Good, Coalesced, CoalescedBut, Bytes, Range.Places, Available, Chosen, Pow2;
    ghost var before := a.Abs();
    var out; ghost var v;
    out, v := a.OAlloc(order);
    if out.Some? {
      ghost var b := Block(out.value, a.foBits + order);
      Pow2Monotone(0, a.foBits);
      assert InFirstChunk(b, out.value, a.foBits);
      a.Free(out.value);
      assert before.live + {b} - {b} == before.live;
      SameLiveSameFree(before, a.Abs());
    }
  }

  /** The free-byte counter is right exactly when nothing has been given back, modulo 2^64:
      `free` never adds to it. */
  lemma FreeSpaceExact(a: PAllocator)
    requires a.Valid()
    ensures Bytes(a.free) + Bytes(a.live) == a.endAddr - a.startAddr
    ensures a.freeSpace == Bytes(a.free) <==> a.freed % WORD == 0
  {
    hide Tiles, ListsAgree, MetaAgree, HeadersAgree, Bytes, Coalesced, Sized, Pow2, Range.Places;
  }

  /** The order sizes are values of the `int` shift exactly when no aligned 2 GiB block
      fits in the range. */
  lemma NarrowExactly(a: PAllocator)
    requires a.Valid() && a.startAddr < a.endAddr && a.foBits <= 31
    ensures a.Narrow() <==> forall g: Block :: g.bits == 31 ==> !a.Region().Places(g)
    ensures a.Narrow() <==> forall o :: 0 <= o <= a.maxOrder ==> a.GetOrderSize(o) == Some(Pow2(o + a.foBits))
  {
    hide Tiles, ListsAgree, MetaAgree, HeadersAgree, Bytes, Coalesced;
    if !a.Narrow() {
      var g := Block(a.top.addr, 31);
      ModWeaken(g.addr, 31, a.top.bits);
      Pow2Monotone(31, a.top.bits);
      assert a.Region().Places(g);
      assert a.GetOrderSize(a.maxOrder) == None;
    }
  }

  /** Live blocks, free blocks and the metadata table never overlap. */
  lemma Separate(a: PAllocator, b: Block, c: Block)
    requires a.Valid() && b in a.live && c in a.live + a.free && b != c
    ensures b.Apart(c) && b.Aligned() && a.startAddr <= b.addr && b.End() <= a.endAddr
    ensures a.endAddr + Chunk(a.Region(), b.addr) < a.endMeta
    ensures a.meta[Chunk(a.Region(), b.addr)] == Metadata(true, b.bits - a.foBits)
  {
    hide ListsAgree, HeadersAgree, Bytes, Coalesced;
    assert b in a.free + a.live && c in a.free + a.live;
    assert Recorded(a.meta[..], a.Region(), b);
  }
}
