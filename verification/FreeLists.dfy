/** How the allocator's concrete tables (the per-order free lists, the metadata bytes
    and the sizes stored inside free memory) record sets of free and live blocks. */
module FreeLists {
  import opened Bits
  import opened Blocks
  import opened Sequences

  const ORDERS: nat := 39

  datatype Metadata = Metadata(alloced: bool, order: nat)

  predicate Listed(ls: seq<seq<nat>>, fo: nat, b: Block) {
    fo <= b.bits < fo + |ls| && b.addr in ls[b.bits - fo]
  }

  /** List k holds exactly the addresses of the free blocks of order k, each once. */
  ghost predicate ListsAgree(ls: seq<seq<nat>>, free: set<Block>, fo: nat, top: nat) {
    && |ls| == ORDERS && top < ORDERS
    && (forall b :: b in free <==> Listed(ls, fo, b))
    && (forall b :: b in free ==> b.bits <= fo + top)
    && (forall k :: 0 <= k < ORDERS ==> Distinct(ls[k]))
  }

  function Popped(ls: seq<seq<nat>>, k: nat): seq<seq<nat>>
    requires k < |ls| && ls[k] != []
  {
    ls[k := ls[k][..|ls[k]| - 1]]
  }

  function Appended(ls: seq<seq<nat>>, k: nat, a: nat): seq<seq<nat>>
    requires k < |ls|
  {
    ls[k := ls[k] + [a]]
  }

  function Unlinked(ls: seq<seq<nat>>, k: nat, a: nat): seq<seq<nat>>
    requires k < |ls|
  {
    ls[k := Without(ls[k], a)]
  }

  lemma ListsAppend(ls: seq<seq<nat>>, free: set<Block>, fo: nat, top: nat, k: nat, a: nat)
    requires ListsAgree(ls, free, fo, top) && k <= top && Block(a, fo + k) !in free
    ensures ListsAgree(Appended(ls, k, a), free + {Block(a, fo + k)}, fo, top)
  {
    assert !Listed(ls, fo, Block(a, fo + k));
  }

  lemma ListsPop(ls: seq<seq<nat>>, free: set<Block>, fo: nat, top: nat, k: nat)
    requires ListsAgree(ls, free, fo, top) && k <= top && ls[k] != []
    ensures Block(ls[k][|ls[k]| - 1], fo + k) in free
    ensures ListsAgree(Popped(ls, k), free - {Block(ls[k][|ls[k]| - 1], fo + k)}, fo, top)
  {
    var s, n := ls[k], |ls[k]| - 1;
    assert s == s[..n] + [s[n]];
    assert s[n] in s;
    assert Listed(ls, fo, Block(s[n], fo + k));
    assert s[n] !in s[..n];
    assert forall y :: y in s <==> y in s[..n] || y == s[n];
  }

  lemma ListsUnlink(ls: seq<seq<nat>>, free: set<Block>, fo: nat, top: nat, k: nat, a: nat)
    requires ListsAgree(ls, free, fo, top) && k <= top && Block(a, fo + k) in free
    ensures ListsAgree(Unlinked(ls, k, a), free - {Block(a, fo + k)}, fo, top)
  {
    WithoutIs(ls[k], a);
  }

  // ---------------------------------------------------------------- metadata

  /** Index of the metadata byte of an address: one byte a chunk. */
  function Chunk(r: Range, a: nat): nat
    requires r.lo <= a
  {
    Shr(a - r.lo, r.fo)
  }

  function Head(r: Range, c: nat): nat { r.lo + Shl(c, r.fo) }

  lemma ChunkHead(r: Range, a: nat)
    requires r.lo <= a && r.lo % Pow2(r.fo) == 0
    ensures Head(r, Chunk(r, a)) <= a < Head(r, Chunk(r, a)) + Pow2(r.fo)
    ensures a % Pow2(r.fo) == 0 ==> Head(r, Chunk(r, a)) == a
  {
    ShrShl(a - r.lo, r.fo);
    if a % Pow2(r.fo) == 0 { ModAdd(a, r.lo, Pow2(r.fo)); }
  }

  lemma ChunkBound(r: Range, a: nat)
    requires r.lo <= a < r.hi && r.lo % Pow2(r.fo) == 0 && r.hi % Pow2(r.fo) == 0
    ensures Chunk(r, a) < Chunk(r, r.hi)
  {
    ChunkHead(r, a);
    ChunkHead(r, r.hi);
    if Chunk(r, r.hi) < Chunk(r, a) { ShlMonotone(Chunk(r, r.hi), Chunk(r, a), r.fo); }
  }

  ghost predicate Recorded(ms: seq<Metadata>, r: Range, b: Block) {
    && r.lo <= b.addr && r.fo <= b.bits
    && var c := Chunk(r, b.addr);
    && c < |ms| && Head(r, c) == b.addr && ms[c] == Metadata(true, b.bits - r.fo)
  }

  /** `alloced` is set exactly at the first chunk of each live block, next to its order. */
  ghost predicate MetaAgree(ms: seq<Metadata>, live: set<Block>, r: Range) {
    && (forall b :: b in live ==> Recorded(ms, r, b))
    && (forall c :: 0 <= c < |ms| && ms[c].alloced ==> Block(Head(r, c), r.fo + ms[c].order) in live)
  }

  lemma PlacedChunk(r: Range, b: Block)
    requires r.Places(b) && r.lo % Pow2(r.fo) == 0 && r.hi % Pow2(r.fo) == 0
    ensures Chunk(r, b.addr) < Chunk(r, r.hi) && Head(r, Chunk(r, b.addr)) == b.addr
  {
    ModWeaken(b.addr, r.fo, b.bits);
    ChunkHead(r, b.addr);
    ChunkBound(r, b.addr);
  }

  lemma MetaTake(ms: seq<Metadata>, live: set<Block>, r: Range, b: Block)
    requires MetaAgree(ms, live, r) && forall l :: l in live ==> l.addr != b.addr
    requires r.lo <= b.addr && r.fo <= b.bits && Chunk(r, b.addr) < |ms| && Head(r, Chunk(r, b.addr)) == b.addr
    ensures MetaAgree(ms[Chunk(r, b.addr) := Metadata(true, b.bits - r.fo)], live + {b}, r)
  {
    var ms' := ms[Chunk(r, b.addr) := Metadata(true, b.bits - r.fo)];
    forall l | l in live ensures Recorded(ms', r, l) {
      assert Recorded(ms, r, l);
    }
  }

  lemma MetaDrop(ms: seq<Metadata>, live: set<Block>, r: Range, b: Block)
    requires MetaAgree(ms, live, r) && b in live && forall l :: l in live && l != b ==> l.addr != b.addr
    ensures Recorded(ms, r, b)
    ensures var c := Chunk(r, b.addr); MetaAgree(ms[c := Metadata(false, ms[c].order)], live - {b}, r)
  {
    var n := Chunk(r, b.addr);
    var ms' := ms[n := Metadata(false, ms[n].order)];
    forall l | l in live - {b} ensures Recorded(ms', r, l) {
      assert Recorded(ms, r, l) && l.addr != b.addr;
    }
    forall c | 0 <= c < |ms'| && ms'[c].alloced ensures Block(Head(r, c), r.fo + ms'[c].order) in live - {b} {
      if c < n { ShlMonotone(c, n, r.fo); } else { ShlMonotone(n, c, r.fo); }
    }
  }

  // ---------------------------------------------------------------- headers

  /** A free zone stores its own size in its first word. */
  ghost predicate HeadersAgree(header: map<nat, nat>, free: set<Block>) {
    forall b :: b in free ==> b.addr in header && header[b.addr] == b.Size()
  }
}
