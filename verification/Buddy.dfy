/** The buddy allocator for physical memory. */
module Buddy {
  import opened Bits
  import opened Blocks
  import opened FreeLists
  import opened BuddyState

  /** 2^39 bytes. */
  const MAX_SUPPORTED_MEM: nat := 0x80_0000_0000
  /** The least length of a range that gets an allocator. */
  const BUDDY_ALLOC_MIN_SIZE: nat := 0x1_0000

  /** The range `init` is given, rounded inwards to whole chunks. */
  lemma RoundedInwards(start: nat, end: nat, k: nat)
    requires k <= 64 && start + Pow2(k) <= WORD && end < WORD
    ensures start <= AlignUp(start, Pow2(k)) < start + Pow2(k) && AlignUp(start, Pow2(k)) % Pow2(k) == 0
    ensures AlignDown(end, Pow2(k)) <= end < AlignDown(end, Pow2(k)) + Pow2(k) && AlignDown(end, Pow2(k)) % Pow2(k) == 0
  {
    AlignUpIs(start, k);
    AlignDownIs(end, k);
    Floor(end, Pow2(k));
  }

  /** The metadata table that `init` carves off the end leaves room for a byte a chunk
      and does not reach below the first chunk. */
  lemma TableFits(d: nat, f: nat, q: nat)
    requires f >= PAGE_SIZE && 0 < d < WORD && d % f == 0 && q == d / f
    ensures 8 * q + PAGE_SIZE <= WORD
    ensures q <= AlignUp(8 * q, PAGE_SIZE) <= d
    ensures 8 * q <= AlignUp(8 * q, PAGE_SIZE) < 8 * q + PAGE_SIZE
    ensures d > f ==> AlignUp(8 * q, PAGE_SIZE) + f <= d
  {
    hide AlignUp;
    assert d == q * f;
    MulMonotone(PAGE_SIZE, f, q);
    assert PAGE_SIZE * q <= q * f;
    assert q >= 1;
    PagePow2();
    AlignUpIs(8 * q, PAGE_BITS);
    PageMultiple(AlignUp(8 * q, PAGE_SIZE), q);
    if d > f { ChunkToSpare(AlignUp(8 * q, PAGE_SIZE), f, q); }
  }

  lemma ChunkToSpare(t: nat, f: nat, q: nat)
    requires f >= PAGE_SIZE && q * f > f && (q > 1 ==> t <= PAGE_SIZE * (q - 1))
    ensures t + f <= q * f
  {
    if q <= 1 { MulMonotone(q, 1, f); }
    MulMonotone(PAGE_SIZE, f, q - 1);
    assert (q - 1) * f == q * f - f;
  }

  lemma PageMultiple(t: nat, q: nat)
    requires t % PAGE_SIZE == 0 && t < 8 * q + PAGE_SIZE && q >= 1
    ensures t <= PAGE_SIZE * q && (q > 1 ==> t <= PAGE_SIZE * (q - 1))
  {
  }

  /** What is left for zones when the table is taken off the end: at least one chunk, unless there
      was just one. */
  lemma RoomLeft(lo: nat, x: nat, em: nat, f: nat)
    requires f > 0 && lo <= x < em && lo % f == 0 && em % f == 0 && (em > lo + f ==> lo + f <= x)
    ensures lo < x - x % f <==> lo + f < em
  {
    Floor(x, f);
    var p, q, r := lo / f, em / f, x / f;
    assert lo == p * f && em == q * f && x - x % f == r * f;
    if em > lo + f { ModAdd(lo, f, f); FloorLeast(x, lo + f, f); }
    if p < r { MulMonotone(p + 1, r, f); assert (p + 1) * f == p * f + f; } else { MulMonotone(r, p, f); }
  }

  /** A bound on the bytes that init leaves for zones, from what it has been given. */
  lemma FreeBound(start: nat, end: nat, lo: nat, hi: nat, em: nat, f: nat)
    requires f >= PAGE_SIZE && start <= lo < start + f && em <= end < em + f && lo <= hi <= em
    requires em - hi < 8 * ((em - lo) / f) + PAGE_SIZE + f
    ensures hi - lo + 8 * ((end - start) / f) + PAGE_SIZE + 3 * f > end - start
    ensures f == PAGE_SIZE && end - start + 1 >= BUDDY_ALLOC_MIN_SIZE ==> lo < hi
  {
    DivMonotone(em - lo, end - start, f);
  }

  lemma HighEnd(lo: nat, x: nat, em: nat, k: nat)
    requires lo <= x <= em < WORD && k <= 64 && lo % Pow2(k) == 0 && em - x >= (em - lo) / Pow2(k)
    ensures Pow2(k) <= WORD
    ensures lo <= AlignDown(x, Pow2(k)) <= x < AlignDown(x, Pow2(k)) + Pow2(k) && AlignDown(x, Pow2(k)) % Pow2(k) == 0
    ensures Chunk(Range(lo, AlignDown(x, Pow2(k)), k), AlignDown(x, Pow2(k))) <= em - AlignDown(x, Pow2(k))
  {
    AlignDownIs(x, k);
    FloorLeast(x, lo, Pow2(k));
    Floor(x, Pow2(k));
    var hi := AlignDown(x, Pow2(k));
    ShrIs(hi - lo, k);
    DivMonotone(hi - lo, em - lo, Pow2(k));
  }

  lemma PagePow2()
    ensures Pow2(PAGE_BITS) == PAGE_SIZE
  {
    assert Pow2(10) == 1024 && Pow2(2) == 4;
    Pow2Add(10, 2);
  }

  lemma FloorLeast(x: nat, m: nat, f: nat)
    requires f > 0 && m % f == 0 && m <= x
    ensures m <= x - x % f
  {
    var q, p := x / f, m / f;
    assert x == q * f + x % f && m == p * f;
    MulMonotone(q + 1, p, f);
    assert (q + 1) * f == q * f + f;
    MulMonotone(p, q, f);
  }

  lemma DivMonotone(x: nat, y: nat, f: nat)
    requires f > 0 && x <= y
    ensures x / f <= y / f
  {
    var p, q := x / f, y / f;
    assert x == p * f + x % f && y == q * f + y % f;
    MulMonotone(q + 1, p, f);
    assert (q + 1) * f == q * f + f;
  }

  // ---------------------------------------------------------------- init's tiling

  /** A zone that starts where its parent would has been cut short by the end of the range. */
  ghost predicate CutShort(free: set<Block>, hi: nat) {
    forall b :: b in free && b.addr % Pow2(b.bits + 1) == 0 ==> b.addr + Pow2(b.bits + 1) > hi
  }

  lemma AppendZone(free: set<Block>, r: Range, b: Block)
    requires Tiles(free, r) && b.addr == r.hi && b.Aligned() && r.fo <= b.bits && r.lo <= r.hi
    ensures Tiles(free + {b}, Range(r.lo, b.End(), r.fo)) && b !in free
    ensures forall f :: f in free ==> f.addr != b.addr
    ensures Bytes(free + {b}) == Bytes(free) + b.Size()
  {
    var r' := Range(r.lo, b.End(), r.fo);
    forall f | f in free ensures f.Apart(b) && f.addr != b.addr { assert r.Places(f); }
    forall x | r'.lo <= x < r'.hi ensures Covered(free + {b}, x) {
      if x < r.hi {
        assert Covered(free, x);
        var f :| f in free && f.Has(x);
        assert f in free + {b};
      } else {
        assert b in free + {b} && b.Has(x);
      }
    }
    BytesAdd(free, b);
  }

  lemma CutShortCoalesced(free: set<Block>, r: Range)
    requires Tiles(free, r) && CutShort(free, r.hi)
    ensures Coalesced(free)
  {
    forall b | b in free ensures b.Buddy() !in free {
      Family(b);
      var p := b.Parent();
      assert p.Lower() in {b, b.Buddy()} && p.Upper() in {b, b.Buddy()};
      assert p.Lower().addr % Pow2(p.bits) == 0;
      assert p.Upper().End() == p.addr + Pow2(p.bits);
    }
  }

  lemma ListsLength(ls: seq<seq<nat>>, free: set<Block>, fo: nat, top: nat)
    requires ListsAgree(ls, free, fo, top)
    ensures |ls| == ORDERS && top < ORDERS
    ensures forall b :: b in free ==> b.bits <= fo + top
  {
  }

  ghost predicate Laid(free: set<Block>, r: Range, end: nat) {
    && r.lo <= r.hi <= end && r.hi % Pow2(r.fo) == 0
    && Tiles(free, r) && CutShort(free, end)
    && Bytes(free) == r.hi - r.lo
  }

  lemma LayStep(free: set<Block>, r: Range, end: nat, j: nat)
    requires Laid(free, r, end) && r.fo <= j && r.hi + Pow2(j) <= end && r.hi % Pow2(j) == 0
    requires r.hi % Pow2(j + 1) == 0 ==> r.hi + Pow2(j + 1) > end
    ensures Laid(free + {Block(r.hi, j)}, r.(hi := r.hi + Pow2(j)), end)
    ensures r.lo <= r.hi && Block(r.hi, j).Aligned()
    ensures Block(r.hi, j) !in free && forall f :: f in free ==> f.addr != r.hi
  {
    AppendZone(free, r, Block(r.hi, j));
    StepAligned(r.hi, j, r.fo);
  }

  /** `init`'s loop: the zones so far tile the range up to s.r.hi. */
  ghost predicate Filling(s: State, top: Block, end: nat) {
    && Laid(s.free, s.r, end)
    && ListsAgree(s.ls, s.free, s.r.fo, s.top) && HeadersAgree(s.header, s.free)
    && (if s.r.lo < s.r.hi then s.r.Places(top) && top.bits == s.r.fo + s.top else s.top == 0)
  }

  lemma FillStart(s: State, top: Block, end: nat)
    requires s.free == {} && s.r.lo == s.r.hi <= end && s.r.hi % Pow2(s.r.fo) == 0
    requires |s.ls| == ORDERS && s.top == 0 && forall o :: 0 <= o < ORDERS ==> s.ls[o] == []
    ensures Filling(s, top, end)
  {
  }

  function Filled(s: State, j: nat): State
    requires s.r.fo <= j < s.r.fo + |s.ls|
  {
    var order := j - s.r.fo;
    s.(ls := Appended(s.ls, order, s.r.hi), header := s.header[s.r.hi := Pow2(j)],
       free := s.free + {Block(s.r.hi, j)}, r := s.r.(hi := s.r.hi + Pow2(j)), top := Max(order, s.top))
  }

  lemma FillStep(s: State, top: Block, end: nat, j: nat)
    requires Filling(s, top, end) && s.r.fo <= j && s.r.hi + Pow2(j) <= end && end - s.r.hi <= MAX_SUPPORTED_MEM
    requires s.r.fo >= PAGE_BITS && s.r.hi % Pow2(j) == 0
    requires s.r.hi % Pow2(j + 1) == 0 ==> s.r.hi + Pow2(j + 1) > end
    ensures j < s.r.fo + |s.ls|
    ensures Filling(Filled(s, j), if j - s.r.fo > s.top || s.r.lo == s.r.hi then Block(s.r.hi, j) else top, end)
  {
    hide Laid, ListsAgree;
    var b := Block(s.r.hi, j);
    OrderFits(j, end - s.r.hi);
    ListsLength(s.ls, s.free, s.r.fo, s.top);
    LayStep(s.free, s.r, end, j);
    ListsTop(s.ls, s.free, s.r.fo, s.top, j - s.r.fo);
    ListsAppend(s.ls, s.free, s.r.fo, Max(j - s.r.fo, s.top), j - s.r.fo, b.addr);
  }

  lemma StepAligned(a: nat, j: nat, k: nat)
    requires a % Pow2(k) == 0 && k <= j
    ensures (a + Pow2(j)) % Pow2(k) == 0
  {
    UniqueMod(Pow2(j), Pow2(j), 1, 0);
    ModWeaken(Pow2(j), k, j);
    ModAdd(a, Pow2(j), Pow2(k));
  }

  /** What a free-list set looks like after `init`: nothing taken, nothing to coalesce. */
  lemma InitGood(s: State, top: Block)
    requires Filling(s, top, s.r.hi) && s.live == {}
    requires forall c :: 0 <= c < |s.ms| ==> !s.ms[c].alloced
    requires s.r.lo % Pow2(s.r.fo) == 0 && Chunk(s.r, s.r.hi) <= |s.ms|
    ensures s.Good() && Coalesced(s.free)
    ensures forall b :: b in s.free <==> Maximal(b, s.r)
    ensures s.r.lo < s.r.hi ==> s.r.Places(top) && top.bits == s.r.fo + s.top
    ensures Bytes(s.free) == s.r.hi - s.r.lo
  {
    hide ListsAgree, HeadersAgree, Chunk, Tiles, Coalesced, CutShort, Range.Places, Maximal;
    ListsLength(s.ls, s.free, s.r.fo, s.top);
    CutShortCoalesced(s.free, s.r);
    FullTilingIsMaximal(s.free, s.r);
    assert s.free + s.live == s.free;
    NothingLarger(s.free, s.r, s.r.fo + s.top);
  }

  lemma NothingLarger(free: set<Block>, r: Range, most: nat)
    requires Tiles(free, r) && Coalesced(free) && forall f :: f in free ==> f.bits <= most
    ensures forall g :: r.Places(g) ==> g.bits <= most
  {
    assert free + {} == free;
    forall g | r.Places(g) ensures g.bits <= most {
      var f := Swallowed(free, {}, r, g);
    }
  }

  lemma SubIs(x: int, a: nat, b: nat)
    requires a == x % WORD && b < WORD
    ensures Sub(a, b) == (x - b) % WORD
  {
  }

  lemma AlignedSize(a: nat, j: nat, k: nat)
    requires a % Pow2(k) == 0 && a % Pow2(j + 1) != 0
    ensures k <= j
  {
    if j < k { ModWeaken(a, j + 1, k); }
  }

  /** Halving a zone that is too long keeps it aligned and at least a chunk. */
  lemma Shrink(a: nat, hi: nat, j: nat, k: nat)
    requires k <= j && a % Pow2(j) == 0 && a % Pow2(k) == 0 && hi % Pow2(k) == 0
    requires a < hi && Pow2(j) > hi - a
    ensures k < j && Pow2(j) / 2 == Pow2(j - 1) && a % Pow2(j - 1) == 0 && a + Pow2(j) > hi
  {
    ModAdd(hi, a, Pow2(k));
    if j == k {
      var q := (hi - a) / Pow2(k);
      assert hi - a == q * Pow2(k);
      MulMonotone(1, q, Pow2(k));
    } else {
      ModWeaken(a, j - 1, j);
    }
  }

  lemma OrderFits(j: nat, len: nat)
    requires Pow2(j) <= len <= MAX_SUPPORTED_MEM
    ensures j <= 39
  {
    assert Pow2(10) == 1024;
    Pow2Add(10, 10); Pow2Add(20, 20);
    if j >= 40 { Pow2Monotone(40, j); }
  }

  lemma ListsTop(ls: seq<seq<nat>>, free: set<Block>, fo: nat, top: nat, k: nat)
    requires ListsAgree(ls, free, fo, top) && k < ORDERS
    ensures ListsAgree(ls, free, fo, Max(k, top))
  {
  }

  /** The zone an allocation is cut from: the last one in the list of the least order that has any. */
  ghost predicate Chosen(s: State, v: Block, order: nat) {
    && v in s.free && order <= s.Order(v) < |s.ls|
    && (forall f :: f in s.free && order <= s.Order(f) ==> v.bits <= f.bits)
    && s.ls[s.Order(v)] != [] && Last(s, s.Order(v)) == v
  }

  ghost predicate Available(s: State, order: nat) {
    exists f :: f in s.free && order <= s.Order(f)
  }

  lemma Orders(s: State, order: nat)
    requires s.Good()
    ensures |s.ls| == ORDERS && s.top < ORDERS
    ensures order > s.top ==> !Available(s, order)
    ensures order <= s.top && s.ls[order] != [] ==>
      Chosen(s, Last(s, order), order) && Available(s, order) && s.r.Places(Last(s, order))
    ensures order <= s.top && s.ls[order] == [] ==> (Available(s, order) <==> Available(s, order + 1))
    ensures order <= s.top && s.ls[order] == [] ==> forall v :: Chosen(s, v, order + 1) ==> Chosen(s, v, order)
  {
    hide Tiles, MetaAgree, HeadersAgree, Bytes, Range.Places;
    if order <= s.top {
      if s.ls[order] != [] {
        LastIsFree(s, order);
        assert Last(s, order) in s.free;
      } else {
        assert forall f :: f in s.free && s.Order(f) >= order ==> Listed(s.ls, s.r.fo, f);
      }
    }
  }

  /** An address in the first chunk of a block, the only kind `free` takes. */
  predicate InFirstChunk(b: Block, m: nat, fo: nat) {
    b.addr <= m < b.addr + Pow2(fo)
  }

  lemma UnbuddiedRest(free: set<Block>, b: Block)
    requires CoalescedBut(free, b)
    ensures Coalesced(free - {b})
  {
  }

  lemma AddedBuddy(free: set<Block>, b: Block)
    requires Coalesced(free) && b.Aligned() && forall f :: f in free ==> f.Aligned()
    ensures CoalescedBut(free + {b}, b)
  {
    forall f | f in free && f != b && f.Buddy() != b ensures f.Buddy() !in free + {b} {}
  }

  lemma MetaIndex(r: Range, a: nat)
    requires r.lo <= a
    ensures (a - r.lo) / Pow2(r.fo) == Chunk(r, a)
  {
    ShrIs(a - r.lo, r.fo);
  }

  /** The metadata byte of an address tells whether, and which, live block starts in its chunk. */
  lemma MetaTells(s: State, m: nat)
    requires s.Good() && s.r.lo <= m < s.r.hi
    ensures Chunk(s.r, m) < |s.ms|
    ensures !s.ms[Chunk(s.r, m)].alloced ==> forall b :: b in s.live ==> !InFirstChunk(b, m, s.r.fo)
    ensures s.ms[Chunk(s.r, m)].alloced ==>
      var b := Block(Head(s.r, Chunk(s.r, m)), s.r.fo + s.ms[Chunk(s.r, m)].order);
      b in s.live && InFirstChunk(b, m, s.r.fo) && b.Has(m) && Chunk(s.r, b.addr) == Chunk(s.r, m)
      && forall c :: c in s.live && InFirstChunk(c, m, s.r.fo) ==> c == b
  {
    hide Tiles, ListsAgree, HeadersAgree, Bytes;
    var r, n := s.r, Chunk(s.r, m);
    ChunkBound(r, m);
    ChunkHead(r, m);
    forall b | b in s.live && InFirstChunk(b, m, r.fo)
      ensures Chunk(r, b.addr) == n && s.ms[n] == Metadata(true, b.bits - r.fo) && b.addr == Head(r, n) {
      assert Recorded(s.ms, r, b);
      var c := Chunk(r, b.addr);
      if c < n { ShlMonotone(c, n, r.fo); }
      if n < c { ShlMonotone(n, c, r.fo); }
    }
    if s.ms[n].alloced {
      var b := Block(Head(r, n), r.fo + s.ms[n].order);
      Pow2Monotone(r.fo, b.bits);
    }
  }

  lemma OutsideBlocks(s: State, m: nat)
    requires s.Good() && (m < s.r.lo || s.r.hi <= m)
    ensures forall b :: b in s.live ==> !InFirstChunk(b, m, s.r.fo)
  {
    hide ListsAgree, HeadersAgree, MetaAgree, Bytes;
    forall b | b in s.live ensures !InFirstChunk(b, m, s.r.fo) {
      assert b in s.free + s.live;
      Pow2Monotone(s.r.fo, b.bits);
    }
  }

  lemma GiveCoalesced(s: State, b: Block)
    requires s.Good() && Coalesced(s.free) && b in s.live
    ensures CoalescedBut(s.free + {b}, b)
  {
    hide ListsAgree, HeadersAgree, MetaAgree, Bytes;
    assert b in s.free + s.live;
    forall f | f in s.free ensures f.Aligned() { assert f in s.free + s.live; }
    AddedBuddy(s.free, b);
  }

  lemma FreeBounds(s: State, b: Block)
    requires s.Good() && b in s.free
    ensures s.r.Places(b) && b.Aligned() && 0 <= s.Order(b) <= s.top && s.top < |s.ls| == ORDERS
    ensures b.addr in s.header && s.header[b.addr] == b.Size()
  {
    assert b in s.free + s.live;
  }

  /** Only a placed buddy can be free; without one, b is no exception. */
  lemma NotBuddied(s: State, b: Block)
    requires s.Good() && b in s.free && CoalescedBut(s.free, b)
    ensures b.Buddy().addr == Xor(b.addr, b.Size())
    ensures s.r.Places(b.Buddy()) <==> s.r.lo <= b.Buddy().addr && b.Buddy().End() <= s.r.hi
    ensures b.Buddy() in s.free ==> s.r.Places(b.Buddy())
    ensures b.Buddy() !in s.free ==> Coalesced(s.free)
  {
    hide ListsAgree, HeadersAgree, MetaAgree, Bytes;
    assert b in s.free + s.live;
    Family(b);
    Halves(b.Parent());
    if b.Buddy() in s.free { assert b.Buddy() in s.free + s.live; }
    forall f | f in s.free && f.Buddy() == b ensures f == b.Buddy() { assert f in s.free + s.live; Family(f); }
  }

  lemma ParentParts(b: Block)
    requires b.Aligned()
    ensures b.Parent().Lower().addr == (if b.addr < b.Buddy().addr then b.addr else b.Buddy().addr) == b.Parent().addr
    ensures b.Parent().Upper().addr == if b.addr < b.Buddy().addr then b.Buddy().addr else b.addr
    ensures b.Parent().Size() == 2 * b.Size()
  {
    Family(b);
    XorPow2(b.addr, b.bits);
  }

  /** `get_order` finds the least order with room for n bytes. */
  lemma OrderReaches(s: State, n: nat, t: nat)
    requires s.Good() && n > 0 && n <= Pow2(t) && forall k: nat :: n <= Pow2(k) ==> t <= k
    ensures var order := if t >= s.r.fo then t - s.r.fo else 0;
      && n <= Pow2(s.r.fo + order)
      && (forall k: nat :: s.r.fo <= k && n <= Pow2(k) ==> s.r.fo + order <= k)
      && (Available(s, order) <==> exists f :: f in s.free && n <= f.Size())
  {
    hide ListsAgree, HeadersAgree, MetaAgree, Bytes;
    var order := if t >= s.r.fo then t - s.r.fo else 0;
    Pow2Monotone(t, s.r.fo + order);
    forall f | f in s.free ensures order <= s.Order(f) <==> n <= f.Size() {
      assert f in s.free + s.live;
      if order <= s.Order(f) { Pow2Monotone(s.r.fo + order, f.bits); }
    }
  }

  lemma WriteGood(s: State, x: nat, w: nat, b: Block)
    requires s.Good() && b in s.live && b.Has(x)
    ensures s.(header := s.header[x := w]).Good()
  {
    hide ListsAgree, MetaAgree, Bytes, Sized, Covered;
    forall f | f in s.free ensures f.addr != x {
      assert f in s.free + s.live && b in s.free + s.live && f.Apart(b);
    }
  }

  lemma BlockStart(b: Block, m: nat)
    requires b.Aligned() && b.Has(m) && m < WORD && b.bits <= 64
    ensures b.Size() <= WORD && AlignDown(m, b.Size()) == b.addr
  {
    AlignDownIs(m, b.bits);
    SameMultiple(b.addr, m, b.Size());
  }

  lemma SameMultiple(a: nat, m: nat, s: nat)
    requires s > 0 && a % s == 0 && a <= m < a + s
    ensures m % s == m - a
  {
    UniqueMod(m, s, a / s, m - a);
  }

  lemma OrderSize(bits: nat)
    requires bits <= 30
    ensures IntShift(bits) == Some(Pow2(bits)) && Pow2(bits) < WORD
  {
    IntPow2(bits);
  }

  lemma Unwrapped(x: nat)
    requires x < WORD
    ensures (x - 0) % WORD == x
  {
  }

  /** The same blocks below a size. */
  ghost predicate SameBelow(f: set<Block>, g: set<Block>, bits: nat) {
    forall b: Block :: b.bits < bits ==> (b in f <==> b in g)
  }

  lemma SameBelowBoth(f: set<Block>, g: set<Block>, h: set<Block>, bits: nat, more: nat)
    requires SameBelow(f, g, bits) && SameBelow(g, h, more)
    ensures bits <= more ==> SameBelow(f, h, bits)
    ensures more <= bits ==> SameBelow(f, h, more)
  {
  }

  lemma SplitBelow(s: State, k: nat)
    requires 0 < k < |s.ls| && s.ls[k] != [] && Last(s, k).addr in s.header
    ensures SameBelow(s.free, Split(s, k).free, s.r.fo + k - 1)
  {
  }

  class PAllocator {
    var startAddr: nat
    var endAddr: nat
    var endMeta: nat
    var firstOrderSize: nat
    var freeSpace: nat
    var foBits: nat
    var maxOrder: nat
    /** `lists[k]` links the free zones of order k. */
    var lists: seq<seq<nat>>
    /** The bytes from endAddr to endMeta. */
    var meta: array<Metadata>
    /** The word `n` at each address; on allocated memory it is whatever the owner wrote. */
    var header: map<nat, nat>

    ghost var free: set<Block>
    ghost var live: set<Block>
    /** Bytes given back so far: what the counter freeSpace has missed. */
    ghost var freed: nat
    /** A block of the largest order. */
    ghost var top: Block

    ghost function Region(): Range
      reads this
    {
      Range(startAddr, endAddr, foBits)
    }

    ghost function Abs(): State
      reads this, meta
    {
      State(lists, meta[..], header, free, live, Region(), maxOrder)
    }

    /** What holds between any two steps, merging included. */
    ghost predicate Inv()
      reads this, meta
    {
      && Abs().Good()
      && PAGE_BITS <= foBits <= 64 && firstOrderSize == Pow2(foBits)
      && 0 < startAddr && endMeta < WORD && endAddr + meta.Length == endMeta
      && (startAddr < endAddr ==> Region().Places(top) && top.bits == foBits + maxOrder)
      && freeSpace == (Bytes(free) - freed) % WORD
    }

    /** What holds between calls. */
    ghost predicate Valid()
      reads this, meta
    {
      Inv() && Coalesced(free)
    }

    /** Every order's size is a value of the `int` shift in get_order_size. */
    predicate Narrow()
      reads this
    {
      maxOrder + foBits <= 30
    }

    function GetOrderSize(order: nat): Option<nat>
      reads this
    {
      IntShift(order + foBits)
    }

    function GetOrder(n: nat): Option<nat>
      requires 0 < n < WORD
      reads this
    {
      match Log2Up(n)
      case None => None
      case Some(t) => Some(if t >= foBits then t - foBits else 0)
    }

    constructor ()
      ensures fresh(meta) && |lists| == ORDERS && maxOrder == 0
      ensures forall k :: 0 <= k < ORDERS ==> lists[k] == []
    {
      lists := seq(ORDERS, _ => []);
      meta := new Metadata[0];
      maxOrder, freeSpace := 0, 0;
    }

    /** The range and the table size: the arithmetic at the head of `init`. */
    method SetRange(start: nat, end: nat, fos: nat, ghost k: nat)
      requires Max(fos, PAGE_SIZE) == Pow2(k) && PAGE_BITS <= k <= 64
      requires start + Max(fos, PAGE_SIZE) <= WORD && end < WORD
      requires AlignUp(start, Max(fos, PAGE_SIZE)) < AlignDown(end, Max(fos, PAGE_SIZE))
      modifies this`startAddr, this`endAddr, this`endMeta, this`firstOrderSize, this`foBits
      ensures firstOrderSize == Pow2(k) && foBits == k
      ensures start <= startAddr < start + firstOrderSize && startAddr % Pow2(k) == 0
      ensures endMeta <= end < endMeta + firstOrderSize && endMeta % Pow2(k) == 0
      ensures startAddr <= endAddr <= endMeta && endAddr % Pow2(k) == 0
      ensures Chunk(Region(), endAddr) <= endMeta - endAddr
      ensures var q := (endMeta - startAddr) / firstOrderSize;
        8 * q <= endMeta - endAddr < 8 * q + PAGE_SIZE + firstOrderSize
      ensures startAddr < endAddr <==> startAddr + firstOrderSize < endMeta
    {
      hide Pow2, AlignUp, AlignDown, Chunk, Log2;
      var f := Max(fos, PAGE_SIZE);
      RoundedInwards(start, end, k);
      startAddr := AlignUp(start, f);
      endMeta := AlignDown(end, f);
      firstOrderSize := f;
      Log2OfPow2(k);
      foBits := Log2(f);
      var diff := endMeta - startAddr;
      ModAdd(endMeta, startAddr, f);
      TableFits(diff, f, diff / f);
      var table := AlignUp(8 * (diff / f), PAGE_SIZE);
      HighEnd(startAddr, endMeta - table, endMeta, k);
      RoomLeft(startAddr, endMeta - table, endMeta, f);
      AlignDownIs(endMeta - table, k);
      endAddr := AlignDown(endMeta - table, f);
    }

    /** The largest power of two that divides temp and does not pass the end. */
    method ZoneSize(temp: nat, ghost k: nat) returns (size: nat, ghost j: nat)
      requires 0 < temp < endAddr && temp % Pow2(k) == 0 && endAddr % Pow2(k) == 0
      ensures k <= j && size == Pow2(j) && temp % Pow2(j) == 0 && temp + size <= endAddr
      ensures temp % Pow2(j + 1) == 0 ==> temp + Pow2(j + 1) > endAddr
    {
      j := AlignOfIs(temp);
      size := AlignOf(temp);
      AlignedSize(temp, j, k);
      while size > endAddr - temp
        invariant k <= j && size == Pow2(j) && temp % Pow2(j) == 0
        invariant temp % Pow2(j + 1) == 0 ==> temp + Pow2(j + 1) > endAddr
        decreases j
      {
        Shrink(temp, endAddr, j, k);
        size := size / 2;
        j := j - 1;
      }
    }

    /** The loop of `init`. */
    method LinkZones()
      requires |lists| == ORDERS && maxOrder == 0 && free == {} && forall o :: 0 <= o < ORDERS ==> lists[o] == []
      requires 0 < startAddr <= endAddr <= startAddr + MAX_SUPPORTED_MEM && PAGE_BITS <= foBits
      requires startAddr % Pow2(foBits) == 0 && endAddr % Pow2(foBits) == 0
      modifies this`lists, this`header, this`free, this`freeSpace, this`maxOrder, this`top
      ensures Filling(Abs(), top, endAddr) && freeSpace == endAddr - startAddr
    {
      hide Filling, Pow2;
      freeSpace := 0;
      var temp := startAddr;
      FillStart(Abs().(r := Range(startAddr, temp, foBits)), top, endAddr);
      while temp < endAddr
        invariant startAddr <= temp <= endAddr && temp % Pow2(foBits) == 0
        invariant Filling(Abs().(r := Range(startAddr, temp, foBits)), top, endAddr)
        invariant freeSpace == temp - startAddr
      {
        var size; ghost var j;
        size, j := ZoneSize(temp, foBits);
        LinkZone(temp, size, j);
        StepAligned(temp, j, foBits);
        temp := temp + size;
      }
    }

    /** One zone of 2^j bytes at the end of the tiling so far. */
    method LinkZone(temp: nat, size: nat, ghost j: nat)
      requires startAddr <= temp && PAGE_BITS <= foBits <= j && size == Pow2(j)
      requires temp + size <= endAddr <= startAddr + MAX_SUPPORTED_MEM && temp % Pow2(j) == 0
      requires temp % Pow2(j + 1) == 0 ==> temp + Pow2(j + 1) > endAddr
      requires Filling(Abs().(r := Range(startAddr, temp, foBits)), top, endAddr) && freeSpace == temp - startAddr
      modifies this`lists, this`header, this`free, this`freeSpace, this`maxOrder, this`top
      ensures Filling(Abs().(r := Range(startAddr, temp + size, foBits)), top, endAddr)
      ensures freeSpace == temp + size - startAddr
    {
      hide Filling, Pow2, Log2;
      ghost var before := Abs().(r := Range(startAddr, temp, foBits));
      FillStep(before, top, endAddr, j);
      Log2OfPow2(j);
      header := header[temp := size];
      freeSpace := freeSpace + size;
      var order := Log2(size) - foBits;
      lists := Appended(lists, order, temp);
      if order > maxOrder || temp == startAddr { top := Block(temp, j); }
      if order > maxOrder {
        maxOrder := order;
      }
      free := free + {Block(temp, j)};
      assert Abs().(r := Range(startAddr, temp + size, foBits)) == Filled(before, j);
    }

    /** Tiles the range with the largest naturally aligned zones that fit, which turn out
        to be exactly the maximal placed blocks. k is the logarithm of the chunk size. */
    method Init(start: nat, end: nat, fos: nat, ghost k: nat)
      requires |lists| == ORDERS && maxOrder == 0 && forall o :: 0 <= o < ORDERS ==> lists[o] == []
      requires Max(fos, PAGE_SIZE) == Pow2(k) && PAGE_BITS <= k <= 64
      requires 0 < start && end < WORD && start + Max(fos, PAGE_SIZE) <= WORD && end <= start + MAX_SUPPORTED_MEM
      requires AlignUp(start, Max(fos, PAGE_SIZE)) < AlignDown(end, Max(fos, PAGE_SIZE))
      modifies this
      ensures Valid() && live == {} && fresh(meta)
      ensures forall b :: b in free <==> Maximal(b, Region())
      ensures freeSpace == endAddr - startAddr && freed == 0
      ensures start <= startAddr < start + firstOrderSize && endMeta <= end < endMeta + firstOrderSize
      ensures foBits == k && firstOrderSize == Max(fos, PAGE_SIZE)
      ensures freeSpace + 8 * ((end - start) / firstOrderSize) + PAGE_SIZE + 3 * firstOrderSize > end - start
      ensures freeSpace > 0 <==> startAddr + firstOrderSize < endMeta
      ensures fos <= PAGE_SIZE && end - start + 1 >= BUDDY_ALLOC_MIN_SIZE ==> freeSpace > 0
    {
      hide Filling, State.Good, Maximal, Range.Places, Coalesced, AlignUp, AlignDown, Pow2, Bytes, Chunk;
      SetRange(start, end, fos, k);
      FreeBound(start, end, startAddr, endAddr, endMeta, firstOrderSize);
      meta := new Metadata[endMeta - endAddr](_ => Metadata(false, 0));
      free, live, freed, header := {}, {}, 0, map[];
      LinkZones();
      InitGood(Abs(), top);
      Unwrapped(freeSpace);
    }

    function GetMeta(addr: nat): nat
      requires startAddr <= addr && firstOrderSize > 0
      reads this
    {
      (addr - startAddr) / firstOrderSize
    }

    /** Splits a zone of the given order into two of the order below, populating the
        given order first when its list is empty. v is the zone that ends up cut. */
    method PopulateOrder(order: nat) returns (ok: bool, ghost v: Block)
      requires Inv() && Coalesced(free) && 0 < order
      modifies this`lists, this`header, this`free
      ensures Inv() && Bytes(free) == Bytes(old(free))
      ensures ok <==> Available(old(Abs()), order)
      ensures !ok ==> Abs() == old(Abs())
      ensures ok ==> order <= maxOrder && order < |lists| && lists[order - 1] != []
      ensures ok ==> Chosen(old(Abs()), v, order)
      ensures ok ==> Last(Abs(), order - 1).End() == v.End() && CoalescedBut(free, Last(Abs(), order - 1))
      ensures SameBelow(old(free), free, foBits + order - 1)
      decreases ORDERS - order
    {
      hide State.Good, Coalesced, CoalescedBut, Chosen, Available, Range.Places, Pow2, Bytes;
      v := Block(0, 0);
      Orders(Abs(), order);
      if order > maxOrder {
        return false, v;
      }
      if lists[order] != [] {
        ok := true;
        v := Last(Abs(), order);
        CoalescedIsBut(free, v);
      } else {
        ok, v := PopulateOrder(order + 1);
      }
      if ok {
        ghost var populated := free;
        SplitZone(order);
        SameBelowBoth(old(free), populated, free, foBits + order, foBits + order - 1);
      }
    }

    /** Cuts the last zone of an order into two zones of the order below. */
    method SplitZone(order: nat)
      requires Inv() && 0 < order < |lists| && lists[order] != [] && CoalescedBut(free, Last(Abs(), order))
      modifies this`lists, this`header, this`free
      ensures Inv() && Bytes(free) == Bytes(old(free))
      ensures order < |lists| && lists[order - 1] != [] && CoalescedBut(free, Last(Abs(), order - 1))
      ensures Last(Abs(), order - 1).End() == Last(old(Abs()), order).End()
      ensures SameBelow(old(free), free, foBits + order - 1)
    {
      hide State.Good, CoalescedBut, Range.Places, Pow2, Bytes, Xor, Block.Buddy, Block.Upper, Block.Lower;
      ghost var before := Abs();
      SplitGood(before, order);
      SplitCoalesced(before, order);
      SplitBelow(before, order);
      var zone := lists[order][|lists[order]| - 1];
      lists := Popped(lists, order);
      header := header[zone := header[zone] / 2];
      var zone2 := Xor(zone, header[zone]);
      header := header[zone2 := header[zone]];
      lists := Appended(lists, order - 1, zone);
      lists := Appended(lists, order - 1, zone2);
      free := Split(before, order).free;
      assert Abs() == Split(before, order);
    }

    /** Allocates a block of the given order: the top end of the chosen zone. */
    method OAlloc(order: nat) returns (out: Option<nat>, ghost v: Block)
      requires Valid() && Narrow()
      modifies this`lists, this`header, this`free, this`live, this`freeSpace, meta
      ensures Valid()
      ensures out.None? <==> !Available(old(Abs()), order)
      ensures out.None? ==> Abs() == old(Abs()) && freeSpace == old(freeSpace)
      ensures out.Some? ==> var b := Block(out.value, foBits + order);
        && Chosen(old(Abs()), v, order) && b.End() == v.End()
        && b !in old(live) && live == old(live) + {b}
        && Bytes(free) == Bytes(old(free)) - b.Size() && SameBelow(old(free), free, b.bits)
    {
      hide State.Good, Coalesced, CoalescedBut, Chosen, Available, Range.Places, Pow2, Bytes;
      v := Block(0, 0);
      Orders(Abs(), order);
      if order > maxOrder {
        return None, v;
      }
      if lists[order] == [] {
        var ok;
        ok, v := PopulateOrder(order + 1);
        if !ok {
          return None, v;
        }
      } else {
        v := Last(Abs(), order);
        CoalescedIsBut(free, v);
      }
      Orders(Abs(), order);
      ghost var ready := free;
      out := TakeZone(order);
      SameBelowBoth(old(free), ready, free, foBits + order, foBits + order);
    }

    /** Pops the last zone of an order and marks it allocated. */
    method TakeZone(order: nat) returns (out: Option<nat>)
      requires Inv() && Narrow() && order <= maxOrder && order < |lists| && lists[order] != []
      requires CoalescedBut(free, Last(Abs(), order))
      modifies this`lists, this`free, this`live, this`freeSpace, meta
      ensures Valid()
      ensures out == Some(Last(old(Abs()), order).addr) && Last(old(Abs()), order) !in old(live)
      ensures live == old(live) + {Last(old(Abs()), order)}
      ensures Bytes(free) == Bytes(old(free)) - Last(old(Abs()), order).Size()
      ensures SameBelow(old(free), free, foBits + order)
    {
      hide State.Good, Coalesced, CoalescedBut, Range.Places, Pow2, Bytes, Head, Chunk;
      ghost var before := Abs();
      TakeGood(before, order);
      UnbuddiedRest(free, Last(before, order));
      var zone := lists[order][|lists[order]| - 1];
      lists := Popped(lists, order);
      MetaIndex(Region(), zone);
      meta[GetMeta(zone)] := Metadata(true, order);
      OrderSize(order + foBits);
      var size := GetOrderSize(order).value;
      SubIs(Bytes(free) - freed, freeSpace, size);
      freeSpace := Sub(freeSpace, size);
      free, live := Take(before, order).free, Take(before, order).live;
      assert meta[..] == Take(before, order).ms;
      assert Abs() == Take(before, order);
      out := Some(zone);
    }

    method Alloc(n: nat) returns (out: Option<nat>, ghost v: Block)
      requires Valid() && Narrow() && n < 0x8000_0000
      modifies this`lists, this`header, this`free, this`live, this`freeSpace, meta
      ensures Valid()
      ensures n == 0 ==> out.None?
      ensures out.None? ==> Abs() == old(Abs()) && freeSpace == old(freeSpace)
      ensures n > 0 ==> (out.None? <==> forall f :: f in old(free) ==> f.Size() < n)
      ensures out.Some? ==> GetOrder(n).Some? && var b := Block(out.value, foBits + GetOrder(n).value);
        && b !in old(live) && live == old(live) + {b}
        && n <= b.Size() && (forall k: nat :: foBits <= k && n <= Pow2(k) ==> b.bits <= k)
        && Bytes(free) == Bytes(old(free)) - b.Size() && SameBelow(old(free), free, b.bits)
    {
      hide State.Good, Coalesced, Chosen, Range.Places, Bytes, Pow2, Available;
      if n == 0 {
        return None, Block(0, 0);
      }
      Log2UpIs(n);
      OrderReaches(Abs(), n, Log2Up(n).value);
      out, v := OAlloc(GetOrder(n).value);
    }

    /** The owner of a live block writes a word of it. */
    method ClientWrite(x: nat, w: nat, ghost b: Block)
      requires Valid() && b in live && b.Has(x)
      modifies this`header
      ensures Valid()
    {
      hide State.Good, Coalesced, Range.Places, Pow2, Bytes;
      WriteGood(Abs(), x, w, b);
      header := header[x := w];
      assert Abs() == old(Abs()).(header := header);
    }

    /** Gives a block back, given any address in its first chunk; on every other address,
        a second free included, does nothing. */
    method Free(mem: nat)
      requires Valid() && Narrow()
      modifies this`lists, this`header, this`free, this`live, this`freed, meta
      ensures Valid()
      ensures (forall b :: b in old(live) ==> !InFirstChunk(b, mem, foBits)) ==>
        Abs() == old(Abs()) && freed == old(freed)
      ensures forall b :: b in old(live) && InFirstChunk(b, mem, foBits) ==>
        live == old(live) - {b} && freed == old(freed) + b.Size() && Bytes(free) == Bytes(old(free)) + b.Size()
    {
      hide State.Good, Coalesced, CoalescedBut, Bytes, Head, Chunk, AlignDown, Xor, Pow2, Range.Places, InFirstChunk;
      if mem < startAddr || mem >= endAddr {
        OutsideBlocks(Abs(), mem);
        return;
      }
      MetaTells(Abs(), mem);
      MetaIndex(Region(), mem);
      var c := GetMeta(mem);
      if !meta[c].alloced {
        return;
      }
      var order := meta[c].order;
      ghost var b := Block(Head(Region(), c), foBits + order);
      ghost var before := Abs();
      GiveGood(before, b);
      BlockStart(b, mem);
      OrderSize(order + foBits);
      meta[c] := Metadata(false, order);
      var m := AlignDown(mem, GetOrderSize(order).value);
      header := header[m := GetOrderSize(order).value];
      lists := Appended(lists, order, m);
      free, live, freed := free + {b}, live - {b}, freed + b.Size();
      assert meta[..] == Give(before, b).ms;
      assert Abs() == Give(before, b);
      GiveCoalesced(before, b);
      MergeOrder(m, order, maxOrder);
    }

    /** Replaces two free buddies by their parent. */
    method MergeZones(first: nat, second: nat, order: nat, size: nat, ghost b: Block)
      requires Inv() && b in free && b.Buddy() in free && b.bits == foBits + order && CoalescedBut(free, b)
      requires b.Aligned() && size == b.Size() && first == b.Parent().Lower().addr && second == b.Parent().Upper().addr
      modifies this`lists, this`header, this`free
      ensures Inv() && Bytes(free) == Bytes(old(free)) && order + 1 < ORDERS
      ensures Block(first, foBits + order + 1) in free && CoalescedBut(free, Block(first, foBits + order + 1))
    {
      hide State.Good, CoalescedBut, Range.Places, Pow2, Bytes, Xor;
      ghost var before := Abs();
      MergeGood(before, b);
      MergeCoalesced(before, b);
      ParentParts(b);
      FreeBounds(before, b);
      lists := Unlinked(lists, order, first);
      lists := Unlinked(lists, order, second);
      header := header[first := 2 * size];
      lists := Appended(lists, order + 1, first);
      free := Merge(before, b).free;
      assert Abs() == Merge(before, b);
    }

    /** Merges a free zone with its buddy as long as the buddy is a free zone of the same size. */
    method MergeOrder(addr: nat, order: nat, mOrder: nat)
      requires Inv() && Narrow() && Block(addr, foBits + order) in free
      requires CoalescedBut(free, Block(addr, foBits + order))
      modifies this`lists, this`header, this`free
      ensures Inv() && Bytes(free) == Bytes(old(free))
      ensures maxOrder <= mOrder ==> Coalesced(free)
      decreases ORDERS - order
    {
      hide State.Good, Coalesced, CoalescedBut, Bytes, Head, Chunk, Range.Places, Pow2, Block.Parent, Block.Aligned;
      ghost var b := Block(addr, foBits + order);
      ghost var before := Abs();
      FreeBounds(before, b);
      if order > mOrder {
        return;
      }
      OrderSize(order + foBits);
      var size := GetOrderSize(order).value;
      var m := Xor(addr, size);
      NotBuddied(before, b);
      if m < startAddr || m + size > endAddr {
        return;
      }
      BuddyHeader(before, b);
      MetaIndex(Region(), m);
      if meta[GetMeta(m)].alloced {
        return;
      }
      var first := if addr < m then addr else m;
      var second := if addr < m then m else addr;
      if header[first] != header[second] {
        return;
      }
      ParentParts(b);
      MergeZones(first, second, order, size, b);
      MergeOrder(first, order + 1, mOrder);
    }
  }
}
