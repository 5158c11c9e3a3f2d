/** Collecting physical memory for a virtual allocation, zone by zone. */
module PhysZones {
  import opened Bits
  import opened Blocks
  import opened FreeLists
  import opened BuddyState
  import opened Buddy
  import opened Recovery

  datatype PhysAllocation = PhysAllocation(addr: nat, len: nat)

  /** The part of array_list the collector uses. */
  class PhysList {
    var items: seq<PhysAllocation>

    constructor ()
      ensures items == []
    {
      items := [];
    }

    method Push(p: PhysAllocation)
      modifies this
      ensures items == old(items) + [p]
    {
      items := items + [p];
    }

    method Pop() returns (p: PhysAllocation)
      requires items != []
      modifies this
      ensures old(items) == items + [p]
    {
      p := items[|items| - 1];
      items := items[..|items| - 1];
    }
  }

  function Total(l: seq<PhysAllocation>): nat {
    if l == [] then 0 else Total(l[..|l| - 1]) + l[|l| - 1].len
  }

  // ---------------------------------------------------------------- what the greedy search can reach

  /** Free bytes in blocks of at least 2^bits, and the smaller blocks. */
  ghost function Large(free: set<Block>, bits: nat): nat {
    Bytes(set b | b in free && b.bits >= bits)
  }

  ghost function Small(free: set<Block>, bits: nat): set<Block> {
    set b | b in free && b.bits < bits
  }

  /** What has been taken when the search starts asking for 2^j at a time: all larger blocks. */
  ghost function TakenBefore(free: set<Block>, j: nat, top: nat): nat {
    if j >= top then 0 else Large(free, j + 1)
  }

  /** Asking for 2^j at a time, from 2^top down, the search comes to exactly n bytes. */
  ghost predicate Passes(free: set<Block>, n: nat, j: nat, top: nat) {
    TakenBefore(free, j, top) <= n <= Large(free, j) && n % Pow2(j) == 0
  }

  ghost predicate Reachable(free: set<Block>, n: nat, low: nat, top: nat) {
    exists j | low <= j <= top :: Passes(free, n, j, top)
  }

  lemma LargeSmall(free: set<Block>, bits: nat)
    ensures Bytes(free) == Large(free, bits) + Bytes(Small(free, bits))
    decreases free
  {
    if b :| b in free {
      var rest := free - {b};
      LargeSmall(rest, bits);
      BytesRemove(free, b);
      var l, l' := set c | c in free && c.bits >= bits, set c | c in rest && c.bits >= bits;
      if b.bits >= bits {
        assert l == l' + {b} && Small(free, bits) == Small(rest, bits);
        BytesAdd(l', b);
      } else {
        assert l == l' && Small(free, bits) == Small(rest, bits) + {b};
        BytesAdd(Small(rest, bits), b);
      }
    } else {
      assert (set c | c in free && c.bits >= bits) == {} && Small(free, bits) == {};
    }
  }

  lemma SmallSame(f: set<Block>, g: set<Block>, bits: nat)
    requires SameBelow(f, g, bits)
    ensures Small(f, bits) == Small(g, bits)
  {
  }

  lemma AllSmall(free: set<Block>, bits: nat)
    requires forall f :: f in free ==> f.bits < bits
    ensures Small(free, bits) == free
  {
  }

  /** The search asks for 2^j at a time and has taken s bytes of the blocks in was. */
  ghost predicate Searching(was: set<Block>, now: set<Block>, s: nat, j: nat, top: nat) {
    && SameBelow(was, now, j) && s + Bytes(now) == Bytes(was)
    && s % Pow2(j) == 0 && TakenBefore(was, j, top) <= s
  }

  /** It has not come to exactly n bytes so far. */
  ghost predicate Missed(was: set<Block>, n: nat, s: nat, j: nat, top: nat) {
    && (forall i | j < i <= top :: !Passes(was, n, i, top))
    && !(TakenBefore(was, j, top) <= n <= s && n % Pow2(j) == 0)
  }

  lemma SearchStarts(was: set<Block>, n: nat, top: nat)
    requires n > 0
    ensures Searching(was, was, 0, top, top) && Missed(was, n, 0, top, top)
  {
  }

  lemma Multiples(n: nat, s: nat, m: nat)
    requires m > 0 && n % m == 0 && s % m == 0 && s < n <= s + m
    ensures n == s + m
  {
    var p, q := n / m, s / m;
    assert n == p * m && s == q * m;
    assert (q + 1) * m == q * m + m && (q + 2) * m == q * m + 2 * m;
    if p >= q + 2 { MulMonotone(q + 2, p, m); }
    if p <= q { MulMonotone(p, q, m); }
  }

  lemma Within(was: set<Block>, now: set<Block>, s: nat, j: nat)
    requires SameBelow(was, now, j) && s + Bytes(now) == Bytes(was)
    ensures s <= Large(was, j)
  {
    LargeSmall(was, j);
    LargeSmall(now, j);
    SmallSame(was, now, j);
  }

  /** One more block of 2^j bytes. */
  lemma SearchTakes(was: set<Block>, now: set<Block>, next: set<Block>, n: nat, s: nat, j: nat, top: nat)
    requires Searching(was, now, s, j, top) && Missed(was, n, s, j, top) && j <= top
    requires SameBelow(now, next, j) && Bytes(next) + Pow2(j) == Bytes(now)
    ensures Searching(was, next, s + Pow2(j), j, top)
    ensures if n == s + Pow2(j) then Passes(was, n, j, top) else Missed(was, n, s + Pow2(j), j, top)
  {
    hide Large, Pow2, Bytes;
    SameBelowBoth(was, now, next, j, j);
    UniqueMod(Pow2(j), Pow2(j), 1, 0);
    ModAdd(s, Pow2(j), Pow2(j));
    Within(was, next, s + Pow2(j), j);
    if s < n <= s + Pow2(j) && n % Pow2(j) == 0 { Multiples(n, s, Pow2(j)); }
  }

  /** No block of 2^j bytes is left. */
  lemma SearchNarrows(was: set<Block>, now: set<Block>, n: nat, s: nat, j: nat, top: nat)
    requires Searching(was, now, s, j, top) && Missed(was, n, s, j, top) && n != s && 0 < j <= top
    requires forall f :: f in now ==> f.bits < j
    ensures s == Large(was, j) && !Passes(was, n, j, top)
    ensures Searching(was, now, s, j - 1, top) && Missed(was, n, s, j - 1, top)
  {
    hide Large, Pow2, Bytes;
    LargeSmall(was, j);
    SmallSame(was, now, j);
    AllSmall(now, j);
    ModWeaken(s, j - 1, j);
  }

  // ---------------------------------------------------------------- closed forms

  lemma LargeMonotone(free: set<Block>, i: nat, j: nat)
    requires i <= j
    ensures Large(free, j) <= Large(free, i) <= Bytes(free)
  {
    LargeSmall(free, i);
    var l := set b | b in free && b.bits >= i;
    LargeSmall(l, j);
    assert (set b | b in l && b.bits >= j) == set b | b in free && b.bits >= j;
  }

  /** A power of two is reached exactly when there is enough free memory. */
  lemma PowerReached(free: set<Block>, low: nat, top: nat)
    requires low <= top && forall f :: f in free ==> low <= f.bits
    ensures Reachable(free, Pow2(top), low, top) <==> Pow2(top) <= Bytes(free)
  {
    if Pow2(top) <= Bytes(free) {
      assert (set b | b in free && b.bits >= low) == free;
      var j := Crossing(free, Pow2(top), low, top);
      Pow2Multiple(j, top);
      assert Passes(free, Pow2(top), j, top);
    } else {
      forall j | low <= j <= top ensures !Passes(free, Pow2(top), j, top) { LargeMonotone(free, low, j); }
    }
  }

  lemma Pow2Multiple(j: nat, top: nat)
    requires j <= top
    ensures Pow2(top) % Pow2(j) == 0
  {
    UniqueMod(Pow2(top), Pow2(top), 1, 0);
    ModWeaken(Pow2(top), j, top);
  }

  /** The size class in which the free bytes, largest blocks first, come to n. */
  lemma {:induction false} Crossing(free: set<Block>, n: nat, low: nat, top: nat) returns (j: nat)
    requires low <= top && n <= Large(free, low)
    ensures low <= j <= top && TakenBefore(free, j, top) <= n <= Large(free, j)
    decreases top - low
  {
    if low == top || Large(free, low + 1) < n {
      j := low;
    } else {
      j := Crossing(free, n, low + 1, top);
    }
  }

  /** With a free block at least as large as the rounded request, only a power of two is ever
      reached: anything else overshoots and takes all there is. */
  lemma OvershootsUnlessPower(free: set<Block>, f: Block, n: nat, low: nat, top: nat)
    requires f in free && 0 < n <= Pow2(top) && top <= f.bits && low <= top
    ensures Reachable(free, n, low, top) <==> n == Pow2(top)
  {
    hide Large, TakenBefore;
    forall j: nat | j <= top ensures Pow2(top) <= Large(free, j) { Holds(free, f, j); Pow2Monotone(top, f.bits); }
    if n == Pow2(top) {
      Pow2Multiple(top, top);
      StartsAtTop(free, top);
      assert Passes(free, n, top, top);
    } else {
      forall j | low <= j <= top ensures !Passes(free, n, j, top) {
        if j == top { UniqueMod(n, Pow2(top), 0, n); } else { StartsBelow(free, j, top); }
      }
    }
  }

  lemma StartsAtTop(free: set<Block>, top: nat)
    ensures TakenBefore(free, top, top) == 0
  {
  }

  lemma StartsBelow(free: set<Block>, j: nat, top: nat)
    requires j < top
    ensures TakenBefore(free, j, top) == Large(free, j + 1)
  {
  }

  lemma Holds(free: set<Block>, f: Block, j: nat)
    requires f in free && j <= f.bits
    ensures Pow2(f.bits) <= Large(free, j)
  {
    var l := set b | b in free && b.bits >= j;
    BytesRemove(l, f);
  }

  // ---------------------------------------------------------------- the collector

  /** The zones listed are the given blocks, whole, and these are the blocks that have been
      allocated since live was was. */
  ghost predicate Owned(zones: seq<PhysAllocation>, blocks: seq<Block>) {
    && |zones| == |blocks|
    && forall i :: 0 <= i < |blocks| ==> zones[i].addr == blocks[i].addr && zones[i].len == blocks[i].Size()
  }

  ghost predicate Fresh(blocks: seq<Block>, was: set<Block>, live: set<Block>) {
    && (forall i, j :: 0 <= i < j < |blocks| ==> blocks[i] != blocks[j])
    && (forall i :: 0 <= i < |blocks| ==> blocks[i] !in was)
    && live == was + (set b | b in blocks)
  }

  lemma FreshMore(blocks: seq<Block>, was: set<Block>, live: set<Block>, b: Block)
    requires Fresh(blocks, was, live) && b !in live
    ensures Fresh(blocks + [b], was, live + {b})
  {
  }

  lemma FreshLess(blocks: seq<Block>, was: set<Block>, live: set<Block>)
    requires Fresh(blocks, was, live) && blocks != []
    ensures var b := blocks[|blocks| - 1]; b in live && Fresh(blocks[..|blocks| - 1], was, live - {b})
  {
    var b, rest := blocks[|blocks| - 1], blocks[..|blocks| - 1];
    assert blocks == rest + [b];
  }

  lemma FreshTail(blocks: seq<Block>, was: set<Block>, live: set<Block>)
    requires Fresh(blocks, was, live) && blocks != []
    ensures blocks[0] in live && Fresh(blocks[1..], was, live - {blocks[0]})
  {
    assert blocks == [blocks[0]] + blocks[1..];
  }

  lemma TotalMore(l: seq<PhysAllocation>, p: PhysAllocation)
    ensures Total(l + [p]) == Total(l) + p.len
  {
    assert (l + [p])[..|l|] == l;
  }

  /** What the loop knows: n bytes were asked for, left are still to come modulo 2^64, and the
      next request is for size = 2^j bytes. */
  ghost predicate Collecting(was: set<Block>, now: set<Block>, low: nat, top: nat, n: nat, left: nat, s: nat,
      size: nat, j: nat)
  {
    && size == Pow2(j) && 0 < j <= top && left == (n - s) % WORD && s + Bytes(now) == Bytes(was)
    && if j >= low then Searching(was, now, s, j, top) &&
      (if left == 0 then Passes(was, n, j, top) else Missed(was, n, s, j, top))
       else now == {} && left != 0 && forall i | low <= i <= top :: !Passes(was, n, i, top)
  }

  lemma CollectStarts(was: set<Block>, low: nat, top: nat, n: nat)
    requires 0 < low <= top && 0 < n < WORD
    ensures Collecting(was, was, low, top, n, n, 0, Pow2(top), top)
  {
    SearchStarts(was, n, top);
    Unwrapped(n);
  }

  /** Two words that differ by a multiple of 2^64 are equal. */
  lemma SameWord(n: nat, s: nat)
    requires n < WORD && s < WORD
    ensures (n - s) % WORD == 0 <==> n == s
  {
  }

  lemma CollectTakes(was: set<Block>, now: set<Block>, next: set<Block>, low: nat, top: nat,
                     n: nat, left: nat, s: nat, size: nat, j: nat)
    requires Collecting(was, now, low, top, n, left, s, size, j) && left != 0 && n < WORD && Bytes(was) < WORD
    requires SameBelow(now, next, if j < low then low else j) &&
      Bytes(next) + Pow2(if j < low then low else j) == Bytes(now)
    ensures j >= low && size < WORD && left < WORD
    ensures Collecting(was, next, low, top, n, Sub(left, size), s + size, size, j)
  {
    hide Searching, Missed, Passes, SameBelow, Large, TakenBefore;
    assert Bytes({}) == 0;
    SameWord(n, s);
    SameWord(n, s + size);
    SubIs(n - s, left, size);
    SearchTakes(was, now, next, n, s, j, top);
  }

  lemma CollectNarrows(was: set<Block>, now: set<Block>, low: nat, top: nat, n: nat, left: nat, s: nat, size: nat,
      j: nat)
    requires Collecting(was, now, low, top, n, left, s, size, j) && left != 0 && size >= PAGE_SIZE && n < WORD &&
      Bytes(was) < WORD
    requires forall f :: f in now ==> low <= f.bits && f.bits < j
    ensures j > 1 && Collecting(was, now, low, top, n, left, s, size / 2, j - 1)
  {
    SameWord(n, s);
    assert Pow2(1) == 2;
    if j >= low {
      SearchNarrows(was, now, n, s, j, top);
      if j == low {
        assert now == {};
        forall i | low <= i <= top ensures !Passes(was, n, i, top) {}
      }
    }
  }

  /** How the loop ends: with exactly n bytes, or with nothing left to try. */
  lemma CollectEnds(was: set<Block>, now: set<Block>, low: nat, top: nat, n: nat, left: nat, s: nat, size: nat, j: nat)
    requires Collecting(was, now, low, top, n, left, s, size, j) && n < WORD && Bytes(was) < WORD && PAGE_BITS <= low
    ensures left == 0 ==> n == s && Reachable(was, n, low, top)
    ensures s + Bytes(now) == Bytes(was)
    ensures left != 0 && size < PAGE_SIZE ==> !Reachable(was, n, low, top)
  {
    hide Searching, Missed, Passes;
    SameWord(n, s);
    if left != 0 && size < PAGE_SIZE && j >= low {
      PagePow2();
      Pow2Monotone(PAGE_BITS, j);
    }
  }

  /** One request for size bytes; on success the zone goes on the list. */
  method TryZone(a: PAllocator, list: PhysList, size: nat, ghost j: nat) returns (got: bool, ghost b: Block)
    requires a.Valid() && a.Narrow() && size == Pow2(j) && size < 0x8000_0000
    modifies a`lists, a`header, a`free, a`live, a`freeSpace, a.meta, list
    ensures a.Valid()
    ensures !got ==> a.Abs() == old(a.Abs()) && list.items == old(list.items) && forall f :: f in a.free ==> f.bits < j
    ensures got ==> list.items == old(list.items) + [PhysAllocation(b.addr, size)]
    ensures got ==> b !in old(a.live) && a.live == old(a.live) + {b} && b.bits == if j < a.foBits then a.foBits else j
    ensures got ==> SameBelow(old(a.free), a.free, b.bits) && Bytes(a.free) + b.Size() == Bytes(old(a.free))
  {
    hide State.Good, Coalesced, Bytes, SameBelow, Range.Places;
    b := Block(0, 0);
    var mem; ghost var v;
    mem, v := a.Alloc(size);
    got := mem.Some?;
    if got {
      b := Block(mem.value, a.foBits + a.GetOrder(size).value);
      LeastBits(b, a.foBits, j);
      list.Push(PhysAllocation(mem.value, size));
    } else {
      forall f | f in a.free ensures f.bits < j { if j <= f.bits { Pow2Monotone(j, f.bits); } }
    }
  }

  lemma LeastBits(b: Block, low: nat, j: nat)
    requires low <= b.bits && Pow2(j) <= b.Size() && forall k: nat :: low <= k && Pow2(j) <= Pow2(k) ==> b.bits <= k
    ensures b.bits == if j < low then low else j
  {
    if b.bits < j { Pow2Monotone(b.bits, j); }
    Pow2Monotone(j, if j < low then low else j);
  }

  lemma FreeFacts(a: PAllocator)
    requires a.Valid()
    ensures forall f :: f in a.free ==> a.foBits <= f.bits
    ensures Bytes(a.free) < WORD && PAGE_BITS <= a.foBits
  {
    hide ListsAgree, MetaAgree, HeadersAgree, Bytes, Coalesced, Sized, Covered;
    assert forall f :: f in a.free ==> f in a.free + a.live;
  }

  lemma GiB()
    ensures Pow2(30) == 0x4000_0000
  {
    assert Pow2(10) == 1024;
    Pow2Add(10, 10); Pow2Add(20, 10);
  }

  /** The order of the first request, as a power of two. */
  function FirstBits(a: PAllocator, n: nat): nat
    requires 0 < n < WORD && a.GetOrder(n).Some?
    reads a
  {
    a.foBits + a.GetOrder(n).value
  }

  lemma FirstRequest(a: PAllocator, n: nat)
    requires a.Valid() && a.Narrow() && 0 < n <= 0x4000_0000
    ensures a.GetOrder(n).Some? && a.foBits <= FirstBits(a, n) <= 30
    ensures a.GetOrderSize(a.GetOrder(n).value) == Some(Pow2(FirstBits(a, n))) && Pow2(FirstBits(a, n)) < 0x8000_0000
    ensures n <= Pow2(FirstBits(a, n)) && forall k: nat :: a.foBits <= k && n <= Pow2(k) ==> FirstBits(a, n) <= k
  {
    hide State.Good, Coalesced, Bytes, Range.Places, Pow2, Log2Up, IntShift;
    Log2UpIs(n);
    var t := Log2Up(n).value;
    GiB();
    assert t <= 30;
    OrderSize(FirstBits(a, n));
    IntPow2(FirstBits(a, n));
    Pow2Monotone(FirstBits(a, n), 30);
    Pow2Monotone(t, FirstBits(a, n));
  }

  /** Pops and frees the zones collected so far. */
  method GiveBack(a: PAllocator, list: PhysList, saveLen: nat, ghost blocks: seq<Block>, ghost was: set<Block>)
    requires a.Valid() && a.Narrow() && |list.items| == saveLen + |blocks|
    requires Fresh(blocks, was, a.live) && Addresses(list.items[saveLen..], blocks)
    modifies a`lists, a`header, a`free, a`live, a`freed, a.meta, list
    ensures a.Valid() && a.live == was && list.items == old(list.items[..saveLen])
  {
    hide State.Good, Coalesced, Bytes, Range.Places, Fresh;
    ghost var rest := blocks;
    while saveLen < |list.items|
      invariant a.Valid() && a.Narrow() && |list.items| == saveLen + |rest|
      invariant Fresh(rest, was, a.live) && Addresses(list.items[saveLen..], rest)
      invariant list.items[..saveLen] == old(list.items[..saveLen])
    {
      ghost var items := list.items;
      var palloc := list.Pop();
      ghost var b := rest[|rest| - 1];
      FreshLess(rest, was, a.live);
      assert palloc == items[saveLen..][|rest| - 1];
      assert list.items[saveLen..] == items[saveLen..][..|rest| - 1];
      assert list.items[..saveLen] == items[..saveLen];
      Pow2Monotone(0, a.foBits);
      assert InFirstChunk(b, palloc.addr, a.foBits);
      a.Free(palloc.addr);
      rest := rest[..|rest| - 1];
    }
    FreshNone(was, a.live);
  }

  ghost predicate Addresses(zones: seq<PhysAllocation>, blocks: seq<Block>) {
    |zones| == |blocks| && forall i :: 0 <= i < |blocks| ==> zones[i].addr == blocks[i].addr
  }

  lemma FreshNone(was: set<Block>, live: set<Block>)
    requires Fresh([], was, live)
    ensures live == was
  {
  }

  /** collect_phys_zones: n bytes in whole blocks at the end of the list, or the list and the
      allocator's blocks as they were. Which of the two is settled by the free blocks alone. */
  method CollectPhysZones(a: PAllocator, list: PhysList, n: nat) returns (ok: bool, ghost blocks: seq<Block>)
    requires a.Valid() && a.Narrow() && n <= 0x4000_0000
    modifies a`lists, a`header, a`free, a`live, a`freeSpace, a`freed, a.meta, list
    ensures a.Valid()
    ensures ok ==> Collected(old(list.items), list.items, n, blocks) && Fresh(blocks, old(a.live), a.live)
    ensures ok ==> Bytes(a.free) + n == Bytes(old(a.free)) && a.freed == old(a.freed)
    ensures !ok ==> list.items == old(list.items) && a.live == old(a.live) && a.free == old(a.free)
    ensures ok <==> n == 0 || (a.GetOrder(n).Some? && Reachable(old(a.free), n, a.foBits, FirstBits(a, n)))
  {
    hide State.Good, Coalesced, Bytes, Range.Places, Fresh, Collecting, Reachable, SameBelow, Collected, Pow2, Log2Up,
      IntShift;
    CollectedNone(list.items);
    ghost var before := a.Abs();
    blocks := [];
    FreshStart(a.live);
    if n == 0 {
      return true, blocks;
    }
    FirstRequest(a, n);
    FreeFacts(a);
    var allocSize: nat := a.GetOrderSize(a.GetOrder(n).value).value;
    ghost var top: nat, j: nat, s: nat := FirstBits(a, n), FirstBits(a, n), 0;
    var saveLen := |list.items|;
    var left: nat := n;
    CollectStarts(a.free, a.foBits, top, n);
    while left != 0
      invariant a.Valid() && a.Narrow() && allocSize == Pow2(j) < 0x8000_0000 && a.freed == old(a.freed)
      invariant Collecting(old(a.free), a.free, a.foBits, top, n, left, s, allocSize, j)
      invariant Collected(old(list.items), list.items, s, blocks) && Fresh(blocks, old(a.live), a.live)
      decreases Bytes(a.free), allocSize
    {
      if allocSize < PAGE_SIZE {
        break;
      }
      FreeFacts(a);
      ghost var now, owned, items := a.free, a.live, list.items;
      var got; ghost var b;
      got, b := TryZone(a, list, allocSize, j);
      if !got {
        CollectNarrows(old(a.free), a.free, a.foBits, top, n, left, s, allocSize, j);
        allocSize := allocSize / 2;
        j := j - 1;
        continue;
      }
      CollectTakes(old(a.free), now, a.free, a.foBits, top, n, left, s, allocSize, j);
      FreshMore(blocks, old(a.live), owned, b);
      CollectedMore(old(list.items), items, s, blocks, PhysAllocation(b.addr, allocSize), b);
      left := Sub(left, allocSize);
      s := s + allocSize;
      blocks := blocks + [b];
    }
    CollectEnds(old(a.free), a.free, a.foBits, top, n, left, s, allocSize, j);
    if left == 0 {
      return true, blocks;
    }
    CollectedLength(old(list.items), list.items, s, blocks);
    GiveBack(a, list, saveLen, blocks, old(a.live));
    SameLiveSameFree(before, a.Abs());
    return false, blocks;
  }

  /** The list has grown by the blocks, s bytes in all. */
  ghost predicate Collected(was: seq<PhysAllocation>, now: seq<PhysAllocation>, s: nat, blocks: seq<Block>) {
    && was <= now && Owned(now[|was|..], blocks) && Total(now[|was|..]) == s
  }

  lemma CollectedMore(was: seq<PhysAllocation>, now: seq<PhysAllocation>, s: nat, blocks: seq<Block>,
      p: PhysAllocation, b: Block)
    requires Collected(was, now, s, blocks) && p == PhysAllocation(b.addr, b.Size())
    ensures Collected(was, now + [p], s + p.len, blocks + [b])
  {
    assert (now + [p])[|was|..] == now[|was|..] + [p];
    TotalMore(now[|was|..], p);
  }

  lemma CollectedNone(was: seq<PhysAllocation>)
    ensures Collected(was, was, 0, [])
  {
  }

  lemma CollectedLength(was: seq<PhysAllocation>, now: seq<PhysAllocation>, s: nat, blocks: seq<Block>)
    requires Collected(was, now, s, blocks)
    ensures |now| == |was| + |blocks| && now[..|was|] == was && Addresses(now[|was|..], blocks)
  {
  }

  lemma FreshStart(live: set<Block>)
    ensures Fresh([], live, live)
  {
  }

  // ---------------------------------------------------------------- when it succeeds

  /** For a power of two of at least a chunk, collecting succeeds exactly when that much is free. */
  lemma PowerCollected(a: PAllocator, k: nat)
    requires a.Valid() && a.Narrow() && a.foBits <= k <= 30
    ensures Pow2(k) < WORD && a.GetOrder(Pow2(k)).Some? && FirstBits(a, Pow2(k)) == k
    ensures Reachable(a.free, Pow2(k), a.foBits, FirstBits(a, Pow2(k))) <==> Pow2(k) <= Bytes(a.free)
  {
    hide State.Good, Coalesced, Bytes, Range.Places, Reachable, FirstBits;
    GiB();
    Pow2Monotone(k, 30);
    FirstRequest(a, Pow2(k));
    FreeFacts(a);
    if FirstBits(a, Pow2(k)) < k { Pow2Monotone(FirstBits(a, Pow2(k)), k); }
    PowerReached(a.free, a.foBits, k);
  }

  /** When some free block could hold all of n, every n that is not itself a block size fails:
      the subtraction passes below zero and the search runs until nothing is left. */
  lemma OthersFail(a: PAllocator, n: nat, f: Block)
    requires a.Valid() && a.Narrow() && 0 < n <= 0x4000_0000 && f in a.free && n <= f.Size()
    ensures a.GetOrder(n).Some?
    ensures Reachable(a.free, n, a.foBits, FirstBits(a, n)) <==> n == Pow2(FirstBits(a, n))
  {
    hide State.Good, Coalesced, Bytes, Range.Places, Reachable, FirstBits;
    FirstRequest(a, n);
    FreeFacts(a);
    OvershootsUnlessPower(a.free, f, n, a.foBits, FirstBits(a, n));
  }

  /** No two zones ever collected and still live share a page, nor does one with the
      allocator's table. */
  lemma NoSharedPage(a: PAllocator, b: Block, c: Block, i: nat, j: nat)
    requires a.Valid() && b in a.live && c in a.live && b != c
    requires PAGE_SIZE * (i + 1) <= b.Size() && PAGE_SIZE * (j + 1) <= c.Size()
    ensures b.addr + PAGE_SIZE * i != c.addr + PAGE_SIZE * j
    ensures b.addr + PAGE_SIZE * (i + 1) <= a.endAddr
  {
    hide State.Good, Coalesced, Bytes, Range.Places, Pow2, Chunk;
    Separate(a, b, c);
  }
}
