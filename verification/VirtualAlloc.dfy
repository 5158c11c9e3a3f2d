/** An address space as alloc and free see it: the list of virtual zones, the physical zones
    behind them, and the tables that map them. */
module VirtualAlloc {
  import opened Bits
  import opened PageEntry
  import opened PageTables
  import opened PageWalk
  import opened AddressSpace
  import opened Blocks
  import opened Sequences
  import opened BuddyState
  import opened FreeLists
  import opened Buddy
  import opened Recovery
  import opened Paging
  import opened PhysZones
  import opened AllocMap
  import opened TablePool
  import opened LinkedList
  import opened Zones
  import Words

  /** The first address the kernel's entry in the root leads to. */
  const USER_END: nat := 0xff80_0000_0000

  /** What an allocation holds besides its place. */
  datatype Backing = Backing(zones: seq<PhysAllocation>, flags: bv64)

  predicate InUser(z: Zone) {
    PAGE_SIZE <= z.addr && z.addr % PAGE_SIZE == 0 && z.len % PAGE_SIZE == 0 && z.addr + z.len <= USER_END
  }

  ghost predicate AllIn(bs: seq<Block>, live: set<Block>) {
    forall i :: 0 <= i < |bs| ==> bs[i] in live
  }

  ghost predicate Disjoint(bs: seq<Block>, cs: seq<Block>) {
    forall i, j :: 0 <= i < |bs| && 0 <= j < |cs| ==> bs[i] != cs[j]
  }

  /** From page first on, the map reads as the zones in order. */
  ghost predicate MapsTo(view: map<nat, Leaf>, first: nat, b: Backing) {
    forall v :: first <= v < first + Pages(b.zones) ==> v in view && view[v] == PageOfZones(b.zones, v - first, b.flags)
  }

  /** A zone is backed by live blocks of its own, whole, and mapped to them. */
  ghost predicate Backed(z: Zone, b: Backing, bs: seq<Block>, live: set<Block>, view: map<nat, Leaf>) {
    && WholePages(b.zones) && Owned(b.zones, bs) && Total(b.zones) == z.len
    && Distinct(bs) && AllIn(bs, live) && MapsTo(view, PageOf(z.addr), b)
  }

  datatype Books = Books(zs: seq<Zone>, backing: map<nat, Backing>, owned: map<nat, seq<Block>>,
                         live: set<Block>, view: map<nat, Leaf>) {
    ghost predicate Entry(z: Zone) {
      z.addr in backing && z.addr in owned && Backed(z, backing[z.addr], owned[z.addr], live, view)
    }

    ghost predicate Good() {
      && Ordered(zs) && (forall i :: 0 <= i < |zs| - 1 ==> InUser(zs[i]))
      && (forall i :: 0 <= i < |zs| && zs[i].kind == Valloc ==> Entry(zs[i]))
      && (forall i, j :: 0 <= i < j < |zs| && zs[i].kind == Valloc && zs[j].kind == Valloc ==>
           Disjoint(owned[zs[i].addr], owned[zs[j].addr]))
    }
  }

  /** Where the highest zone below the kernel ends. */
  function High(zs: seq<Zone>): nat
    requires zs != []
  {
    if |zs| == 1 then PAGE_SIZE else zs[|zs| - 2].addr + zs[|zs| - 2].len
  }

  // ---------------------------------------------------------------- what the steps keep

  lemma Heights(b: Books)
    requires b.Good()
    ensures b.zs != [] && PAGE_SIZE <= High(b.zs) <= USER_END && High(b.zs) % PAGE_SIZE == 0
    ensures forall i :: 0 <= i < |b.zs| - 1 ==> b.zs[i].addr + b.zs[i].len <= High(b.zs)
  {
    hide Books.Entry;
    forall i | 0 <= i < |b.zs| - 1 ensures b.zs[i].addr + b.zs[i].len <= High(b.zs) {
      if i < |b.zs| - 2 { Apart(b.zs, i, |b.zs| - 2); }
    }
    if |b.zs| > 1 {
      assert InUser(b.zs[|b.zs| - 2]);
      PageSums(b.zs[|b.zs| - 2]);
    }
  }

  lemma PageSums(z: Zone)
    requires InUser(z)
    ensures (z.addr + z.len) % PAGE_SIZE == 0
  {
  }

  lemma PageSpan(addr: nat, p: nat, high: nat)
    requires addr + PAGE_SIZE * p <= high <= USER_END
    ensures PageOf(addr) + p <= PageOf(high) <= USER_PAGES
  {
    var q, r := addr / 4096, high / 4096;
    assert PageOf(addr) == q && PageOf(high) == r;
    assert 4096 * (q + p) <= high < 4096 * (r + 1);
    assert q + p <= r && r <= USER_PAGES by { assert 4096 * r <= 4096 * USER_PAGES; }
  }

  lemma NotKernel(b: Books, i: nat)
    requires b.Good() && i < |b.zs| && b.zs[i].kind == Valloc
    ensures i < |b.zs| - 1 && InUser(b.zs[i]) && b.Entry(b.zs[i]) && 0 < b.zs[i].len
  {
    hide Books.Entry, InUser;
  }

  ghost predicate SameOn(view: map<nat, Leaf>, view': map<nat, Leaf>, first: nat, last: nat) {
    forall v: nat :: first <= v < last && v in view ==> v in view' && view'[v] == view[v]
  }

  lemma BackedOver(z: Zone, b: Backing, bs: seq<Block>, live: set<Block>, live': set<Block>, view: map<nat, Leaf>,
      view': map<nat, Leaf>)
    requires Backed(z, b, bs, live, view) && AllIn(bs, live')
    requires SameOn(view, view', PageOf(z.addr), PageOf(z.addr) + Pages(b.zones))
    ensures Backed(z, b, bs, live', view')
  {
    hide PageOf, WholePages, Owned, Distinct, LeafAt;
  }

  /** Pages of a zone lie below every address at or above its end. */
  lemma BackedSpan(z: Zone, b: Backing, bs: seq<Block>, live: set<Block>, view: map<nat, Leaf>, high: nat)
    requires Backed(z, b, bs, live, view) && z.addr + z.len <= high <= USER_END
    ensures PageOf(z.addr) + Pages(b.zones) <= PageOf(high) && z.len == PAGE_SIZE * Pages(b.zones)
  {
    hide PageOf, Pages;
    TotalPages(b.zones);
    PageSpan(z.addr, Pages(b.zones), high);
  }

  /** More live blocks, and whatever happens to the map above the highest zone, disturb nothing. */
  lemma Undisturbed(b: Books, live: set<Block>, view: map<nat, Leaf>)
    requires b.Good() && b.zs != [] && b.live <= live && SameOn(b.view, view, 0, PageOf(High(b.zs)))
    ensures b.(live := live, view := view).Good()
  {
    hide Ordered, Backed, SameOn, PageOf, Pages, InUser;
    Heights(b);
    forall i | 0 <= i < |b.zs| && b.zs[i].kind == Valloc ensures b.(live := live, view := view).Entry(b.zs[i]) {
      var z := b.zs[i];
      NotKernel(b, i);
      BackedSpan(z, b.backing[z.addr], b.owned[z.addr], b.live, b.view, High(b.zs));
      StillIn(z, b.backing[z.addr], b.owned[z.addr], b.live, live, b.view);
      SameWithin(b.view, view, 0, PageOf(High(b.zs)), PageOf(z.addr), PageOf(z.addr) + Pages(b.backing[z.addr].zones));
      BackedOver(z, b.backing[z.addr], b.owned[z.addr], b.live, live, b.view, view);
    }
  }

  lemma SameWithin(view: map<nat, Leaf>, view': map<nat, Leaf>, first: nat, last: nat, first': nat, last': nat)
    requires SameOn(view, view', first, last) && first <= first' && last' <= last
    ensures SameOn(view, view', first', last')
  {
  }

  lemma StillIn(z: Zone, b: Backing, bs: seq<Block>, live: set<Block>, live': set<Block>, view: map<nat, Leaf>)
    requires Backed(z, b, bs, live, view) && live <= live'
    ensures AllIn(bs, live')
  {
    hide MapsTo, WholePages, Owned, Distinct;
  }

  /** The list with a zone added right below the kernel's. */
  function OnTop(zs: seq<Zone>, z: Zone): seq<Zone>
    requires zs != []
  {
    zs[..|zs| - 1] + [z] + zs[|zs| - 1..]
  }

  /** None of the blocks backs a zone. */
  ghost predicate Spare(zs: seq<Zone>, owned: map<nat, seq<Block>>, bs: seq<Block>) {
    forall i :: 0 <= i < |zs| && zs[i].kind == Valloc ==> zs[i].addr in owned && Disjoint(owned[zs[i].addr], bs)
  }

  lemma OnTopAt(zs: seq<Zone>, z: Zone, i: nat)
    requires zs != [] && i <= |zs|
    ensures |OnTop(zs, z)| == |zs| + 1
    ensures OnTop(zs, z)[i] == if i < |zs| - 1 then zs[i] else if i == |zs| - 1 then z else zs[|zs| - 1]
  {
  }

  /** The list gains a zone above all others, backed by spare blocks. */
  lemma Gained(b: Books, z: Zone, e: Backing, bs: seq<Block>)
    requires b.Good() && b.zs != [] && z.addr == High(b.zs) && z.kind == Valloc && InUser(z) && 0 < z.len
    requires Backed(z, e, bs, b.live, b.view) && Spare(b.zs, b.owned, bs)
    ensures b.(zs := OnTop(b.zs, z), backing := b.backing[z.addr := e], owned := b.owned[z.addr := bs]).Good()
  {
    hide Ordered, Backed, InUser, Disjoint, OnTop;
    var c := b.(zs := OnTop(b.zs, z), backing := b.backing[z.addr := e], owned := b.owned[z.addr := bs]);
    Heights(b);
    OnTopOrdered(b, z);
    OnTopAt(b.zs, z, 0);
    forall i | 0 <= i < |c.zs|
      ensures (i < |c.zs| - 1 ==> InUser(c.zs[i])) && (c.zs[i].kind == Valloc ==> c.Entry(c.zs[i])) {
      OnTopAt(b.zs, z, i);
      if c.zs[i].kind == Valloc && i != |b.zs| - 1 { OtherKey(b, z, if i < |b.zs| then i else i - 1); }
    }
    forall i, j | 0 <= i < j < |c.zs| && c.zs[i].kind == Valloc && c.zs[j].kind == Valloc
      ensures Disjoint(c.owned[c.zs[i].addr], c.owned[c.zs[j].addr]) {
      OnTopAt(b.zs, z, i);
      OnTopAt(b.zs, z, j);
      LastKernel(b);
      OtherKey(b, z, i);
      if j < |b.zs| - 1 { OtherKey(b, z, j); }
    }
  }

  lemma LastKernel(b: Books)
    requires b.Good()
    ensures b.zs != [] && b.zs[|b.zs| - 1].kind == Kernel
  {
    hide Books.Entry, InUser;
  }

  lemma OtherKey(b: Books, z: Zone, i: nat)
    requires b.Good() && i < |b.zs| && z.addr == High(b.zs) && b.zs[i].kind == Valloc
    ensures b.zs[i].addr != z.addr
  {
    hide Ordered, Backed, InUser;
    Heights(b);
    NotKernel(b, i);
  }

  lemma OnTopOrdered(b: Books, z: Zone)
    requires b.Good() && b.zs != [] && z.addr == High(b.zs) && z.kind == Valloc && InUser(z) && 0 < z.len
    ensures Ordered(OnTop(b.zs, z))
  {
    hide Books.Entry;
    assert |b.zs| > 1 ==> InUser(b.zs[|b.zs| - 2]);
    Between(b.zs, z, |b.zs| - 1);
  }

  function Dropped(zs: seq<Zone>, i: nat): seq<Zone>
    requires i < |zs|
  {
    zs[..i] + zs[i + 1..]
  }

  lemma DroppedAt(zs: seq<Zone>, i: nat, j: nat)
    requires i < |zs| && j < |zs| - 1
    ensures |Dropped(zs, i)| == |zs| - 1 && Dropped(zs, i)[j] == zs[if j < i then j else j + 1]
  {
  }

  lemma DroppedOrdered(zs: seq<Zone>, i: nat)
    requires Ordered(zs) && i < |zs| - 1
    ensures Ordered(Dropped(zs, i))
  {
    var l := Dropped(zs, i);
    DroppedAt(zs, i, |zs| - 2);
    forall j | 0 <= j < |l| - 1 ensures l[j].kind != Kernel && 0 < l[j].len && l[j].addr + l[j].len <= l[j + 1].addr {
      DroppedAt(zs, i, j);
      DroppedAt(zs, i, j + 1);
      if j + 1 == i { Apart(zs, j, i + 1); }
    }
  }

  lemma UnmapElsewhere(view: map<nat, Leaf>, first: nat, count: nat, first': nat, last': nat)
    requires last' <= first || first + count <= first'
    ensures SameOn(view, Unmapped(view, first, count), first', last')
  {
    hide Unmapped;
    forall v: nat | first' <= v < last' && v in view
      ensures v in Unmapped(view, first, count) && Unmapped(view, first, count)[v] == view[v] {
      UnmappedAt(view, first, count, v);
    }
  }

  /** The list, the backing and the map after the allocation of zone h has been freed and zone v
      taken off the list. */
  ghost function LoseAs(b: Books, h: nat, v: nat): Books
    requires h < |b.zs| && v < |b.zs| && b.zs[h].addr in b.backing && b.zs[h].addr in b.owned
  {
    var at := b.zs[h].addr;
    Books(Dropped(b.zs, v), b.backing - {at}, b.owned - {at}, b.live - (set c | c in b.owned[at]),
          Unmapped(b.view, PageOf(at), Pages(b.backing[at].zones)))
  }

  ghost function Lose(b: Books, i: nat): Books
    requires i < |b.zs| && b.zs[i].addr in b.backing && b.zs[i].addr in b.owned
  {
    LoseAs(b, i, i)
  }

  /** Another zone keeps its blocks and its pages. */
  lemma LoseOther(b: Books, i: nat, j: nat)
    requires b.Good() && i < |b.zs| && b.zs[i].kind == Valloc && j < |b.zs| && b.zs[j].kind == Valloc && i != j
    ensures b.zs[i].addr in b.backing && b.zs[i].addr in b.owned && b.zs[i].addr != b.zs[j].addr
    ensures Lose(b, i).Entry(b.zs[j])
  {
    hide Ordered, Backed, PageOf, Pages, Dropped, SameOn;
    NotKernel(b, i);
    NotKernel(b, j);
    var z, y := b.zs[i], b.zs[j];
    var e, d := b.backing[z.addr], b.backing[y.addr];
    if i < j {
      Apart(b.zs, i, j);
      BackedSpan(z, e, b.owned[z.addr], b.live, b.view, y.addr);
    } else {
      Apart(b.zs, j, i);
      BackedSpan(y, d, b.owned[y.addr], b.live, b.view, z.addr);
    }
    UnmapElsewhere(b.view, PageOf(z.addr), Pages(e.zones), PageOf(y.addr), PageOf(y.addr) + Pages(d.zones));
    OwnWithin(b, i, j);
    BackedOver(y, d, b.owned[y.addr], b.live, Lose(b, i).live, b.view, Lose(b, i).view);
  }

  lemma OwnWithin(b: Books, i: nat, j: nat)
    requires b.Good() && i < |b.zs| && b.zs[i].kind == Valloc && j < |b.zs| && b.zs[j].kind == Valloc && i != j
    ensures b.zs[i].addr in b.owned && b.zs[j].addr in b.owned
    ensures AllIn(b.owned[b.zs[j].addr], b.live - (set c | c in b.owned[b.zs[i].addr]))
  {
    hide Ordered, MapsTo, WholePages, Owned, Distinct, InUser;
    assert b.Entry(b.zs[i]) && b.Entry(b.zs[j]);
    if i < j { assert Disjoint(b.owned[b.zs[i].addr], b.owned[b.zs[j].addr]); }
    else { assert Disjoint(b.owned[b.zs[j].addr], b.owned[b.zs[i].addr]); }
  }

  lemma Lost(b: Books, i: nat)
    requires b.Good() && i < |b.zs| && b.zs[i].kind == Valloc
    ensures i < |b.zs| - 1 && b.zs[i].addr in b.backing && b.zs[i].addr in b.owned && Lose(b, i).Good()
  {
    hide Ordered, Backed, PageOf, Pages, InUser, Dropped, Disjoint;
    NotKernel(b, i);
    var c := Lose(b, i);
    DroppedOrdered(b.zs, i);
    DroppedAt(b.zs, i, 0);
    forall j | 0 <= j < |c.zs|
      ensures (j < |c.zs| - 1 ==> InUser(c.zs[j])) && (c.zs[j].kind == Valloc ==> c.Entry(c.zs[j])) {
      DroppedAt(b.zs, i, j);
      if c.zs[j].kind == Valloc { LoseOther(b, i, if j < i then j else j + 1); }
    }
    forall j, k | 0 <= j < k < |c.zs| && c.zs[j].kind == Valloc && c.zs[k].kind == Valloc
      ensures Disjoint(c.owned[c.zs[j].addr], c.owned[c.zs[k].addr]) {
      DroppedAt(b.zs, i, j);
      DroppedAt(b.zs, i, k);
      LoseOther(b, i, if j < i then j else j + 1);
      LoseOther(b, i, if k < i then k else k + 1);
    }
  }

  /** find_address takes the end of the highest zone as long as it leaves room for the kernel. */
  lemma FoundOnTop(b: Books, z: Zone, node: nat)
    requires b.Good() && b.zs != [] && 0 < z.len && High(b.zs) + z.len <= USER_END && node < WORD
    ensures Found(b.zs, z.len, node) == High(b.zs) != 0 && WithFound(b.zs, z) == OnTop(b.zs, z)
    ensures FoundCursor(b.zs, z.len, High(b.zs)) == if |b.zs| == 1 then (1, 1) else (|b.zs|, |b.zs| - 1)
  {
    hide Books.Entry;
    Heights(b);
    if |b.zs| > 1 {
      Apart(b.zs, |b.zs| - 2, |b.zs| - 1);
      assert b.zs[|b.zs| - 1] == KERNEL_ZONE;
      assert GapBelow(b.zs, z.len, |b.zs| - 2) == Some(|b.zs| - 2);
    }
  }

  // ---------------------------------------------------------------- no page is shared

  /** Which physical zone a page of a virtual zone is in, and where there. */
  lemma {:induction false} Located(zones: seq<PhysAllocation>, k: nat, flags: bv64) returns (x: nat, r: nat)
    requires k < Pages(zones)
    ensures x < |zones| && r < PageCount(zones[x].len) && k == Pages(zones[..x]) + r
    ensures PageOfZones(zones, k, flags) == LeafAt(zones[x].addr, r, flags)
    decreases |zones|
  {
    hide LeafAt, PageCount;
    var n := |zones| - 1;
    if k >= Pages(zones[..n]) {
      x, r := n, k - Pages(zones[..n]);
    } else {
      x, r := Located(zones[..n], k, flags);
      assert zones[..n][..x] == zones[..x];
    }
  }

  /** Neither the wrap at 2^64 nor the offset of the kernel's window touches the page offset. */
  lemma FrameNumberIs(x: nat, r: nat)
    requires x % PAGE_SIZE == 0
    ensures FrameNumber(x, r) % PAGE_SIZE == 0
    ensures FrameNumber(x, r) % BIT48 == (x + PAGE_SIZE * r + (WORD - KERNEL_BASE)) % BIT48
  {
    var n := x + PAGE_SIZE * r + (WORD - KERNEL_BASE);
    assert n % PAGE_SIZE == 0;
    ModOfMod(n, 65536, BIT48);
    ModOfMod(n, 0x10_0000_0000_0000, PAGE_SIZE);
  }

  /** Different pages less than 2^48 bytes apart have different frame bits in a table entry. */
  lemma FramesDiffer(x: nat, r: nat, y: nat, t: nat)
    requires x % PAGE_SIZE == 0 && y % PAGE_SIZE == 0 && x + PAGE_SIZE * r != y + PAGE_SIZE * t
    requires x + PAGE_SIZE * r < y + PAGE_SIZE * t + BIT48 && y + PAGE_SIZE * t < x + PAGE_SIZE * r + BIT48
    ensures Addr(FrameAt(x, r)) != Addr(FrameAt(y, t))
  {
    hide Words.Word, FrameNumber;
    FrameNumberIs(x, r);
    FrameNumberIs(y, t);
    Closer(x + PAGE_SIZE * r + (WORD - KERNEL_BASE), y + PAGE_SIZE * t + (WORD - KERNEL_BASE));
    Words.PagesTold(FrameNumber(x, r), FrameNumber(y, t));
  }

  lemma Closer(n: nat, m: nat)
    requires n != m && n < m + BIT48 && m < n + BIT48
    ensures n % BIT48 != m % BIT48
  {
  }

  lemma BlockPages(b: Block, p: PhysAllocation, r: nat)
    requires p.addr == b.addr && p.len == b.Size() && r < PageCount(p.len) && p.len % PAGE_SIZE == 0
    ensures PAGE_SIZE * (r + 1) <= b.Size()
  {
    hide Pow2;
  }

  lemma BlockAligned(a: PAllocator, b: Block)
    requires a.Valid() && b in a.live
    ensures b.addr % PAGE_SIZE == 0 && a.startAddr <= b.addr && b.End() <= a.endAddr < WORD
  {
    hide ListsAgree, HeadersAgree, MetaAgree, Bytes, Coalesced;
    assert b in a.free + a.live;
    PagePow2();
    ModWeaken(b.addr, PAGE_BITS, b.bits);
  }

  /** Two places in live blocks, different blocks or different pages of one, are different frames. */
  lemma PlacesDiffer(a: PAllocator, b: Block, r: nat, c: Block, t: nat)
    requires a.Valid() && b in a.live && c in a.live && a.endAddr - a.startAddr <= BIT48
    requires PAGE_SIZE * (r + 1) <= b.Size() && PAGE_SIZE * (t + 1) <= c.Size()
    requires b != c || r != t
    ensures Addr(FrameAt(b.addr, r)) != Addr(FrameAt(c.addr, t))
  {
    hide PAllocator.Valid, Pow2, FrameAt, Addr;
    BlockAligned(a, b);
    BlockAligned(a, c);
    if b != c { NoSharedPage(a, b, c, r, t); }
    FramesDiffer(b.addr, r, c.addr, t);
  }

  /** What a page of a zone is mapped to: the frame of a page of one of its blocks. */
  lemma PageBacked(b: Books, i: nat, k: nat) returns (x: nat, r: nat)
    requires b.Good() && i < |b.zs| && b.zs[i].kind == Valloc && k < b.zs[i].len / PAGE_SIZE
    ensures var at := b.zs[i].addr;
      && at in b.owned && at in b.backing && x < |b.owned[at]| && b.owned[at][x] in b.live
      && PAGE_SIZE * (r + 1) <= b.owned[at][x].Size()
      && x < |b.backing[at].zones| == |b.owned[at]| && k == Pages(b.backing[at].zones[..x]) + r
      && WholePages(b.backing[at].zones) && PageOf(at) + k < USER_PAGES && PageOf(at) + k in b.view
      && b.view[PageOf(at) + k] == LeafAt(b.owned[at][x].addr, r, b.backing[at].flags)
  {
    NotKernel(b, i);
    var z := b.zs[i];
    var e, bs := b.backing[z.addr], b.owned[z.addr];
    hide Books.Good, Books.Entry, InUser, FrameAt, Addr, PageCount, Block.Size, PageOf;
    BackedSpan(z, e, bs, b.live, b.view, z.addr + z.len);
    PageSpan(z.addr, Pages(e.zones), z.addr + z.len);
    x, r := Located(e.zones, k, e.flags);
    BlockPages(bs[x], e.zones[x], r);
    assert MapsTo(b.view, PageOf(z.addr), e);
    assert PageOf(z.addr) + k in b.view && b.view[PageOf(z.addr) + k] ==
      PageOfZones(e.zones, PageOf(z.addr) + k - PageOf(z.addr), e.flags);
  }

  // ---------------------------------------------------------------- the address space

  datatype Request = Allocate(n: Word, flags: bv64, node: Word) | Release(mem: Word)

  class AddrSpace {
    const a: PAllocator
    const m: PageMap
    const list: VirtZones
    /** By a zone's address: what its allocation holds. */
    var backing: map<nat, Backing>
    /** The blocks behind each zone. */
    ghost var owned: map<nat, seq<Block>>

    ghost function Abs(): Books
      reads this, a, m, list
    {
      Books(list.list.nodes, backing, owned, a.live, m.view)
    }

    /** The allocator and the tables are in order. */
    ghost predicate Parts()
      reads this, a, a.meta, m
    {
      && a.Valid() && a.Narrow() && a.endAddr <= a.startAddr + MAX_SUPPORTED_MEM
      && m.Valid() && NoEmptyTable(m.Abs())
    }

    ghost predicate Sound()
      reads this, a, a.meta, m, list
    {
      Parts() && list.list.nodes != [] && Abs().Good()
    }

    /** What holds between calls. */
    ghost predicate Valid()
      reads this, a, a.meta, m, list
    {
      Sound() && (list.list.Right() || Raised(list.list) || Stale(list.list))
    }

    constructor (a: PAllocator, m: PageMap, list: VirtZones)
      requires a.Valid() && a.Narrow() && a.endAddr <= a.startAddr + MAX_SUPPORTED_MEM
      requires m.Valid() && NoEmptyTable(m.Abs()) && list.list == Listed([KERNEL_ZONE], None, 0)
      ensures Valid() && this.a == a && this.m == m && this.list == list && backing == map[]
    {
      this.a, this.m, this.list := a, m, list;
      backing, owned := map[], map[];
    }

    /** Physical zones for len bytes. */
    method Collect(len: nat) returns (ok: bool, zones: seq<PhysAllocation>, ghost bs: seq<Block>)
      requires Valid() && 0 < len <= 0x4000_0000
      modifies a`lists, a`header, a`free, a`live, a`freeSpace, a`freed, a.meta
      ensures Valid() && old(a.live) <= a.live
      ensures ok <==> a.GetOrder(len).Some? && Reachable(old(a.free), len, a.foBits, FirstBits(a, len))
      ensures ok ==> WholePages(zones) && Owned(zones, bs) && Total(zones) == len
      ensures ok ==> Distinct(bs) && AllIn(bs, a.live) && Spare(list.list.nodes, owned, bs)
      ensures ok ==> a.freeSpace == Sub(old(a.freeSpace), len) && Fresh(bs, old(a.live), a.live)
      ensures !ok ==> a.live == old(a.live) && a.free == old(a.free)
    {
      hide PAllocator.Valid, Space.Good, FullBut, Books.Good, Fresh, Collected, Owned, Bytes, Reachable, Spare, AllIn,
        Distinct, WholePages, PageMap.Valid, NoEmptyTable, SameOn, Remaining, Sub, Raised, Stale, Listed.Right;
      ghost var was, before := a.live, Abs();
      ghost var free := a.free;
      Counter(a);
      var found := new PhysList();
      ok, bs := CollectPhysZones(a, found, len);
      zones := found.items;
      if ok {
        CollectedAll(zones, len, bs);
        CollectedWhole(a, was, zones, bs);
        Counter(a);
        Charged(free, a.free, a.freed, len);
        FreshIs(before, bs, a.live);
      }
      SameAll(m.view, 0, PageOf(High(list.list.nodes)));
      Undisturbed(before, a.live, m.view);
    }

    /** map_alloc_data, find_address included: the zones get an address and are mapped there. When
        that fails the virtual zone is dropped, and the physical ones stay taken. */
    method PlaceZones(len: nat, zones: seq<PhysAllocation>, flags: bv64, node: nat, ghost bs: seq<Block>)
      returns (out: nat, i: nat)
      requires Valid() && !Stale(list.list) && node < WORD
      requires WholePages(zones) && Owned(zones, bs) && 0 < Total(zones) == len
      requires Distinct(bs) && AllIn(bs, a.live) && Spare(list.list.nodes, owned, bs) &&
        High(list.list.nodes) + len <= USER_END
      modifies this, list, m`mem, m`pool, m`at, m`view
      ensures Valid() && old(list.list.nodes) != []
      ensures CursorAfter(out != 0, |old(list.list).nodes|, list.list)
      ensures out != 0 <==> |Missing(old(m.at), PageOf(High(old(list.list).nodes)), len / PAGE_SIZE)| <= |old(m.pool)|
      ensures out == 0 ==> list.list.nodes == old(list.list.nodes) && backing == old(backing) && owned == old(owned)
      ensures out == 0 ==> i < |zones| && m.view == LeftOver(old(m.view), PageOf(High(old(list.list.nodes))), zones, i,
        flags)
      ensures out != 0 ==>
        out == High(old(list.list.nodes)) < WORD && list.list.nodes == OnTop(old(list.list.nodes),
          Zone(out, len, Valloc))
      ensures out != 0 ==> backing == old(backing)[out := Backing(zones, flags)] && owned == old(owned)[out := bs]
      ensures out != 0 ==> m.view == MappedZones(old(m.view), PageOf(out), zones, flags)
    {
      hide PAllocator.Valid, Space.Good, PageMap.Valid, NoEmptyTable, Space.Frames, Books.Good, Owned, Spare, AllIn,
        Distinct, WholePages, SameOn, OnTop, LeftOver, MappedZones, Found, WithFound, PageOf, Pages, MapsTo, Ordered,
        FoundCursor, Missing;
      SettledLast(list.list);
      ghost var before, high := Abs(), High(list.list.nodes);
      Heights(before);
      OrderedNow(before);
      TotalPages(zones);
      RoomIs(high, len, Pages(zones));
      ghost var z := Zone(high, len, Valloc);
      FoundOnTop(before, z, node);
      OnTopAt(list.list.nodes, z, 0);
      out := list.FindAddress(len, Valloc, node);
      var ok;
      ok, i := MapAllocData(m, zones, out, flags);
      if !ok {
        OnTopDropped(before.zs, z);
        list.RemoveP(|list.list.nodes| - 2);
        LeftBelow(before.view, PageOf(high), zones, i, flags);
        Undisturbed(before, a.live, m.view);
        return 0, i;
      }
      MappedBelow(before.view, PageOf(high), zones, flags);
      Undisturbed(before, a.live, m.view);
      Gained(before.(view := m.view), z, Backing(zones, flags), bs);
      backing := backing[out := Backing(zones, flags)];
      owned := owned[out := bs];
    }

    /** What a request that the guards let through may ask for, and that the list can be read. */
    predicate Room(n: nat)
      requires n < WORD
      reads a, list
    {
      n == 0 || n > a.freeSpace ||
      (n <= 0x4000_0000 && list.list.nodes != [] && High(list.list.nodes) + AlignUp(n, PAGE_SIZE) <= USER_END &&
       !Stale(list.list))
    }

    /** A request that can be served: the counter covers it, the free blocks come to its length, and
        there is a free page for every table that is missing for it. */
    ghost predicate Served(n: nat)
      requires n < WORD && list.list.nodes != []
      reads a, m, list
    {
      && 0 < n <= a.freeSpace && n <= 0x4000_0000
      && var len := AlignUp(n, PAGE_SIZE);
         && 0 < len < WORD && a.GetOrder(len).Some? && Reachable(a.free, len, a.foBits, FirstBits(a, len))
         && |Missing(m.at, PageOf(High(list.list.nodes)), len / PAGE_SIZE)| <= |m.pool|
    }

    /** n bytes of new memory, in whole pages right above the highest zone, or 0. node is the
        address of the first zone's object. */
    method Alloc(n: nat, flags: bv64, node: nat) returns (out: nat)
      requires Valid() && n < WORD && node < WORD && Room(n)
      modifies this, list, a`lists, a`header, a`free, a`live, a`freeSpace, a`freed, a.meta, m`mem, m`pool, m`at, m`view
      ensures Valid() && old(list.list.nodes) != [] && old(a.live) <= a.live
      ensures out != 0 <==> old(Served(n))
      ensures n == 0 || n > old(a.freeSpace) ==> out == 0 && Abs() == old(Abs()) && a.freeSpace == old(a.freeSpace)
      ensures (out == 0 && a.live == old(a.live) && list.list == old(list.list)) ||
        CursorAfter(out != 0, |old(list.list).nodes|, list.list)
      ensures out == 0 ==> list.list.nodes == old(list.list.nodes) && backing == old(backing) && owned == old(owned)
      ensures out == 0 ==> SameOn(old(m.view), m.view, 0, PageOf(High(old(list.list.nodes))))
      ensures out == 0 && a.live == old(a.live) ==> m.view == old(m.view)
      ensures out != 0 ==> n <= 0x4000_0000 && out == High(old(list.list.nodes)) < WORD && AlignUp(n, PAGE_SIZE) < WORD
      ensures out != 0 ==> list.list.nodes == OnTop(old(list.list.nodes), Zone(out, AlignUp(n, PAGE_SIZE), Valloc))
      ensures out != 0 ==> out in backing && out in owned && Total(backing[out].zones) == AlignUp(n, PAGE_SIZE)
      ensures out != 0 ==> backing == old(backing)[out := backing[out]] && owned == old(owned)[out := owned[out]]
      ensures out != 0 ==> backing[out].flags == flags
      ensures out != 0 ==> m.view == MappedZones(old(m.view), PageOf(out), backing[out].zones, flags)
      ensures out != 0 ==>
        Fresh(owned[out], old(a.live), a.live) && a.freeSpace == Sub(old(a.freeSpace), AlignUp(n, PAGE_SIZE))
    {
      hide PAllocator.Valid, Space.Good, PageMap.Valid, NoEmptyTable, Space.Frames, Books.Good, Owned, Spare, AllIn,
        Distinct, WholePages, OnTop, LeftOver, MappedZones, PageOf, Pages, MapsTo, Ordered, AlignUp, Sub, Fresh,
        FullBut, Missing, Reachable;
      Heights(Abs());
      SameAll(m.view, 0, PageOf(High(list.list.nodes)));
      if n == 0 {
        return 0;
      }
      if n > a.freeSpace {
        return 0;
      }
      WholeLength(n);
      var len := AlignUp(n, PAGE_SIZE);
      var ok, zones; ghost var bs;
      ok, zones, bs := Collect(len);
      if !ok {
        return 0;
      }
      FreshMoved(bs, old(a.live), a.live, zones, len);
      var i;
      ghost var view, high := m.view, High(list.list.nodes);
      out, i := PlaceZones(len, zones, flags, node, bs);
      if out == 0 { LeftBelow(view, PageOf(high), zones, i, flags); }
    }

    /** What free does with a zone it has read, the one at position h, under index k. */
    method FreeAt(z: Zone, k: nat, ghost h: nat)
      requires Sound() && h < |list.list.nodes| && z == list.list.nodes[h] && z.kind == Valloc
      requires k < |list.list.nodes| && 0 <= list.list.Victim(k) < |list.list.nodes|
      modifies this, list, a`lists, a`header, a`free, a`live, a`freed, a.meta, m`mem, m`pool, m`at, m`view
      ensures Parts() && old(list.list.nodes[h].addr in backing && list.list.nodes[h].addr in owned)
      ensures list.list == old(list.list).Removed(k) && |list.list.nodes| == |old(list.list).nodes| - 1
      ensures Abs() == LoseAs(old(Abs()), h, old(list.list).Victim(k))
    {
      hide PAllocator.Valid, Space.Good, PageMap.Valid, NoEmptyTable, Space.Frames, Books.Good, Books.Entry,
        WholePages, Addresses, PageOf, Pages, Fresh, Dropped, Unmapped, Listed.Victim, Listed.Removed;
      ghost var before, v := Abs(), list.list.Victim(k);
      var at: nat := z.addr;
      ReadyToFree(before, h);
      FreeZones(a, m, backing[at].zones, at, owned[at], a.live - (set c | c in owned[at]));
      RemovedNodes(list.list, k);
      list.Remove(k);
      backing := backing - {at};
      owned := owned - {at};
      assert Abs() == LoseAs(before, h, v);
    }

    /** free as it reads the list. The loop goes on after it has found an allocation. */
    method Free(mem: nat)
      requires Valid() && !Stale(list.list) && mem < WORD
      modifies this, list, a`lists, a`header, a`free, a`live, a`freed, a.meta, m`mem, m`pool, m`at, m`view
      ensures Parts() && list.list.Right()
      ensures Freed(old(Abs()), Abs(), AlignDown(mem, PAGE_SIZE)) <==>
        !Misread(old(list.list), AlignDown(mem, PAGE_SIZE))
      ensures Valid() <==>
        !(Skewed(old(list.list)) && Match(old(list.list).nodes, AlignDown(mem, PAGE_SIZE), 0) == Some(1))
      ensures Struck(old(Abs()), Abs(), Skewed(old(list.list)), AlignDown(mem, PAGE_SIZE))
    {
      hide PAllocator.Valid, Space.Good, PageMap.Valid, NoEmptyTable, Books.Good, AlignDown, Struck, Freed, Misread,
        Skewed, Raised, Stale;
      ghost var before, l := Abs(), list.list;
      ghost var done := Scan(AlignDown(mem, PAGE_SIZE));
      ScanFrees(before, Abs(), l, AlignDown(mem, PAGE_SIZE));
    }

    /** The loop of free. */
    method Scan(virt: nat) returns (ghost done: Option<nat>)
      requires Valid() && !Stale(list.list)
      modifies this, list, a`lists, a`header, a`free, a`live, a`freed, a.meta, m`mem, m`pool, m`at, m`view
      ensures Parts() && list.list.Right() && Struck(old(Abs()), Abs(), Skewed(old(list.list)), virt)
    {
      hide PAllocator.Valid, Space.Good, PageMap.Valid, NoEmptyTable, Books.Good, LoseAs, Skewed, Raised,
        Listed.Lands, Listed.Victim, Listed.Removed, Listed.Looked, Listed.Right, AddrSpace.Parts, Struck, Looking;
      ghost var before, skew := Abs(), Skewed(list.list);
      ghost var ahead := skew;
      LookStarts(before, list.list, virt);
      var i := 0;
      done := None;
      while i < |list.list.nodes|
        invariant Parts() && (done.None? ==> Sound()) && i <= |list.list.nodes|
        invariant Looking(before, Abs(), list.list, virt, i, skew, ahead, done)
        decreases |list.list.nodes| - i
      {
        LookLands(before, Abs(), list.list, virt, i, skew, ahead, done);
        ghost var c, l, h := Abs(), list.list, list.list.Lands(i);
        var z := list.Get(i);
        LookedNodes(l, i);
        assert Abs() == c;
        if z.addr == virt && z.kind == Valloc {
          LookHit(before, Abs(), l, virt, i, skew, ahead, done);
          FreeAt(z, i, h);
          done := Some(h);
          ahead := ahead && i > 0;
        } else {
          LookMiss(before, Abs(), l, virt, i, skew, ahead, done);
        }
        i := i + 1;
      }
      LookEnds(before, Abs(), list.list, virt, i, skew, ahead, done);
    }

    /** A request for which the list is misread: freeing one of the first two zones while the cursor
        is off on a short list, or any use of the list while the cursor is past its only zone. */
    predicate Blind(r: Request)
      reads a, list
    {
      match r
      case Allocate(n, _, _) => Stale(list.list) && 0 < n <= a.freeSpace
      case Release(mem) => Stale(list.list) || Misread(list.list, AlignDown(mem, PAGE_SIZE))
    }

    /** Where the hardware walk ends for page k of zone i. */
    function Reached(i: nat, k: nat): Option<Leaf>
      requires i < |list.list.nodes|
      reads m, list
    {
      Walk(m.mem, m.pml4, 3, PageOf(list.list.nodes[i].addr) + k)
    }

    /** Where byte d of zone i is in physical memory. */
    function Physical(i: nat, d: nat): Option<nat>
      requires i < |list.list.nodes|
      reads m, list
    {
      Translate(m.mem, m.pml4, list.list.nodes[i].addr + d)
    }

    /** Byte d of zone i is in a live block of the zone, which the kernel sees at KERNEL_BASE. */
    ghost predicate InBlock(i: nat, d: nat, b: Block)
      requires i < |list.list.nodes|
      reads this, a, m, list
    {
      && list.list.nodes[i].addr in owned && b in owned[list.list.nodes[i].addr] && b in a.live
      && match Physical(i, d)
         case None => false
         case Some(p) => b.addr <= p + 0xffff_ff80_0000_0000 < b.End()
    }

    /** Every byte of every allocation is in one of its own blocks, if the allocator's memory is in
        the kernel's window. */
    ghost predicate OwnMemory()
      reads this, a, m, list
    {
      0xffff_ff80_0000_0000 <= a.startAddr ==>
        forall i, d :: HasByte(list.list.nodes, i, d) ==> exists b :: InBlock(i, d, b)
    }

    /** Every page of every allocation is mapped, and no two share a frame. */
    ghost predicate NoAlias()
      reads m, list
    {
      forall i, k, j, l :: HasPage(list.list.nodes, i, k) && HasPage(list.list.nodes, j, l) && (i != j || k != l) ==>
        Reached(i, k).Some? && Reached(j, l).Some? && Reached(i, k).value.addr != Reached(j, l).value.addr
    }
  }

  predicate HasPage(zs: seq<Zone>, i: nat, k: nat) {
    i < |zs| && zs[i].kind == Valloc && k < zs[i].len / PAGE_SIZE
  }

  predicate HasByte(zs: seq<Zone>, i: nat, d: nat) {
    i < |zs| && zs[i].kind == Valloc && d < zs[i].len
  }

  /** The counter of free bytes: what is free less all that has ever been given back. */
  ghost function Remaining(free: set<Block>, freed: nat): nat { (Bytes(free) - freed) % WORD }

  lemma Counter(a: PAllocator)
    requires a.Valid()
    ensures a.freeSpace == Remaining(a.free, a.freed) < WORD
  {
    hide State.Good, Coalesced, Bytes;
  }

  lemma Charged(free: set<Block>, free': set<Block>, freed: nat, len: nat)
    requires Bytes(free') + len == Bytes(free) && len < WORD
    ensures Remaining(free', freed) == Sub(Remaining(free, freed), len)
  {
    hide Bytes;
    SubIs(Bytes(free) - freed, Remaining(free, freed), len);
  }

  lemma OrderedNow(b: Books)
    requires b.Good()
    ensures Ordered(b.zs)
  {
  }

  lemma RoomIs(high: nat, len: nat, p: nat)
    requires PAGE_SIZE <= high && high % PAGE_SIZE == 0 && len == PAGE_SIZE * p && high + len <= USER_END
    ensures high < WORD && len < WORD && PageOf(high) + p <= USER_PAGES && high + PAGE_SIZE * p < BIT48
    ensures InUser(Zone(high, len, Valloc))
  {
    hide PageOf;
    PageSpan(high, p, high + len);
  }

  lemma OnTopDropped(zs: seq<Zone>, z: Zone)
    requires zs != []
    ensures |OnTop(zs, z)| == |zs| + 1 && Dropped(OnTop(zs, z), |zs| - 1) == zs
  {
  }

  lemma LeftBelow(view: map<nat, Leaf>, first: nat, zones: seq<PhysAllocation>, i: nat, flags: bv64)
    requires WholePages(zones) && i < |zones|
    ensures SameOn(view, LeftOver(view, first, zones, i, flags), 0, first)
  {
    hide LeftOver, WholePages;
    var l := LeftOver(view, first, zones, i, flags);
    forall v: nat | v < first && v in view ensures v in l && l[v] == view[v] {
      LeftOverAt(view, first, zones, i, flags, v);
    }
  }

  lemma MappedBelow(view: map<nat, Leaf>, first: nat, zones: seq<PhysAllocation>, flags: bv64)
    ensures SameOn(view, MappedZones(view, first, zones, flags), 0, first)
    ensures MapsTo(MappedZones(view, first, zones, flags), first, Backing(zones, flags))
  {
    var l := MappedZones(view, first, zones, flags);
    forall v: nat ensures v < first && v in view ==> v in l && l[v] == view[v] {
      MappedZonesAt(view, first, zones, flags, v);
    }
    forall v: nat | first <= v < first + Pages(zones) ensures v in l && l[v] == PageOfZones(zones, v - first, flags) {
      MappedZonesAt(view, first, zones, flags, v);
    }
  }

  lemma WholeLength(n: nat)
    requires 0 < n <= 0x4000_0000
    ensures 0 < n <= AlignUp(n, PAGE_SIZE) <= 0x4000_0000 && AlignUp(n, PAGE_SIZE) % PAGE_SIZE == 0
  {
    hide AlignUp;
    PagePow2();
    AlignUpIs(n, PAGE_BITS);
  }

  lemma FreshMoved(bs: seq<Block>, was: set<Block>, live: set<Block>, zones: seq<PhysAllocation>, len: nat)
    requires Fresh(bs, was, live) && Owned(zones, bs) && Total(zones) == len > 0
    ensures live != was
  {
    assert bs != [];
    assert bs[0] in live && bs[0] !in was;
  }

  /** What unmapping a zone and giving back its blocks asks for. */
  lemma ReadyToFree(b: Books, h: nat)
    requires b.Good() && h < |b.zs| && b.zs[h].kind == Valloc
    ensures var at := b.zs[h].addr;
      && at in b.backing && at in b.owned && WholePages(b.backing[at].zones)
      && Fresh(b.owned[at], b.live - (set c | c in b.owned[at]), b.live)
      && Addresses(b.backing[at].zones, b.owned[at])
      && PageOf(at) + Pages(b.backing[at].zones) <= USER_PAGES
      && at + PAGE_SIZE * Pages(b.backing[at].zones) < BIT48
  {
    NotKernel(b, h);
    hide Books.Good, PageOf, Pages, Fresh, MapsTo;
    var z := b.zs[h];
    var e, bs := b.backing[z.addr], b.owned[z.addr];
    BackedSpan(z, e, bs, b.live, b.view, z.addr + z.len);
    PageSpan(z.addr, Pages(e.zones), z.addr + z.len);
    OwnedFresh(bs, b.live);
  }

  lemma OwnedFresh(bs: seq<Block>, live: set<Block>)
    requires Distinct(bs) && AllIn(bs, live)
    ensures Fresh(bs, live - (set c | c in bs), live)
  {
    assert live - (set c | c in bs) + (set c | c in bs) == live;
  }

  /** The first allocation from index i on that starts at an address. */
  function Match(zs: seq<Zone>, at: nat, i: nat): (r: Option<nat>)
    requires i <= |zs|
    ensures r.Some? ==> i <= r.value < |zs| && zs[r.value].addr == at && zs[r.value].kind == Valloc
    decreases |zs| - i
  {
    if i == |zs| then None
    else if zs[i].addr == at && zs[i].kind == Valloc then Some(i)
    else Match(zs, at, i + 1)
  }

  /** The allocation a scan finds: one that reads ahead does not see zone 0. */
  function Aim(zs: seq<Zone>, at: nat, skew: bool): Option<nat>
    requires zs != []
  {
    Match(zs, at, if skew then 1 else 0)
  }

  /** The first index a scan has not read when it comes to index i. */
  function From(n: nat, i: nat, skew: bool): nat
    requires i <= n
  {
    if skew then Min(i + 1, n) else i
  }

  ghost predicate NoneAfter(zs: seq<Zone>, at: nat, i: nat) {
    forall j :: i <= j < |zs| ==> zs[j].addr != at || zs[j].kind != Valloc
  }

  /** What free promises: the allocation that starts at an address goes, and nothing else. */
  ghost predicate Freed(b: Books, c: Books, at: nat) {
    match Match(b.zs, at, 0)
    case None => c == b
    case Some(i) => b.zs[i].addr in b.backing && b.zs[i].addr in b.owned && c == Lose(b, i)
  }

  /** What free does: a scan that reads ahead misses zone 0, and frees zone 1 but unlinks zone 0. */
  ghost predicate Struck(b: Books, c: Books, skew: bool, at: nat) {
    b.zs != [] &&
    match Aim(b.zs, at, skew)
    case None => c == b
    case Some(h) =>
      b.zs[h].addr in b.backing && b.zs[h].addr in b.owned && c == LoseAs(b, h, if skew && h == 1 then 0 else h)
  }

  /** The calls that go wrong: the cursor has been left one off by an allocation, there are three or
      four zones with the kernel's, and the address is that of one of the first two. */
  predicate Misread(l: Listed<Zone>, at: nat) {
    Skewed(l) && (Match(l.nodes, at, 0) == Some(0) || Match(l.nodes, at, 0) == Some(1))
  }

  /** No two allocations start at the same address. */
  lemma OnlyOne(b: Books, h: nat, j: nat)
    requires b.Good() && h < |b.zs| && j < |b.zs| && h != j
    ensures b.zs[h].addr != b.zs[j].addr
  {
    hide Books.Entry, InUser;
    if h < j { Apart(b.zs, h, j); } else { Apart(b.zs, j, h); }
  }

  lemma NoneLeft(b: Books, h: nat, v: nat, i: nat)
    requires b.Good() && h < |b.zs| && v < |b.zs| && h <= i + 1 && v <= i + 1
    ensures NoneAfter(Dropped(b.zs, v), b.zs[h].addr, i + 1)
  {
    hide Books.Good;
    forall j | i + 1 <= j < |Dropped(b.zs, v)|
      ensures Dropped(b.zs, v)[j].addr != b.zs[h].addr || Dropped(b.zs, v)[j].kind != Valloc {
      DroppedAt(b.zs, v, j);
      OnlyOne(b, h, j + 1);
    }
  }

  /** Looking for an address from index 1 on finds what looking from index 0 on does, unless that
      is zone 0. */
  lemma AimIs(b: Books, at: nat)
    requires b.Good() && b.zs != []
    ensures Match(b.zs, at, 1) == if Match(b.zs, at, 0) == Some(0) then None else Match(b.zs, at, 0)
  {
    hide Books.Good;
    if Match(b.zs, at, 0) == Some(0) && Match(b.zs, at, 1).Some? { OnlyOne(b, 0, Match(b.zs, at, 1).value); }
  }

  /** Where a scan for an address has come to: b is what it started from, c what there is now. */
  ghost predicate Looking(b: Books, c: Books, l: Listed<Zone>, at: nat, i: nat, skew: bool, ahead: bool,
      done: Option<nat>)
  {
    && Scanning(l, i, ahead) && (ahead ==> |l.nodes| <= 4) && c.zs == l.nodes && b.Good() && b.zs != []
    && match done
       case None => ahead == skew && c == b && Match(b.zs, at, From(|b.zs|, i, skew)) == Aim(b.zs, at, skew)
       case Some(_) => done == Aim(b.zs, at, skew) && Struck(b, c, skew, at) && NoneAfter(l.nodes, at, i)
  }

  lemma LookStarts(b: Books, l: Listed<Zone>, at: nat)
    requires b.Good() && b.zs == l.nodes != [] && (l.Right() || Raised(l))
    ensures Looking(b, b, l, at, 0, Skewed(l), Skewed(l), None)
  {
    hide Books.Good;
    ScanStarts(l);
  }

  lemma LookedNodes(l: Listed<Zone>, i: nat)
    requires 0 <= l.Lands(i)
    ensures l.Looked(i).nodes == l.nodes
  {
  }

  lemma LookLands(b: Books, c: Books, l: Listed<Zone>, at: nat, i: nat, skew: bool, ahead: bool, done: Option<nat>)
    requires Looking(b, c, l, at, i, skew, ahead, done) && i < |l.nodes|
    ensures 0 <= l.Lands(i) < |l.nodes|
  {
    hide Books.Good, Scanning, Match, Listed.Lands;
    ScanStep(l, i, ahead);
  }

  lemma LookMiss(b: Books, c: Books, l: Listed<Zone>, at: nat, i: nat, skew: bool, ahead: bool, done: Option<nat>)
    requires Looking(b, c, l, at, i, skew, ahead, done) && i < |l.nodes| && 0 <= l.Lands(i) < |l.nodes|
    requires l.nodes[l.Lands(i)].addr != at || l.nodes[l.Lands(i)].kind != Valloc
    ensures Looking(b, c, l.Looked(i), at, i + 1, skew, ahead, done)
  {
    hide Books.Good, Scanning, Listed.Lands, Struck;
    ScanStep(l, i, ahead);
    LookedNodes(l, i);
    LastKernel(b);
  }

  lemma LookHit(b: Books, c: Books, l: Listed<Zone>, at: nat, i: nat, skew: bool, ahead: bool, done: Option<nat>)
    requires Looking(b, c, l, at, i, skew, ahead, done) && i < |l.nodes| && 0 <= l.Lands(i) < |l.nodes|
    requires l.nodes[l.Lands(i)].addr == at && l.nodes[l.Lands(i)].kind == Valloc
    ensures done.None? && c == b && l.Lands(i) < |b.zs| && at in b.backing && at in b.owned &&
      b.zs[l.Lands(i)].addr == at
    ensures i < |l.Looked(i).nodes| && 0 <= l.Looked(i).Victim(i) < |l.nodes| && i + 1 < |l.nodes|
    ensures Looking(b, LoseAs(b, l.Lands(i), l.Looked(i).Victim(i)), l.Looked(i).Removed(i), at, i + 1, skew,
                    ahead && i > 0, Some(l.Lands(i)))
  {
    hide Books.Good, Scanning, Listed.Lands, Listed.Victim, Listed.Removed;
    ScanStep(l, i, ahead);
    LookedNodes(l, i);
    LastKernel(b);
    assert done.None?;
    var h := l.Lands(i);
    NotKernel(b, h);
    ScanRemoves(l, i, ahead);
    RemovedNodes(l.Looked(i), i);
    NoneLeft(b, h, l.Looked(i).Victim(i), i);
    assert Match(b.zs, at, h) == Some(h);
  }

  lemma LookEnds(b: Books, c: Books, l: Listed<Zone>, at: nat, i: nat, skew: bool, ahead: bool, done: Option<nat>)
    requires Looking(b, c, l, at, i, skew, ahead, done) && i == |l.nodes|
    ensures l.Right() && Struck(b, c, skew, at)
  {
    hide Books.Good, Scanning;
    ScanEnds(l, ahead);
  }

  /** When what the scan does is what free promises, and what it leaves otherwise. */
  lemma ScanFrees(b: Books, c: Books, l: Listed<Zone>, at: nat)
    requires b.Good() && b.zs == l.nodes != [] && Struck(b, c, Skewed(l), at)
    ensures Freed(b, c, at) <==> !Misread(l, at)
    ensures c.zs != [] && (c.Good() <==> !(Skewed(l) && Match(l.nodes, at, 0) == Some(1)))
  {
    hide Books.Good, Dropped;
    AimIs(b, at);
    var h := Match(b.zs, at, 0);
    if h.Some? {
      Lost(b, h.value);
      DroppedAt(b.zs, h.value, 0);
      LostKey(b, h.value);
    }
  }

  /** With the wrong zone taken off the list, what is left is not in order. */
  lemma LostKey(b: Books, h: nat)
    requires b.Good() && h < |b.zs| && b.zs[h].kind == Valloc && b.zs[h].addr in b.backing && b.zs[h].addr in b.owned
    ensures h == 1 ==> !LoseAs(b, 1, 0).Good() && LoseAs(b, 1, 0) != Lose(b, 1) && LoseAs(b, 1, 0).zs != []
  {
    if h == 1 {
      var c := LoseAs(b, 1, 0);
      DroppedAt(b.zs, 0, 0);
      DroppedAt(b.zs, 1, 0);
      OnlyOne(b, 0, 1);
      assert !c.Entry(c.zs[0]);
    }
  }

  /** The cursor after an allocation on a list of n zones. */
  predicate CursorAfter(ok: bool, n: nat, l: Listed<Zone>) {
    if n == 1 then (if ok then l.Right() else Stale(l)) else (if ok then Raised(l) else l.Right())
  }

  lemma SettledLast(l: Listed<Zone>)
    requires l.nodes != [] && (l.Right() || Raised(l))
    ensures l.Lands(|l.nodes| - 1) == |l.nodes| - 1
  {
    if l.Right() { RightLands(l, |l.nodes| - 1); }
  }

  lemma RemovedNodes(l: Listed<Zone>, k: nat)
    requires k < |l.nodes| && 0 <= l.Victim(k) < |l.nodes|
    ensures l.Removed(k).nodes == Dropped(l.nodes, l.Victim(k)) && |l.Removed(k).nodes| == |l.nodes| - 1
  {
  }

  lemma SameAll(view: map<nat, Leaf>, first: nat, last: nat)
    ensures SameOn(view, view, first, last)
  {
  }

  lemma CollectedAll(zones: seq<PhysAllocation>, n: nat, bs: seq<Block>)
    requires Collected([], zones, n, bs)
    ensures Owned(zones, bs) && Total(zones) == n
  {
    assert zones[0..] == zones;
  }

  lemma FreshIs(b: Books, bs: seq<Block>, live: set<Block>)
    requires b.Good() && Fresh(bs, b.live, live)
    ensures Distinct(bs) && AllIn(bs, live) && Spare(b.zs, b.owned, bs) && b.live <= live
  {
    hide Ordered, MapsTo, WholePages, Owned;
    forall i | 0 <= i < |b.zs| && b.zs[i].kind == Valloc
      ensures b.zs[i].addr in b.owned && Disjoint(b.owned[b.zs[i].addr], bs) {
      assert b.Entry(b.zs[i]);
    }
  }

  // ---------------------------------------------------------------- whole runs

  lemma PlacesOf(b: Books, i: nat, k: nat, j: nat, l: nat, x: nat, r: nat, y: nat, t: nat)
    requires b.Good() && HasPage(b.zs, i, k) && HasPage(b.zs, j, l) && (i != j || k != l)
    requires var at, to := b.zs[i].addr, b.zs[j].addr;
      && at in b.owned && to in b.owned && x < |b.owned[at]| && y < |b.owned[to]| && at in b.backing && to in b.backing
      && x < |b.backing[at].zones| && k == Pages(b.backing[at].zones[..x]) + r
      && y < |b.backing[to].zones| && l == Pages(b.backing[to].zones[..y]) + t
    ensures b.owned[b.zs[i].addr][x] != b.owned[b.zs[j].addr][y] || r != t
  {
    hide Ordered, MapsTo, WholePages, Owned, InUser, AllIn;
    assert b.Entry(b.zs[i]) && b.Entry(b.zs[j]);
    if i < j { assert Disjoint(b.owned[b.zs[i].addr], b.owned[b.zs[j].addr]); }
    if j < i { assert Disjoint(b.owned[b.zs[j].addr], b.owned[b.zs[i].addr]); }
  }

  /** Two different pages of live allocations walk to different frames. */
  lemma NoSharedFrame(s: AddrSpace, i: nat, k: nat, j: nat, l: nat)
    requires s.Valid() && HasPage(s.list.list.nodes, i, k) && HasPage(s.list.list.nodes, j, l) && (i != j || k != l)
    ensures s.Reached(i, k).Some? && s.Reached(j, l).Some? && s.Reached(i, k).value.addr != s.Reached(j, l).value.addr
  {
    hide PAllocator.Valid, Space.Good, NoEmptyTable, Books.Good, Walk, FrameAt, Addr, Pages, PageOf, Block.Size;
    var b := s.Abs();
    var x, r := PageBacked(b, i, k);
    var y, t := PageBacked(b, j, l);
    PlacesOf(b, i, k, j, l, x, r, y, t);
    PlacesDiffer(s.a, b.owned[b.zs[i].addr][x], r, b.owned[b.zs[j].addr][y], t);
    WalkIsView(s.m.Abs(), PageOf(b.zs[i].addr) + k);
    WalkIsView(s.m.Abs(), PageOf(b.zs[j].addr) + l);
  }

  /** Byte d of an allocation translates to the byte that is d bytes from the start of its zones,
      taken in order, and may be used exactly as asked for. x is the zone it is in, o the place
      there. */
  lemma OwnBytes(s: AddrSpace, i: nat, d: nat) returns (x: nat, o: nat)
    requires s.Valid() && HasByte(s.list.list.nodes, i, d)
    ensures var at := s.list.list.nodes[i].addr;
      && at in s.backing && at in s.owned && x < |s.owned[at]| == |s.backing[at].zones| && s.owned[at][x] in s.a.live
      && o < s.owned[at][x].Size() && d == Total(s.backing[at].zones[..x]) + o
      && s.Physical(i, d) == Some((s.owned[at][x].addr + o + 0x80_0000_0000) % 0x1_0000_0000_0000)
      && var f := s.backing[at].flags;
         WalkRights(s.m.mem, s.m.pml4, 3, (at + d) / 4096) ==
           Some(Rights(f & 0x2 != 0, f & 0x4 != 0, f & 0x8000_0000_0000_0000 != 0))
  {
    hide PAllocator.Valid, Space.Good, NoEmptyTable, Books.Good, Walk, WalkRights, LeafAt, Pages, PageOf, Block.Size,
      Words.Value, Flags;
    var b, at, k := s.Abs(), s.list.list.nodes[i].addr, d / 4096;
    ZoneSpan(b, i, d);
    var r;
    x, r := PageBacked(b, i, k);
    o := 4096 * r + d % 4096;
    var c, f := b.owned[at][x], b.backing[at].flags;
    WholePrefix(b.backing[at].zones, x);
    TotalPages(b.backing[at].zones[..x]);
    BlockAligned(s.a, c);
    ByteAt(at, d, k + 1);
    LeafValue(c.addr, r, f);
    FlagRights(f);
    WalkIsView(s.m.Abs(), PageOf(at) + k);
    RightsAre(s.m.Abs(), PageOf(at) + k);
    ByteIn(c.addr, o);
  }

  /** With the allocator's memory in the kernel's window, that is inside one of its own blocks. */
  lemma InOwnBlock(s: AddrSpace, i: nat, d: nat) returns (b: Block)
    requires s.Valid() && HasByte(s.list.list.nodes, i, d) && 0xffff_ff80_0000_0000 <= s.a.startAddr
    ensures s.InBlock(i, d, b)
  {
    hide AddrSpace.Valid, PAllocator.Valid, Space.Good, Translate, WalkRights, AddrSpace.Physical, Total;
    var x, o := OwnBytes(s, i, d);
    b := s.owned[s.list.list.nodes[i].addr][x];
    BlockOf(s, b);
    ByteIn(b.addr, o);
  }

  /** Two different bytes of allocations, of one or of two, are different bytes of memory. */
  lemma NoSharedByte(s: AddrSpace, i: nat, d: nat, j: nat, e: nat)
    requires s.Valid() && HasByte(s.list.list.nodes, i, d) && HasByte(s.list.list.nodes, j, e) && (i != j || d != e)
    ensures s.Physical(i, d).Some? && s.Physical(j, e).Some? && s.Physical(i, d) != s.Physical(j, e)
  {
    hide AddrSpace.Valid, PAllocator.Valid, Space.Good, Translate, WalkRights, AddrSpace.Physical, Total;
    var x, o := OwnBytes(s, i, d);
    var y, t := OwnBytes(s, j, e);
    BlocksOf(s, i, x, j, y);
    BytesApart(s, s.owned[s.list.list.nodes[i].addr][x], o, s.owned[s.list.list.nodes[j].addr][y], t);
  }

  lemma BlocksOf(s: AddrSpace, i: nat, x: nat, j: nat, y: nat)
    requires s.Valid() && HasByte(s.list.list.nodes, i, 0) && HasByte(s.list.list.nodes, j, 0)
    requires var at, to := s.list.list.nodes[i].addr, s.list.list.nodes[j].addr;
      at in s.owned && to in s.owned && x < |s.owned[at]| && y < |s.owned[to]|
    ensures s.owned[s.list.list.nodes[i].addr][x] == s.owned[s.list.list.nodes[j].addr][y] <==> i == j && x == y
  {
    hide PAllocator.Valid, Space.Good, Ordered, MapsTo, WholePages, Owned, InUser, AllIn;
    var b := s.Abs();
    assert b.Entry(b.zs[i]) && b.Entry(b.zs[j]);
    if i < j { assert Disjoint(b.owned[b.zs[i].addr], b.owned[b.zs[j].addr]); }
    if j < i { assert Disjoint(b.owned[b.zs[j].addr], b.owned[b.zs[i].addr]); }
  }

  lemma BytesApart(s: AddrSpace, b: Block, o: nat, c: Block, t: nat)
    requires s.Valid() && b in s.a.live && c in s.a.live && o < b.Size() && t < c.Size() && (b != c || o != t)
    ensures (b.addr + o + 0x80_0000_0000) % 0x1_0000_0000_0000 != (c.addr + t + 0x80_0000_0000) % 0x1_0000_0000_0000
  {
    hide PAllocator.Valid, Space.Good, Books.Good;
    BlockAligned(s.a, b);
    BlockAligned(s.a, c);
    if b != c { LiveApart(s.a, b, c); }
    Closer(b.addr + o + 0x80_0000_0000, c.addr + t + 0x80_0000_0000);
  }

  lemma LiveApart(a: PAllocator, b: Block, c: Block)
    requires a.Valid() && b in a.live && c in a.live && b != c
    ensures b.Apart(c)
  {
    hide ListsAgree, HeadersAgree, MetaAgree, Bytes, Coalesced;
    assert b in a.free + a.live && c in a.free + a.live;
  }

  lemma BlockOf(s: AddrSpace, b: Block)
    requires s.Valid() && b in s.a.live
    ensures b.addr % PAGE_SIZE == 0 && s.a.startAddr <= b.addr && b.addr + b.Size() <= s.a.endAddr < WORD
  {
    hide PAllocator.Valid, Space.Good, Books.Good;
    BlockAligned(s.a, b);
  }

  lemma ZoneSpan(b: Books, i: nat, d: nat)
    requires b.Good() && HasByte(b.zs, i, d)
    ensures d / 4096 < b.zs[i].len / PAGE_SIZE && b.zs[i].addr % 4096 == 0
    ensures b.zs[i].addr + d < BIT48 && (b.zs[i].addr + d) % BIT48 == b.zs[i].addr + d
  {
    hide Books.Entry;
    NotKernel(b, i);
  }

  /** Bytes of address space a run may come to take. */
  function Demand(rs: seq<Request>): nat {
    if rs == [] then 0
    else (if rs[0].Allocate? then AlignUp(rs[0].n, PAGE_SIZE) else 0) + Demand(rs[1..])
  }

  /** After any run of alloc and free that stays below the kernel's part of the address space, every
      page of every live allocation is mapped, no two walk to the same frame, and every byte is in
      a block of its own allocation, up to the first request for which the list is misread. */
  method Run(s: AddrSpace, rs: seq<Request>) returns (done: nat)
    requires s.Valid() && forall i :: 0 <= i < |rs| && rs[i].Allocate? ==> rs[i].n <= 0x4000_0000
    requires High(s.list.list.nodes) + Demand(rs) <= USER_END
    modifies s, s.list, s.a`lists, s.a`header, s.a`free, s.a`live, s.a`freeSpace, s.a`freed, s.a.meta
    modifies s.m`mem, s.m`pool, s.m`at, s.m`view
    ensures s.Valid() && s.NoAlias() && s.OwnMemory() && done <= |rs| && (done < |rs| ==> s.Blind(rs[done]))
  {
    hide PAllocator.Valid, PAllocator.Narrow, Space.Good, PageMap.Valid, NoEmptyTable, Books.Good, AlignUp, AlignDown,
      PageOf, MappedZones, Fresh, SameOn, OnTop, Dropped, Walk, AddrSpace.Reached, Struck, Skewed, CursorAfter,
      Raised;
    assert rs[0..] == rs;
    done := 0;
    while done < |rs| && !s.Blind(rs[done])
      invariant done <= |rs|
      invariant s.Valid() && High(s.list.list.nodes) + Demand(rs[done..]) <= USER_END
      decreases |rs| - done
    {
      assert rs[done..][1..] == rs[done + 1..];
      ghost var before := s.Abs();
      match rs[done] {
        case Allocate(n, flags, node) =>
          var out := s.Alloc(n, flags, node);
          if out != 0 { HighOnTop(before.zs, Zone(out, AlignUp(n, PAGE_SIZE), Valloc)); }
        case Release(mem) =>
          if Match(before.zs, AlignDown(mem, PAGE_SIZE), 0).Some? { HighLost(before, AlignDown(mem, PAGE_SIZE)); }
          s.Free(mem);
      }
      done := done + 1;
    }
    forall i, k, j, l | HasPage(s.list.list.nodes, i, k) && HasPage(s.list.list.nodes, j, l) && (i != j || k != l)
      ensures s.Reached(i, k).Some? && s.Reached(j, l).Some? &&
        s.Reached(i, k).value.addr != s.Reached(j, l).value.addr {
      NoSharedFrame(s, i, k, j, l);
    }
    MemoryOwned(s);
  }

  lemma MemoryOwned(s: AddrSpace)
    requires s.Valid()
    ensures s.OwnMemory()
  {
    hide AddrSpace.Valid, AddrSpace.InBlock;
    if 0xffff_ff80_0000_0000 <= s.a.startAddr {
      forall i, d | HasByte(s.list.list.nodes, i, d) ensures exists b :: s.InBlock(i, d, b) {
        var b := InOwnBlock(s, i, d);
      }
    }
  }

  lemma HighOnTop(zs: seq<Zone>, z: Zone)
    requires zs != []
    ensures OnTop(zs, z) != [] && High(OnTop(zs, z)) == z.addr + z.len
  {
  }

  lemma HighLost(b: Books, at: nat)
    requires b.Good() && b.zs != [] && Match(b.zs, at, 0).Some?
    ensures var i := Match(b.zs, at, 0).value;
      i < |b.zs| - 1 && Dropped(b.zs, i) != [] && High(Dropped(b.zs, i)) <= High(b.zs)
  {
    hide Books.Entry;
    var i := Match(b.zs, at, 0).value;
    NotKernel(b, i);
    DroppedAt(b.zs, i, 0);
    if |b.zs| > 2 {
      DroppedAt(b.zs, i, |b.zs| - 3);
      Apart(b.zs, |b.zs| - 3, |b.zs| - 2);
    }
  }

  // ---------------------------------------------------------------- giving back

  /** Freeing what was just allocated gives everything back but the counter: the list, the live
      and the free blocks, the pages, and, where nothing was mapped above the zones, the whole map
      and the tables that carry it. It does so unless there was just one zone besides the kernel's:
      then that one is dropped from the list, and the freed one stays. */
  method AllocThenFree(s: AddrSpace, n: nat, flags: bv64, node: nat) returns (out: nat)
    requires s.Valid() && n < WORD && node < WORD && s.Room(n)
    modifies s, s.list, s.a`lists, s.a`header, s.a`free, s.a`live, s.a`freeSpace, s.a`freed, s.a.meta
    modifies s.m`mem, s.m`pool, s.m`at, s.m`view
    ensures out < WORD && (out == 0 ==> s.Valid() && s.list.list.nodes == old(s.list.list.nodes))
    ensures out != 0 ==> (s.Valid() <==> |old(s.list.list).nodes| != 2)
    ensures out != 0 ==> AlignUp(n, PAGE_SIZE) < WORD && s.a.freeSpace == Sub(old(s.a.freeSpace), AlignUp(n, PAGE_SIZE))
    ensures out != 0 && |old(s.list.list).nodes| == 2 ==>
      s.list.list.nodes == [Zone(out, AlignUp(n, PAGE_SIZE), Valloc), old(s.list.list).nodes[1]]
    ensures out != 0 && |old(s.list.list).nodes| != 2 ==>
      s.list.list.nodes == old(s.list.list).nodes && s.a.live == old(s.a.live) && s.a.free == old(s.a.free)
    ensures out != 0 && |old(s.list.list).nodes| != 2 ==>
      (forall v :: PageOf(out) <= v < PageOf(out) + PageCount(n) ==> v !in old(s.m.view)) ==>
        s.m.view == old(s.m.view) && s.m.at.Keys == old(s.m.at.Keys)
  {
    hide PAllocator.Valid, Coalesced, State.Good, PAllocator.Narrow, Space.Good, NoEmptyTable, Books.Good, AlignUp,
      AlignDown, PageOf, PageCount, MappedZones, Unmapped, Fresh, SameOn, OnTop, Dropped, Sub, Pages, Match, Aim,
      CursorAfter, Misread, Skewed, Raised, Struck, Stale, Freed, LoseAs, Listed.Right, AddrSpace.Room;
    ghost var before, space, state := s.Abs(), s.m.Abs(), s.a.Abs();
    Heights(before);
    GoodNow(s.a);
    out := s.Alloc(n, flags, node);
    if out != 0 {
      ghost var z, zones := Zone(out, AlignUp(n, PAGE_SIZE), Valloc), s.backing[out].zones;
      ghost var bs, after, l := s.owned[out], s.Abs(), s.list.list;
      FoundAgain(before, z);
      OnTopDropped(before.zs, z);
      FreshUndone(bs, before.live, s.a.live);
      RoundedPages(s.Abs(), |before.zs| - 1, n);
      MisreadTop(before.zs, z, s.list.list);
      s.Free(out);
      GoodNow(s.a);
      StruckTop(after, s.Abs(), before.zs, z, Skewed(l));
      if |before.zs| != 2 {
        SameLiveSameFree(state, s.a.Abs());
        if forall v :: PageOf(out) <= v < PageOf(out) + PageCount(n) ==> v !in before.view {
          UnmapUndoesZones(before.view, PageOf(out), zones, flags);
          SameTables(space, s.m.Abs());
        }
      }
    }
  }

  /** Right after an allocation the new zone is misread exactly when it is the second. */
  lemma MisreadTop(zs: seq<Zone>, z: Zone, l: Listed<Zone>)
    requires zs != [] && l.nodes == OnTop(zs, z) && CursorAfter(true, |zs|, l)
    requires Match(OnTop(zs, z), z.addr, 0) == Some(|zs| - 1)
    ensures !Stale(l) && (Misread(l, z.addr) <==> |zs| == 2)
    ensures Skewed(l) && Match(l.nodes, z.addr, 0) == Some(1) <==> |zs| == 2
    ensures |zs| == 2 ==> Skewed(l)
  {
    hide Match;
    OnTopAt(zs, z, 0);
  }

  lemma StruckTop(b: Books, c: Books, zs: seq<Zone>, z: Zone, skew: bool)
    requires zs != [] && b.zs == OnTop(zs, z) && Match(b.zs, z.addr, 0) == Some(|zs| - 1) && b.Good()
    requires Struck(b, c, skew, z.addr) && (|zs| == 2 ==> skew)
    ensures |zs| == 2 ==> c.zs == [z, zs[1]]
    ensures |zs| != 2 && Freed(b, c, z.addr) ==> c.zs == zs && z.addr in b.owned && z.addr in b.backing
    ensures |zs| != 2 && Freed(b, c, z.addr) ==> c.live == b.live - (set x | x in b.owned[z.addr])
    ensures |zs| != 2 && Freed(b, c, z.addr) ==>
      c.view == Unmapped(b.view, PageOf(z.addr), Pages(b.backing[z.addr].zones))
  {
    hide Books.Good, Match;
    OnTopAt(zs, z, 0);
    OnTopDropped(zs, z);
    AimIs(b, z.addr);
  }

  lemma FoundAgain(b: Books, z: Zone)
    requires b.Good() && b.zs != [] && z.addr == High(b.zs) && z.kind == Valloc
    ensures AlignDown(z.addr, PAGE_SIZE) == z.addr
    ensures |OnTop(b.zs, z)| == |b.zs| + 1 && OnTop(b.zs, z)[|b.zs| - 1] == z
    ensures Match(OnTop(b.zs, z), z.addr, 0) == Some(|b.zs| - 1)
  {
    hide Books.Good, AlignDown, OnTop;
    Heights(b);
    PagePow2();
    AlignDownIs(z.addr, PAGE_BITS);
    OnTopAt(b.zs, z, |b.zs| - 1);
    FoundFrom(b, z, 0);
  }

  lemma {:induction false} FoundFrom(b: Books, z: Zone, i: nat)
    requires b.Good() && i < |b.zs| && z.addr == High(b.zs) && z.kind == Valloc && |OnTop(b.zs, z)| == |b.zs| + 1
    ensures Match(OnTop(b.zs, z), z.addr, i) == Some(|b.zs| - 1)
    decreases |b.zs| - i
  {
    hide Books.Good, OnTop;
    OnTopAt(b.zs, z, i);
    if i < |b.zs| - 1 {
      if b.zs[i].kind == Valloc { OtherKey(b, z, i); }
      FoundFrom(b, z, i + 1);
    }
  }

  lemma GoodNow(a: PAllocator)
    requires a.Valid()
    ensures a.Abs().Good() && Coalesced(a.free)
  {
    hide State.Good, Coalesced;
  }

  lemma FreshUndone(bs: seq<Block>, was: set<Block>, live: set<Block>)
    requires Fresh(bs, was, live)
    ensures live - (set c | c in bs) == was
  {
  }

  lemma RoundedPages(b: Books, i: nat, n: nat)
    requires b.Good() && i < |b.zs| && b.zs[i].kind == Valloc && 0 < n <= 0x4000_0000 &&
      b.zs[i].len == AlignUp(n, PAGE_SIZE)
    ensures b.zs[i].addr in b.backing && Pages(b.backing[b.zs[i].addr].zones) == PageCount(n)
  {
    hide Books.Good, AlignUp, Pages;
    NotKernel(b, i);
    WholeLength(n);
    RoundedIs(n);
    TotalPages(b.backing[b.zs[i].addr].zones);
  }

  lemma RoundedIs(n: nat)
    requires 0 < n <= 0x4000_0000
    ensures AlignUp(n, PAGE_SIZE) == PAGE_SIZE * PageCount(n)
  {
    hide AlignUp;
    PagePow2();
    AlignUpIs(n, PAGE_BITS);
  }

  /** Below the kernel's zone there are allocations at these addresses. */
  predicate Starts(zs: seq<Zone>, ats: seq<nat>) {
    && |zs| == |ats| + 1 && zs[|ats|] == KERNEL_ZONE
    && forall i :: 0 <= i < |ats| ==> zs[i].addr == ats[i] && zs[i].kind == Valloc
  }

  /** With two allocations, the second just made, freeing the second unmaps it but takes the first
      off the list, so that a listed allocation has no page left; freeing the first does nothing. */
  method FreeOfTwo(s: AddrSpace, x: nat, y: nat, second: bool)
    requires s.Valid() && Raised(s.list.list) && Starts(s.list.list.nodes, [x, y]) && x < WORD && y < WORD
    modifies s, s.list, s.a`lists, s.a`header, s.a`free, s.a`live, s.a`freed, s.a.meta
    modifies s.m`mem, s.m`pool, s.m`at, s.m`view
    ensures second ==> !s.Valid() && Starts(s.list.list.nodes, [y]) && y in old(s.backing)
    ensures second ==> forall v :: PageOf(y) <= v < PageOf(y) + Pages(old(s.backing)[y].zones) ==> v !in s.m.view
    ensures !second ==> s.Valid() && s.Abs() == old(s.Abs())
  {
    hide PAllocator.Valid, PAllocator.Narrow, Space.Good, PageMap.Valid, NoEmptyTable, Books.Good, AlignDown, PageOf,
      Pages, Unmapped, Match, LoseAs, Freed;
    ghost var b := s.Abs();
    TwoZones(b, x, y);
    s.Free(if second then y else x);
    StruckSecond(b, s.Abs(), if second then y else x);
  }

  /** Such a space is two allocations away from a new one. */
  method TwiceThenFree(s: AddrSpace, n: nat, k: nat, flags: bv64, node: nat, second: bool) returns (x: nat, y: nat)
    requires s.Valid() && s.list.list == Listed([KERNEL_ZONE], None, 0) && node < WORD
    requires 0 < n <= 0x4000_0000 && 0 < k <= 0x4000_0000
    modifies s, s.list, s.a`lists, s.a`header, s.a`free, s.a`live, s.a`freeSpace, s.a`freed, s.a.meta
    modifies s.m`mem, s.m`pool, s.m`at, s.m`view
    ensures x != 0 && y != 0 && second ==> !s.Valid() && Starts(s.list.list.nodes, [y])
    ensures x != 0 && y != 0 && !second ==> s.Valid() && Starts(s.list.list.nodes, [x, y])
  {
    hide PAllocator.Valid, PAllocator.Narrow, Space.Good, PageMap.Valid, NoEmptyTable, Books.Good, AlignUp, PageOf,
      MappedZones, Fresh, SameOn, Match, LoseAs, Freed;
    WholeLength(n);
    WholeLength(k);
    y := 0;
    x := s.Alloc(n, flags, node);
    if x == 0 {
      return;
    }
    y := s.Alloc(k, flags, node);
    if y == 0 {
      return;
    }
    FreeOfTwo(s, x, y, second);
  }

  lemma TwoZones(b: Books, x: nat, y: nat)
    requires b.Good() && Starts(b.zs, [x, y]) && x < WORD && y < WORD
    ensures Match(b.zs, x, 0) == Some(0) && Match(b.zs, y, 0) == Some(1)
    ensures AlignDown(x, PAGE_SIZE) == x && AlignDown(y, PAGE_SIZE) == y
  {
    NotKernel(b, 0);
    NotKernel(b, 1);
    OnlyOne(b, 0, 1);
    hide Books.Good, AlignDown;
    PagePow2();
    AlignDownIs(x, PAGE_BITS);
    AlignDownIs(y, PAGE_BITS);
  }

  lemma StruckSecond(b: Books, c: Books, at: nat)
    requires b.Good() && |b.zs| == 3 && Struck(b, c, true, at)
    ensures Match(b.zs, at, 0) == Some(0) ==> c == b
    ensures Match(b.zs, at, 0) == Some(1) ==> c.zs == b.zs[1..] && at in b.backing
    ensures Match(b.zs, at, 0) == Some(1) ==>
      forall v :: PageOf(at) <= v < PageOf(at) + Pages(b.backing[at].zones) ==> v !in c.view
  {
    hide Books.Good, Match, Unmapped, Pages, PageOf;
    AimIs(b, at);
    if Match(b.zs, at, 0) == Some(1) {
      forall v | PageOf(at) <= v < PageOf(at) + Pages(b.backing[at].zones) ensures v !in c.view {
        UnmappedAt(b.view, PageOf(at), Pages(b.backing[at].zones), v);
      }
    }
  }

  // ---------------------------------------------------------------- the counter in alloc's guard

  /** The guard turns a request away although n bytes are free exactly while the bytes given back
      so far exceed the free bytes less n; once they exceed the free bytes themselves the counter
      has wrapped, and the guard lets nearly everything through. */
  lemma GuardIs(a: PAllocator, n: nat)
    requires a.Valid() && 0 < n <= Bytes(a.free)
    ensures a.freed <= Bytes(a.free) ==> (n > a.freeSpace <==> a.freed > Bytes(a.free) - n)
    ensures Bytes(a.free) < a.freed < Bytes(a.free) + WORD ==> (n > a.freeSpace <==> a.freed > Bytes(a.free) + WORD - n)
  {
    hide State.Good, Coalesced, Bytes;
    FreeFacts(a);
  }

  /** Once a request has been turned away, requests of that size and larger ones are turned away
      for good, however much is freed in between, up to the first request for which the list is
      misread. */
  method RefusedForGood(s: AddrSpace, n: nat, rs: seq<Request>) returns (outs: seq<nat>)
    requires s.Valid() && n > s.a.freeSpace && forall i :: 0 <= i < |rs| && rs[i].Allocate? ==> n <= rs[i].n
    modifies s, s.list, s.a`lists, s.a`header, s.a`free, s.a`live, s.a`freeSpace, s.a`freed, s.a.meta
    modifies s.m`mem, s.m`pool, s.m`at, s.m`view
    ensures s.Valid() && |outs| <= |rs| && forall i :: 0 <= i < |outs| ==> outs[i] == 0
    ensures |outs| < |rs| ==> s.Blind(rs[|outs|])
    ensures s.a.freeSpace == old(s.a.freeSpace) && s.a.live <= old(s.a.live)
  {
    hide PAllocator.Valid, PAllocator.Narrow, Space.Good, PageMap.Valid, NoEmptyTable, Books.Good, AlignUp, AlignDown,
      PageOf, MappedZones, Fresh, SameOn, OnTop, Dropped, Struck, Skewed, CursorAfter, Raised;
    outs := [];
    while |outs| < |rs| && !s.Blind(rs[|outs|])
      invariant s.Valid() && s.a.freeSpace == old(s.a.freeSpace) && s.a.live <= old(s.a.live)
      invariant |outs| <= |rs| && forall k :: 0 <= k < |outs| ==> outs[k] == 0
      decreases |rs| - |outs|
    {
      match rs[|outs|]
      case Allocate(m, flags, node) =>
        var out := s.Alloc(m, flags, node);
        outs := outs + [out];
      case Release(mem) =>
        s.Free(mem);
        outs := outs + [0];
    }
  }
}
