/** The list of virtual zones of an address space: inserting at an address, finding room. */
module Zones {
  import opened Bits
  import opened LinkedList

  const MAX_MEM: nat := 0x1_0000_0000_0000
  /** MAX_MEM - kernel_vma, a difference below zero taken modulo 2^64. */
  const KERNEL_LEN: nat := 0x1_0080_0000_0000

  type Word = x: nat | x < WORD

  datatype AllocType = Valloc | Map | Reserve | Kernel

  datatype Zone = Zone(addr: Word, len: Word, kind: AllocType) {
    /** virt_addr + len, modulo 2^64: for the kernel zone this is MAX_MEM, below its start. */
    function End(): Word { (addr + len) % WORD }

    predicate Holds(x: nat) { addr <= x < End() }
  }

  const KERNEL_ZONE := Zone(KERNEL_BASE, KERNEL_LEN, Kernel)

  /** Sorted, disjoint, not empty, with the kernel zone last. */
  ghost predicate Ordered(s: seq<Zone>) {
    && s != [] && s[|s| - 1] == KERNEL_ZONE
    && forall i :: 0 <= i < |s| - 1 ==> s[i].kind != Kernel && 0 < s[i].len && s[i].addr + s[i].len <= s[i + 1].addr
  }

  lemma {:induction false} Apart(s: seq<Zone>, i: nat, j: nat)
    requires Ordered(s) && i < j < |s|
    ensures s[i].addr + s[i].len <= s[j].addr && s[i].addr < s[j].addr <= KERNEL_BASE &&
      0 < s[i].End() == s[i].addr + s[i].len
    decreases |s| - i
  {
    if i + 1 < |s| - 1 { Apart(s, i + 1, if j == i + 1 then |s| - 1 else j); }
  }

  // ---------------------------------------------------------------- as the code walks the list

  /** insert_virt_zone from index i on: the index to insert at, if any. */
  function Place(s: seq<Zone>, z: Zone, i: nat): Option<nat>
    requires i <= |s|
    decreases |s| - i
  {
    if i == |s| then
      if (s == [] || z.addr >= s[|s| - 1].End()) && z.End() <= MAX_MEM then Some(|s|) else None
    else if s[i].Holds(z.addr) then None
    else if (i == 0 || z.addr >= s[i - 1].End()) && z.End() < s[i].addr then Some(i)
    else Place(s, z, i + 1)
  }

  /** get_free_space from index i on. */
  function FreeFrom(s: seq<Zone>, x: nat, i: nat): nat
    requires i <= |s| && x < WORD
    decreases |s| - i
  {
    if i == |s| then
      if s == [] || x >= s[|s| - 1].End() then Sub(MAX_MEM, x) else 0
    else if s[i].Holds(x) then 0
    else if (i == 0 || x >= s[i - 1].End()) && x < s[i].addr then s[i].addr - x
    else FreeFrom(s, x, i + 1)
  }

  /** The highest gap between zones 0..i + 1 with room for len bytes. */
  function GapBelow(s: seq<Zone>, len: nat, i: int): (r: Option<nat>)
    requires -1 <= i < |s| - 1
    ensures r.Some? ==> r.value <= i
    decreases i + 1
  {
    if i < 0 then None
    else if Sub(s[i + 1].addr, s[i].End()) >= len then Some(i)
    else GapBelow(s, len, i - 1)
  }

  /** It is the highest one, and none is wide enough when there is none. */
  lemma {:induction false} GapIs(s: seq<Zone>, len: nat, i: int, j: nat)
    requires -1 <= i < |s| - 1
    ensures var r := GapBelow(s, len, i);
      && (r.Some? ==> Sub(s[r.value + 1].addr, s[r.value].End()) >= len)
      && ((if r.Some? then r.value else -1) < j <= i ==> Sub(s[j + 1].addr, s[j].End()) < len)
    decreases i + 1
  {
    if i >= 0 && Sub(s[i + 1].addr, s[i].End()) < len { GapIs(s, len, i - 1, j); }
  }

  /** The address find_address comes up with. */
  function Found(s: seq<Zone>, len: nat, bound: nat): nat
    requires s != [] && bound < WORD
  {
    if |s| == 1 then if KERNEL_BASE - PAGE_SIZE >= len then PAGE_SIZE else 0
    else match GapBelow(s, len, |s| - 2)
      case Some(i) => s[i].End()
      case None => if Sub(bound, PAGE_SIZE) >= len then PAGE_SIZE else 0
  }

  function WithFound(s: seq<Zone>, z: Zone): seq<Zone>
    requires s != []
  {
    match if |s| == 1 then None else GapBelow(s, z.len, |s| - 2)
    case Some(i) => s[..i + 1] + [z] + s[i + 1..]
    case None => [z] + s
  }

  /** Where find_address leaves the cursor: the position it is on and the index it claims. */
  function FoundCursor(s: seq<Zone>, len: nat, addr: nat): (nat, nat)
    requires s != []
  {
    match if |s| == 1 then None else GapBelow(s, len, |s| - 2)
    case Some(i) => (i + 2, i + 1)
    case None => if addr == 0 then (0, 0) else (1, 1)
  }

  /** virt_allocs: the list with its cursor. */
  class VirtZones {
    var list: Listed<Zone>

    constructor ()
      ensures list == Listed([KERNEL_ZONE], None, 0) && list.Right() && Ordered(list.nodes)
    {
      list := Listed([KERNEL_ZONE], None, 0);
    }

    /** operator[]: what lies at the position the lookup comes to. */
    method Get(k: nat) returns (z: Zone)
      requires k < |list.nodes| && 0 <= list.Lands(k) < |list.nodes|
      modifies this
      ensures z == old(list).nodes[old(list).Lands(k)] && list == old(list).Looked(k)
    {
      z := list.nodes[list.Lands(k)];
      list := list.Looked(k);
    }

    /** A lookup with a right cursor. */
    method Read(k: nat) returns (z: Zone)
      requires list.Right() && k < |list.nodes|
      modifies this
      ensures z == old(list).nodes[k] && list == Listed(old(list).nodes, Some(k), k)
    {
      RightLands(list, k);
      z := Get(k);
    }

    method GetFreeSpace(x: nat) returns (r: nat)
      requires x < WORD && list.Right()
      modifies this
      ensures r == FreeFrom(old(list).nodes, x, 0) && list.nodes == old(list).nodes && list.Right()
    {
      ghost var s := list.nodes;
      var last, current: Option<Zone> := None, None;
      var i := 0;
      while i < |list.nodes|
        invariant list.nodes == s && list.Right()
        invariant 0 <= i <= |s| && FreeFrom(s, x, i) == FreeFrom(s, x, 0)
        invariant current == if i == 0 then None else Some(s[i - 1])
      {
        last := current;
        var z := Read(i);
        current := Some(z);
        if z.Holds(x) {
          return 0;
        }
        if (last == None || x >= last.value.End()) && x < z.addr {
          return z.addr - x;
        }
        i := i + 1;
      }
      return if current == None || x >= current.value.End() then Sub(MAX_MEM, x) else 0;
    }

    /** insert_virt_zone through the list's own insert, from a right cursor. In second place insert
        would follow the first node's left-over pointer. */
    method InsertVirtZone(z: Zone) returns (ok: bool)
      requires list.Right() && (Place(list.nodes, z, 0) == Some(1) ==> |list.nodes| == 1)
      modifies this
      ensures ok <==> Place(old(list).nodes, z, 0).Some?
      ensures ok ==>
        var s := old(list).nodes;
        var i := Place(s, z, 0).value;
        var j := if 0 < i < |s| then InsertAt(|s|, Some(i), i) else i;
        0 <= j <= |s| && list.nodes == s[..j] + [z] + s[j..]
      ensures !ok ==> list.nodes == old(list).nodes && list.Right()
    {
      ghost var s := list.nodes;
      var last, current: Option<Zone> := None, None;
      var i := 0;
      while i < |list.nodes|
        invariant list.nodes == s && list.Right()
        invariant 0 <= i <= |s| && Place(s, z, i) == Place(s, z, 0)
        invariant current == if i == 0 then None else Some(s[i - 1])
      {
        last := current;
        var c := Read(i);
        current := Some(c);
        if c.Holds(z.addr) {
          return false;
        }
        if (last == None || z.addr >= last.value.End()) && z.End() < c.addr {
          if i > 0 { InsertAfterLookup(|s|, i); }
          list := list.Inserted(i, z);
          return true;
        }
        i := i + 1;
      }
      if (current == None || z.addr >= current.value.End()) && z.End() <= MAX_MEM {
        list := list.Appended(z);
        return true;
      }
      return false;
    }

    /** remove. */
    method Remove(k: nat)
      requires k < |list.nodes| && 0 <= list.Victim(k) < |list.nodes|
      modifies this
      ensures list == old(list).Removed(k)
    {
      list := list.Removed(k);
    }

    /** remove_p of the zone at position j. */
    method RemoveP(j: nat)
      requires j < |list.nodes|
      modifies this
      ensures list == old(list).Unlinked(j)
    {
      list := list.Unlinked(j);
    }

    /** find_address, on any list whose last zone its first lookup reads. bound is what the last
        comparison uses: as written the address of the first zone's object, as meant its
        virt_addr. */
    method FindAddress(len: nat, kind: AllocType, bound: nat) returns (addr: nat)
      requires Ordered(list.nodes) && kind != Kernel && len < WORD && bound < WORD
      requires list.Lands(|list.nodes| - 1) == |list.nodes| - 1
      modifies this
      ensures old(list).nodes != [] && addr == Found(old(list).nodes, len, bound)
      ensures addr == 0 ==> list.nodes == old(list).nodes
      ensures addr != 0 ==> list.nodes == WithFound(old(list).nodes, Zone(addr, len, kind))
      ensures var c := FoundCursor(old(list).nodes, len, addr); list.pos == Some(c.0) && list.index == c.1
    {
      assert list.nodes != [];
      hide Sub, Ordered, Zone.End;
      addr := 0;
      var i := |list.nodes|;
      var current := Get(i - 1);
      if i == 1 {
        if (KERNEL_BASE - PAGE_SIZE) >= len {
          addr := PAGE_SIZE;
          list := list.Prepended(Zone(addr, len, kind));
        }
        return;
      }
      addr := InsertInGap(len, kind, current);
      if addr == 0 && Sub(bound, PAGE_SIZE) >= len {
        addr := PAGE_SIZE;
        list := list.Prepended(Zone(addr, len, kind));
      }
    }

    /** The loop of find_address. */
    method InsertInGap(len: nat, kind: AllocType, top: Zone) returns (addr: nat)
      requires Ordered(list.nodes) && |list.nodes| > 1 && len < WORD && list.Right() &&
        top == list.nodes[|list.nodes| - 1]
      modifies this
      ensures match GapBelow(old(list).nodes, len, |old(list).nodes| - 2)
        case Some(i) =>
          var s := old(list).nodes;
          addr == s[i].End() != 0 && list == Listed(s[..i + 1] + [Zone(addr, len, kind)] + s[i + 1..], Some(i + 2),
            i + 1)
        case None => addr == 0 && list == Listed(old(list).nodes, Some(0), 0)
    {
      hide Sub, Ordered, Zone.End;
      ghost var s := list.nodes;
      addr := 0;
      var current := top;
      var i := |list.nodes| - 2;
      while i >= 0
        invariant -1 <= i < |s| - 1 && list.nodes == s && list.Right() && current == s[i + 1]
        invariant i < |s| - 2 ==> list == Listed(s, Some(i + 1), i + 1)
        invariant GapBelow(s, len, i) == GapBelow(s, len, |s| - 2)
      {
        Apart(s, i, i + 1);
        var last := current;
        current := Read(i);
        if Sub(last.addr, current.End()) >= len {
          addr := current.End();
          FindInserts(|s|, i);
          list := list.Inserted(i + 1, Zone(addr, len, kind));
          return;
        }
        i := i - 1;
      }
    }
  }

  // ---------------------------------------------------------------- what a scan of the list reads

  /** The cursor is on the last zone and claims to be one before it. */
  predicate Raised(l: Listed<Zone>) {
    |l.nodes| >= 3 && l.pos == Some(|l.nodes| - 1) && l.index == |l.nodes| - 2
  }

  /** The cursor is on the only zone and claims to be after it. */
  predicate Stale(l: Listed<Zone>) {
    |l.nodes| == 1 && l.pos == Some(0) && l.index == 1
  }

  /** A lookup would follow the left-over pointer of the first node. */
  lemma StaleReads(l: Listed<Zone>)
    requires Stale(l)
    ensures l.Lands(0) == -1
  {
  }

  /** A scan that starts from such a cursor reads one place ahead. */
  predicate Skewed(l: Listed<Zone>) {
    Raised(l) && |l.nodes| <= 4
  }

  /** What index i is about to read in a scan of n zones. */
  function ReadAt(n: nat, i: nat, skew: bool): nat
    requires i < n
  {
    if skew then Min(i + 1, n - 1) else i
  }

  /** The cursor before the scan reads index i. */
  predicate Scanning(l: Listed<Zone>, i: nat, skew: bool) {
    var n := |l.nodes|;
    && 0 < n && i <= n
    && if i == 0 then (l.Right() || Raised(l)) && (skew <==> Skewed(l))
       else if skew then l.pos == Some(Min(i, n - 1)) && l.index == i - 1
       else l.Right()
  }

  lemma ScanStarts(l: Listed<Zone>)
    requires l.nodes != [] && (l.Right() || Raised(l))
    ensures Scanning(l, 0, Skewed(l)) && (Skewed(l) ==> |l.nodes| <= 4)
  {
  }

  lemma ScanStep(l: Listed<Zone>, i: nat, skew: bool)
    requires Scanning(l, i, skew) && i < |l.nodes|
    ensures l.Lands(i) == ReadAt(|l.nodes|, i, skew) < |l.nodes|
    ensures Scanning(l.Looked(i), i + 1, skew)
  {
  }

  lemma ScanEnds(l: Listed<Zone>, skew: bool)
    requires Scanning(l, |l.nodes|, skew)
    ensures l.Right()
  {
  }

  /** Removing the zone just read, by its index: in a scan that reads ahead, the first index takes
      out the zone before the one that was read. */
  lemma ScanRemoves(l: Listed<Zone>, i: nat, skew: bool)
    requires Scanning(l, i, skew) && i < |l.nodes| && ReadAt(|l.nodes|, i, skew) < |l.nodes| - 1
    requires skew ==> |l.nodes| <= 4
    ensures 0 <= l.Lands(i) && l.Looked(i).nodes == l.nodes
    ensures var v := l.Looked(i).Victim(i);
      v == (if skew && i == 0 then 0 else ReadAt(|l.nodes|, i, skew))
      && Scanning(l.Looked(i).Removed(i), i + 1, skew && i > 0) && i + 1 < |l.nodes|
  {
  }

  // ---------------------------------------------------------------- what the walks find

  /** No byte of the m from x on lies in a zone. */
  ghost predicate Vacant(s: seq<Zone>, x: nat, m: nat) {
    forall i :: 0 <= i < |s| ==> x + m <= s[i].addr || s[i].addr + s[i].len <= x
  }

  /** get_free_space is the longest vacant stretch from x. */
  lemma FreeSpaceIs(s: seq<Zone>, x: nat, m: nat)
    requires Ordered(s) && x < KERNEL_BASE && m > 0
    ensures m <= FreeFrom(s, x, 0) <==> Vacant(s, x, m)
  {
    FreeFromIs(s, x, 0, m);
  }

  lemma {:induction false} FreeFromIs(s: seq<Zone>, x: nat, i: nat, m: nat)
    requires Ordered(s) && x < KERNEL_BASE && m > 0 && i < |s| && forall j :: 0 <= j < i ==> s[j].addr + s[j].len <= x
    ensures m <= FreeFrom(s, x, i) <==> Vacant(s, x, m)
    decreases |s| - i
  {
    if i > 0 { Apart(s, i - 1, i); }
    if i < |s| - 1 {
      Apart(s, i, i + 1);
      forall j | i < j < |s| ensures s[i].addr + s[i].len <= s[j].addr { Apart(s, i, j); }
      if s[i].addr + s[i].len <= x { FreeFromIs(s, x, i + 1, m); }
    }
  }

  /** insert_virt_zone accepts a zone that does not run past the end of the address space
      exactly when more than its length is free: a zone that just fits is turned away. */
  lemma InsertAccepts(s: seq<Zone>, z: Zone)
    requires Ordered(s) && z.addr < KERNEL_BASE && 0 < z.len && z.addr + z.len < WORD
    ensures Place(s, z, 0).Some? <==> FreeFrom(s, z.addr, 0) > z.len
  {
    PlaceIs(s, z, 0);
  }

  lemma EndIs(z: Zone)
    ensures z.End() == if z.addr + z.len < WORD then z.addr + z.len else z.addr + z.len - WORD
  {
  }

  lemma LastIs(s: seq<Zone>)
    requires Ordered(s)
    ensures s != [] && s[|s| - 1] == KERNEL_ZONE
  {
  }

  lemma {:induction false} PlaceIs(s: seq<Zone>, z: Zone, i: nat)
    requires Ordered(s) && z.addr < KERNEL_BASE && 0 < z.len && z.addr + z.len < WORD
    requires i < |s| && forall j :: 0 <= j < i ==> s[j].addr + s[j].len <= z.addr
    ensures Place(s, z, i).Some? <==> FreeFrom(s, z.addr, i) > z.len
    ensures Place(s, z, i).Some? ==> var k := Place(s, z, i).value;
      i <= k < |s| && z.addr + z.len < s[k].addr && (k > 0 ==> s[k - 1].addr + s[k - 1].len <= z.addr)
    decreases |s| - i
  {
    hide Zone.End, Sub, Ordered;
    LastIs(s);
    EndIs(z);
    EndIs(s[i]);
    if i > 0 { Apart(s, i - 1, i); }
    if i < |s| - 1 {
      Apart(s, i, i + 1);
      if s[i].addr + s[i].len <= z.addr {
        PlaceIs(s, z, i + 1);
      } else if s[i].addr > z.addr {
        RefusedAfter(s, z, i + 1);
      }
    } else {
      RefusedAfter(s, z, i + 1);
    }
  }

  /** Past the zone that follows it, an address is refused. */
  lemma {:induction false} RefusedAfter(s: seq<Zone>, z: Zone, i: nat)
    requires Ordered(s) && z.addr < KERNEL_BASE && 0 < z.len && z.addr + z.len < WORD
    requires 0 < i <= |s| && z.addr < s[i - 1].addr
    ensures Place(s, z, i) == None
    decreases |s| - i
  {
    hide Zone.End;
    EndIs(z);
    EndIs(s[i - 1]);
    EndIs(KERNEL_ZONE);
    if i < |s| {
      Apart(s, i - 1, i);
      RefusedAfter(s, z, i + 1);
    }
  }

  /** On a vacant address the two agree only because the sum does not wrap: a length that
      carries it past 2^64 is always accepted, although nothing that long is free. */
  lemma AcceptsExactly(s: seq<Zone>, z: Zone)
    requires Ordered(s) && z.addr < KERNEL_BASE && 0 < z.len && FreeFrom(s, z.addr, 0) > 0
    ensures (Place(s, z, 0).Some? <==> FreeFrom(s, z.addr, 0) > z.len) <==> z.addr + z.len < WORD
  {
    FreeSpaceIs(s, z.addr, 1);
    if z.addr + z.len < WORD {
      InsertAccepts(s, z);
    } else {
      FreeSpaceIs(s, z.addr, z.len);
      assert !Vacant(s, z.addr, z.len) by { assert s[|s| - 1] == KERNEL_ZONE; }
      WrappedAccepted(s, z, 0);
    }
  }

  lemma {:induction false} WrappedAccepted(s: seq<Zone>, z: Zone, i: nat)
    requires Ordered(s) && z.addr < KERNEL_BASE && z.addr + z.len >= WORD && Vacant(s, z.addr, 1)
    requires i < |s| && forall j :: 0 <= j < i ==> s[j].addr + s[j].len <= z.addr
    ensures Place(s, z, i).Some?
    decreases |s| - i
  {
    assert z.End() < z.addr;
    if i > 0 { Apart(s, i - 1, i); }
    if i < |s| - 1 {
      Apart(s, i, i + 1);
      if s[i].addr <= z.addr { WrappedAccepted(s, z, i + 1); }
    }
  }

  /** Where the zone is accepted, the list stays sorted and disjoint. */
  lemma InsertKeepsOrder(s: seq<Zone>, z: Zone)
    requires Ordered(s) && z.addr < KERNEL_BASE && 0 < z.len && z.addr + z.len < WORD && z.kind != Kernel
    requires Place(s, z, 0).Some?
    ensures var i := Place(s, z, 0).value; i < |s| && Ordered(s[..i] + [z] + s[i..])
  {
    hide Place, FreeFrom;
    PlaceIs(s, z, 0);
    Between(s, z, Place(s, z, 0).value);
  }

  lemma Between(s: seq<Zone>, z: Zone, i: nat)
    requires Ordered(s) && i < |s| && 0 < z.len && z.kind != Kernel
    requires z.addr + z.len <= s[i].addr && (i > 0 ==> s[i - 1].addr + s[i - 1].len <= z.addr)
    ensures Ordered(s[..i] + [z] + s[i..])
  {
    var l := s[..i] + [z] + s[i..];
    assert |l| == |s| + 1 && l[|l| - 1] == s[|s| - 1];
    forall j | 0 <= j < |l| - 1 ensures l[j].kind != Kernel && 0 < l[j].len && l[j].addr + l[j].len <= l[j + 1].addr {
      assert l[j] == (if j < i then s[j] else if j == i then z else s[j - 1]);
      assert l[j + 1] == (if j + 1 < i then s[j + 1] else if j + 1 == i then z else s[j]);
    }
  }

  /** The list's own insert, called right after a lookup of the same index, puts the zone one
      place too early unless that index is 0: the order is kept exactly when the zone ends
      before the first one starts. */
  lemma InsertAsWritten(s: seq<Zone>, z: Zone)
    requires Ordered(s) && z.addr < KERNEL_BASE && 0 < z.len && z.addr + z.len < WORD && z.kind != Kernel
    requires Place(s, z, 0).Some?
    ensures var i := Place(s, z, 0).value;
      var j := if 0 < i < |s| then InsertAt(|s|, Some(i), i) else i;
      0 <= j <= |s| && (Ordered(s[..j] + [z] + s[j..]) <==> z.addr + z.len < s[0].addr)
  {
    PlaceIs(s, z, 0);
    InsertKeepsOrder(s, z);
    hide Place, Zone.End;
    var i := Place(s, z, 0).value;
    if i > 0 {
      InsertAfterLookup(|s|, i);
      var l := s[..i - 1] + [z] + s[i - 1..];
      assert l[i - 1] == z && l[i] == s[i - 1];
      Apart(s, 0, if i == 1 then |s| - 1 else i - 1);
    }
  }

  /** What find_address promises: an address with room at or above PAGE_SIZE, or 0 when there
      is no room anywhere. */
  ghost predicate FoundRight(s: seq<Zone>, len: nat, addr: nat) {
    if addr == 0 then forall x | PAGE_SIZE <= x < WORD :: !Vacant(s, x, len)
    else PAGE_SIZE <= addr && Vacant(s, addr, len)
  }

  /** No gap between zones has room, so room can only be below the first one. */
  lemma NoGap(s: seq<Zone>, len: nat, x: nat)
    requires Ordered(s) && 0 < len && GapBelow(s, len, |s| - 2) == None && Vacant(s, x, len) && x < WORD
    ensures x + len <= s[0].addr
  {
    BelowKernel(s, x, len);
    var i := Next(s, x, 0);
    if i > 0 {
      GapIs(s, len, |s| - 2, i - 1);
      Apart(s, i - 1, i);
    }
  }

  /** The first zone that starts after x. */
  lemma {:induction false} Next(s: seq<Zone>, x: nat, i: nat) returns (k: nat)
    requires Ordered(s) && i < |s| && (i > 0 ==> s[i - 1].addr <= x) && x < KERNEL_BASE
    ensures k < |s| && x < s[k].addr && (k > 0 ==> s[k - 1].addr <= x)
    decreases |s| - i
  {
    if x < s[i].addr { k := i; } else { k := Next(s, x, i + 1); }
  }

  lemma BelowKernel(s: seq<Zone>, x: nat, len: nat)
    requires Ordered(s) && Vacant(s, x, len) && 0 < len && x < WORD
    ensures x < KERNEL_BASE
  {
    assert s[|s| - 1] == KERNEL_ZONE;
  }

  lemma GapFits(s: seq<Zone>, z: Zone, i: nat)
    requires Ordered(s) && GapBelow(s, z.len, |s| - 2) == Some(i) && z.addr == s[i].End()
    ensures i + 1 < |s| && s[i].addr + s[i].len == z.addr && z.addr + z.len <= s[i + 1].addr
  {
    GapIs(s, z.len, |s| - 2, i);
    Apart(s, i, i + 1);
  }

  /** The gap taken has room for the new zone. */
  lemma GapRoom(s: seq<Zone>, z: Zone, i: nat)
    requires Ordered(s) && GapBelow(s, z.len, |s| - 2) == Some(i) && z.addr == s[i].End() && 0 < z.len &&
      z.kind != Kernel
    ensures i + 1 < |s| && PAGE_SIZE <= s[0].addr ==> PAGE_SIZE <= z.addr
    ensures i + 1 < |s| && Vacant(s, z.addr, z.len) && Ordered(s[..i + 1] + [z] + s[i + 1..])
  {
    GapFits(s, z, i);
    hide Sub, Zone.End, GapBelow;
    Between(s, z, i + 1);
    forall j | 0 <= j < |s| ensures z.addr + z.len <= s[j].addr || s[j].addr + s[j].len <= z.addr {
      if j < i { Apart(s, j, i); } else if j > i + 1 { Apart(s, i + 1, j); }
    }
    if i > 0 { Apart(s, 0, i); }
  }

  lemma FirstRoom(s: seq<Zone>, len: nat)
    requires Ordered(s) && PAGE_SIZE <= s[0].addr && 0 < len
    ensures Vacant(s, PAGE_SIZE, len) <==> len <= s[0].addr - PAGE_SIZE
  {
    forall j | 0 < j < |s| ensures s[0].addr < s[j].addr { Apart(s, 0, j); }
  }

  /** find_address as written keeps its promise exactly when a gap above some zone is found,
      only the kernel zone is there, or that last comparison comes out as it would
      with the first zone's virt_addr. */
  lemma FoundExactly(s: seq<Zone>, len: nat, bound: nat)
    requires Ordered(s) && PAGE_SIZE <= s[0].addr && 0 < len < WORD && bound < WORD
    ensures FoundRight(s, len, Found(s, len, bound)) <==>
      || |s| == 1 || GapBelow(s, len, |s| - 2).Some?
      || (len <= Sub(bound, PAGE_SIZE) <==> len <= s[0].addr - PAGE_SIZE)
  {
    hide Vacant, Sub;
    FirstRoom(s, len);
    match GapBelow(s, len, |s| - 2)
    case Some(i) =>
      GapRoom(s, Zone(s[i].End(), len, Valloc), i);
    case None =>
      forall x | PAGE_SIZE <= x < WORD && Vacant(s, x, len) ensures len <= s[0].addr - PAGE_SIZE { NoGap(s, len, x); }
  }

  lemma NoBorrow(a: Word, b: Word)
    requires b <= a
    ensures Sub(a, b) == a - b
  {
  }

  /** With that comparison repaired the promise is always kept, and so is the order of the list. */
  lemma FoundRepaired(s: seq<Zone>, z: Zone)
    requires Ordered(s) && PAGE_SIZE <= s[0].addr && 0 < z.len && z.kind != Kernel &&
      z.addr == Found(s, z.len, s[0].addr)
    ensures FoundRight(s, z.len, z.addr)
    ensures z.addr != 0 ==> Ordered(WithFound(s, z))
  {
    NoBorrow(s[0].addr, PAGE_SIZE);
    hide Vacant, Sub, FoundRight, Zone.End, Ordered;
    FoundExactly(s, z.len, s[0].addr);
    match GapBelow(s, z.len, |s| - 2)
    case Some(i) =>
      GapRoom(s, z, i);
    case None =>
      if z.addr != 0 { Lowest(s, z); }
  }

  lemma Lowest(s: seq<Zone>, z: Zone)
    requires Ordered(s) && PAGE_SIZE <= s[0].addr && 0 < z.len && z.kind != Kernel &&
      z.addr == Found(s, z.len, s[0].addr) != 0
    requires GapBelow(s, z.len, |s| - 2) == None
    ensures Ordered([z] + s)
  {
    NoBorrow(s[0].addr, PAGE_SIZE);
    hide Sub, Zone.End;
    assert z.addr + z.len <= s[0].addr;
    hide Found, GapBelow;
    Front(s, z);
  }

  lemma Front(s: seq<Zone>, z: Zone)
    requires Ordered(s) && 0 < z.len && z.kind != Kernel && z.addr + z.len <= s[0].addr
    ensures Ordered([z] + s)
  {
    var l := [z] + s;
    assert forall j :: 0 <= j < |s| ==> l[j + 1] == s[j];
  }

  /** As written, a zone put below the first one overlaps it when the pointer was large and
      the room small. */
  lemma FoundOverlaps(s: seq<Zone>, z: Zone, bound: nat)
    requires Ordered(s) && |s| > 1 && PAGE_SIZE <= s[0].addr && 0 < z.len && bound < WORD && z.kind != Kernel
    requires GapBelow(s, z.len, |s| - 2) == None && z.len <= Sub(bound, PAGE_SIZE) && z.len > s[0].addr - PAGE_SIZE
    requires z.addr == Found(s, z.len, bound)
    ensures z.addr == PAGE_SIZE && !Ordered(WithFound(s, z))
  {
    hide Sub;
    assert WithFound(s, z)[0] == z && WithFound(s, z)[1] == s[0];
  }

  /** find_address inserts after a lookup one place before, which lands where it should; but
      it leaves the cursor one off, and a scan that then starts at index 0 reads zone 1
      first when the new zone is at place 1 or 2. */
  lemma FindInserts(n: nat, i: nat)
    requires i + 1 < n
    ensures InsertAt(n, Some(i), i + 1) == i + 1
    ensures Cursor(n + 1, Some(i + 2), i + 1).Landing(n + 1, 0) == if i + 1 > 2 then 0 else 1
  {
  }
}
