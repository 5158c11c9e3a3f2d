/** A page-table entry as the 64-bit word the hardware reads. The bits it ignores hold,
    in entry 0 of every table, the number of present entries of that table. */
module PageEntry {
  const PAGE_DATA_POS: bv64 := 0xf80ffffffffff1ff
  const PAGE_ADDR_POS: bv64 := 0x0000fffffffff000
  const PAGE_FLAGS_POS: bv64 := 0x80000000000001fe
  const V_PRESENT: bv64 := 1

  function GetBits(n: bv64, l: bv64, h: bv64): bv64
    requires l <= h < 64
  {
    var temp := if h == 63 then 0xffff_ffff_ffff_ffff else ((1 as bv64) << (h as bv8 + 1)) - 1;
    (temp & n) >> (l as bv8)
  }

  function CounterBits(c: bv64): bv64 {
    (GetBits(c, 52, 58) << 3) | GetBits(c, 9, 11)
  }

  function PageCounterAdd(c: bv64, n: bv64): bv64 {
    var temp := CounterBits(c) + n;
    (GetBits(temp, 3, 9) << 52) | (GetBits(temp, 0, 2) << 9) | (c & PAGE_DATA_POS)
  }

  /** The entry stored by page_set at index i. */
  function PageSet(prev: bv64, i: nat, n: bv64, flags: bv64): bv64 {
    if i == 0
    then (n & PAGE_ADDR_POS) | (flags & PAGE_FLAGS_POS) | (prev & !PAGE_DATA_POS) | V_PRESENT
    else (n & PAGE_ADDR_POS) | (flags & PAGE_FLAGS_POS) | V_PRESENT
  }

  function PageUnset(prev: bv64, i: nat): bv64 {
    if i == 0 then (prev & !PAGE_DATA_POS) & !V_PRESENT else 0
  }

  // What the hardware and the kernel read back.

  predicate Present(e: bv64) { e & V_PRESENT != 0 }

  function Addr(e: bv64): bv64 { e & PAGE_ADDR_POS }

  function Flags(e: bv64): bv64 { e & PAGE_FLAGS_POS }

  function Count(e: bv64): nat { CounterBits(e) as nat }

  /** The counter is ten bits of the word and adding to it touches nothing else. */
  lemma CounterAddBits(c: bv64, n: bv64)
    ensures CounterBits(PageCounterAdd(c, n)) == (CounterBits(c) + n) & 1023
    ensures PageCounterAdd(c, n) & PAGE_DATA_POS == c & PAGE_DATA_POS
  {
  }

  lemma ReadData(e: bv64)
    ensures e & V_PRESENT == (e & PAGE_DATA_POS) & V_PRESENT
    ensures e & PAGE_ADDR_POS == (e & PAGE_DATA_POS) & PAGE_ADDR_POS
    ensures e & PAGE_FLAGS_POS == (e & PAGE_DATA_POS) & PAGE_FLAGS_POS
  {
  }

  lemma DataBits(a: bv64, b: bv64)
    requires a & PAGE_DATA_POS == b & PAGE_DATA_POS
    ensures Present(a) == Present(b) && Addr(a) == Addr(b) && Flags(a) == Flags(b)
  {
    ReadData(a);
    ReadData(b);
  }

  lemma SmallCount(x: bv64)
    requires x <= 512
    ensures x as nat <= 512 && (x == 0 <==> x as nat == 0)
    ensures x < 512 ==> ((x + 1) & 1023) as nat == x as nat + 1
    ensures x > 0 ==> ((x - 1) & 1023) as nat == x as nat - 1
  {
  }

  lemma SmallNat(x: bv64)
    requires x as nat <= 512
    ensures x <= 512
  {
  }

  lemma CounterUp(c: bv64)
    requires Count(c) < 512
    ensures Count(PageCounterAdd(c, 1)) == Count(c) + 1
    ensures Present(PageCounterAdd(c, 1)) == Present(c) && Addr(PageCounterAdd(c, 1)) == Addr(c) &&
      Flags(PageCounterAdd(c, 1)) == Flags(c)
  {
    CounterAddBits(c, 1);
    DataBits(PageCounterAdd(c, 1), c);
    hide PageCounterAdd, CounterBits, Present, Addr, Flags;
    SmallNat(CounterBits(c));
    SmallCount(CounterBits(c));
  }

  lemma CounterDown(c: bv64)
    requires 0 < Count(c) <= 512
    ensures Count(PageCounterAdd(c, 0xffff_ffff_ffff_ffff)) == Count(c) - 1
    ensures Present(PageCounterAdd(c, 0xffff_ffff_ffff_ffff)) == Present(c)
    ensures Addr(PageCounterAdd(c, 0xffff_ffff_ffff_ffff)) == Addr(c) &&
      Flags(PageCounterAdd(c, 0xffff_ffff_ffff_ffff)) == Flags(c)
  {
    CounterAddBits(c, 0xffff_ffff_ffff_ffff);
    DataBits(PageCounterAdd(c, 0xffff_ffff_ffff_ffff), c);
    hide PageCounterAdd, CounterBits, Present, Addr, Flags;
    SmallNat(CounterBits(c));
    SmallCount(CounterBits(c));
    assert CounterBits(c) + 0xffff_ffff_ffff_ffff == CounterBits(c) - 1;
  }

  /** page_set reads back as what was stored, and keeps the counter of entry 0. */
  lemma PageSetIs(prev: bv64, i: nat, n: bv64, flags: bv64)
    ensures Present(PageSet(prev, i, n, flags))
    ensures Addr(PageSet(prev, i, n, flags)) == Addr(n) && Flags(PageSet(prev, i, n, flags)) == Flags(flags)
    ensures Count(PageSet(prev, i, n, flags)) == if i == 0 then Count(prev) else 0
  {
    hide CounterBits;
    PageSetCounter(prev, i, n, flags);
  }

  /** Bit by bit: the flags stored are bits 1 to 8 and 63 of those asked for, the address bits 12 to
      47 of the one given, the counter's bits those of entry 0, and the rest is 0. */
  lemma PageSetBits(prev: bv64, i: nat, n: bv64, flags: bv64)
    ensures var e := PageSet(prev, i, n, flags);
      && e & 0x1 == 1 && e & 0x2 == flags & 0x2 && e & 0x4 == flags & 0x4 && e & 0x8 == flags & 0x8
      && e & 0x10 == flags & 0x10 && e & 0x20 == flags & 0x20 && e & 0x40 == flags & 0x40
      && e & 0x80 == flags & 0x80 && e & 0x100 == flags & 0x100
      && e & 0x8000_0000_0000_0000 == flags & 0x8000_0000_0000_0000
      && e & 0x0000_ffff_ffff_f000 == n & 0x0000_ffff_ffff_f000
      && e & 0x07f0_0000_0000_0e00 == (if i == 0 then prev & 0x07f0_0000_0000_0e00 else 0)
      && e & 0x780f_0000_0000_0000 == 0
  {
    PageSetParts(prev, i, n, flags);
    hide PageSet;
    FlagBits(PageSet(prev, i, n, flags), flags);
  }

  lemma PageSetParts(prev: bv64, i: nat, n: bv64, flags: bv64)
    ensures var e := PageSet(prev, i, n, flags);
      && e & 1 == 1 && e & PAGE_FLAGS_POS == flags & PAGE_FLAGS_POS
      && e & 0x0000_ffff_ffff_f000 == n & 0x0000_ffff_ffff_f000
      && e & 0x07f0_0000_0000_0e00 == (if i == 0 then prev & 0x07f0_0000_0000_0e00 else 0)
      && e & 0x780f_0000_0000_0000 == 0
  {
  }

  lemma FlagBits(e: bv64, f: bv64)
    requires e & PAGE_FLAGS_POS == f & PAGE_FLAGS_POS
    ensures e & 0x2 == f & 0x2 && e & 0x4 == f & 0x4 && e & 0x8 == f & 0x8 && e & 0x10 == f & 0x10
    ensures e & 0x20 == f & 0x20 && e & 0x40 == f & 0x40 && e & 0x80 == f & 0x80 && e & 0x100 == f & 0x100
    ensures e & 0x8000_0000_0000_0000 == f & 0x8000_0000_0000_0000
  {
  }

  /** The counter lives in bits 9 to 11 and 52 to 58. */
  lemma CounterBitsAre(c: bv64)
    ensures CounterBits(c) == ((c >> 9) & 7) | (((c >> 52) & 127) << 3)
  {
  }

  /** Adding to it changes no other bit. */
  lemma CounterKeeps(c: bv64, n: bv64)
    ensures PageCounterAdd(c, n) & 0xf80f_ffff_ffff_f1ff == c & 0xf80f_ffff_ffff_f1ff
  {
    CounterAddBits(c, n);
  }

  lemma PageSetCounter(prev: bv64, i: nat, n: bv64, flags: bv64)
    ensures CounterBits(PageSet(prev, i, n, flags)) == if i == 0 then CounterBits(prev) else 0
  {
  }

  lemma PageUnsetIs(prev: bv64, i: nat)
    ensures !Present(PageUnset(prev, i))
    ensures Count(PageUnset(prev, i)) == if i == 0 then Count(prev) else 0
    ensures PageUnset(prev, i) & 0xf80f_ffff_ffff_f1ff == 0
  {
  }

  lemma ZeroEntry()
    ensures !Present(0) && Count(0) == 0
  {
  }

  /** The test `page_counter_get (page_table[i]) == 0` that unmapping makes after clearing
      entry i fires for every i but 0, whatever the table still holds: it agrees with the
      intended test on entry 0 exactly when i is 0 or the table is really empty. */
  lemma EmptyTestAsWritten(table0: bv64, entry: bv64, i: nat)
    requires i == 0 ==> entry == table0
    ensures i > 0 ==> Count(PageUnset(entry, i)) == 0
    ensures (Count(PageUnset(entry, i)) == 0 <==> Count(table0) == 0) <==> (i == 0 || Count(table0) == 0)
  {
    PageUnsetIs(entry, i);
  }
}
