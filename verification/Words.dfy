/** Numbers as 64-bit words, bit by bit, and what page-table entries can tell apart. */
module Words {
  import opened Bits
  import opened PageEntry

  function Join(u: bv64, b: bv64): bv64 { (u << 1) | b }

  function Down(m: bv64): bv64 { m >> 1 }

  predicate Odd(m: bv64) { m & 1 == 1 }

  predicate Agree(x: bv64, y: bv64, mask: bv64) { (x ^ y) & mask == 0 }

  function LowBit(n: nat): bv64 { if n % 2 == 1 then 1 else 0 }

  /** The word that holds n, modulo 2^64. */
  function Word(n: nat): bv64 {
    if n == 0 then 0 else Join(Word(n / 2), LowBit(n))
  }

  /** m has its lowest k bits set. */
  predicate Covers(m: bv64, k: nat) {
    k == 0 || (Odd(m) && Covers(Down(m), k - 1))
  }

  lemma WordStep(n: nat)
    ensures Word(n) == Join(Word(n / 2), LowBit(n))
  {
  }

  lemma Joined(u: bv64, v: bv64, b: bv64, c: bv64, m: bv64)
    requires b <= 1 && c <= 1 && Odd(m) && Agree(Join(u, b), Join(v, c), m)
    ensures b == c && Agree(u, v, Down(m))
  {
  }

  lemma LowBitTells(n: nat, m: nat)
    ensures LowBit(n) <= 1 && (LowBit(n) == LowBit(m) <==> n % 2 == m % 2)
  {
  }

  /** Words that agree in their lowest k bits hold numbers that agree modulo 2^k. */
  lemma {:induction false} LowBitsTell(n: nat, m: nat, mask: bv64, k: nat)
    requires Covers(mask, k) && Agree(Word(n), Word(m), mask)
    ensures n % Pow2(k) == m % Pow2(k)
    decreases k
  {
    hide Join, Down, Odd, Agree, LowBit, Pow2;
    if k > 0 {
      WordStep(n);
      WordStep(m);
      LowBitTells(n, m);
      LowBitTells(m, n);
      Joined(Word(n / 2), Word(m / 2), LowBit(n), LowBit(m), mask);
      LowBitsTell(n / 2, m / 2, Down(mask), k - 1);
      ModHalf(n, k - 1);
      ModHalf(m, k - 1);
    } else {
      ModOne(n, m);
    }
  }

  lemma ModOne(n: nat, m: nat)
    ensures n % Pow2(0) == m % Pow2(0)
  {
  }

  lemma CoversByte(m: bv64, h: bv64, k: nat)
    requires m & 0xff == 0xff && h == m >> 8 && Covers(h, k)
    ensures Covers(m, k + 8)
  {
    ByteBits(m);
    hide Odd, Down;
    var d1 := Down(m);
    var d2 := Down(d1);
    var d3 := Down(d2);
    var d4 := Down(d3);
    var d5 := Down(d4);
    var d6 := Down(d5);
    var d7 := Down(d6);
    assert Covers(d7, k + 1);
    assert Covers(d6, k + 2);
    assert Covers(d5, k + 3);
    assert Covers(d4, k + 4);
    assert Covers(d3, k + 5);
    assert Covers(d2, k + 6);
    assert Covers(d1, k + 7);
  }

  lemma ByteBits(m: bv64)
    requires m & 0xff == 0xff
    ensures Odd(m) && Odd(Down(m)) && Odd(Down(Down(m))) && Odd(Down(Down(Down(m)))) && Odd(Down(Down(Down(Down(m)))))
    ensures Odd(Down(Down(Down(Down(Down(m)))))) && Odd(Down(Down(Down(Down(Down(Down(m)))))))
    ensures Odd(Down(Down(Down(Down(Down(Down(Down(m))))))))
    ensures Down(Down(Down(Down(Down(Down(Down(Down(m)))))))) == m >> 8
  {
  }

  lemma Covers48()
    ensures Covers(0x0000_ffff_ffff_ffff, 48)
  {
    CoversByte(0xff, 0, 0);
    CoversByte(0xffff, 0xff, 8);
    CoversByte(0xff_ffff, 0xffff, 16);
    CoversByte(0xffff_ffff, 0xff_ffff, 24);
    CoversByte(0xff_ffff_ffff, 0xffff_ffff, 32);
    CoversByte(0xffff_ffff_ffff, 0xff_ffff_ffff, 40);
  }

  /** m has its lowest k bits set and no other. */
  predicate Exactly(m: bv64, k: nat) {
    if k == 0 then m == 0 else Odd(m) && Exactly(Down(m), k - 1)
  }

  predicate Clear(x: bv64, mask: bv64) { x & mask == 0 }

  lemma JoinedClear(u: bv64, m: bv64)
    requires Clear(u, Down(m))
    ensures Clear(Join(u, 0), m)
  {
  }

  /** A multiple of 2^k has its lowest k bits clear. */
  lemma {:induction false} LowBitsClear(n: nat, mask: bv64, k: nat)
    requires Exactly(mask, k) && n % Pow2(k) == 0
    ensures Clear(Word(n), mask)
    decreases k
  {
    hide Join, Down, Odd, Pow2;
    if k > 0 {
      ModHalf(n, k - 1);
      LowBitsClear(n / 2, Down(mask), k - 1);
      WordStep(n);
      JoinedClear(Word(n / 2), mask);
    }
  }

  lemma Exactly12()
    ensures Exactly(0xfff, 12) && Pow2(12) == 4096
  {
    assert Exactly(0xf, 4);
    assert Exactly(0xff, 8);
    assert Pow2(6) == 64;
    Pow2Add(6, 6);
  }

  lemma Masks(x: bv64, y: bv64)
    requires Clear(x, 0xfff) && Clear(y, 0xfff) && x & PAGE_ADDR_POS == y & PAGE_ADDR_POS
    ensures Agree(x, y, 0x0000_ffff_ffff_ffff)
  {
  }

  /** Page addresses that differ modulo 2^48 differ in the bits an entry keeps of them. */
  lemma PagesTold(n: nat, m: nat)
    requires n % 4096 == 0 && m % 4096 == 0 && n % 0x1_0000_0000_0000 != m % 0x1_0000_0000_0000
    ensures Word(n) & PAGE_ADDR_POS != Word(m) & PAGE_ADDR_POS
  {
    hide Word, Clear, Agree, Covers, Exactly, Pow2;
    if Word(n) & PAGE_ADDR_POS == Word(m) & PAGE_ADDR_POS {
      Exactly12();
      Covers48();
      Pow48();
      LowBitsClear(n, 0xfff, 12);
      LowBitsClear(m, 0xfff, 12);
      Masks(Word(n), Word(m));
      LowBitsTell(n, m, 0x0000_ffff_ffff_ffff, 48);
    }
  }

  lemma Pow48()
    ensures Pow2(48) == 0x1_0000_0000_0000
  {
    assert Pow2(6) == 64;
    Pow2Add(6, 6); Pow2Add(12, 12); Pow2Add(24, 24);
  }

  // ---------------------------------------------------------------- reading a word back

  /** The number in the lowest k bits of a word. */
  function Value(x: bv64, k: nat): nat {
    if k == 0 then 0 else (if x & 1 == 1 then 1 else 0) + 2 * Value(x >> 1, k - 1)
  }

  /** It depends on these bits alone. */
  lemma {:induction false} ValueAgree(x: bv64, y: bv64, mask: bv64, k: nat)
    requires Covers(mask, k) && Agree(x, y, mask)
    ensures Value(x, k) == Value(y, k)
    decreases k
  {
    hide Odd, Down, Agree;
    if k > 0 {
      AgreeDown(x, y, mask);
      ValueAgree(Down(x), Down(y), Down(mask), k - 1);
      DownIs(x);
      DownIs(y);
    }
  }

  lemma DownIs(x: bv64)
    ensures Down(x) == x >> 1
  {
  }

  lemma AgreeDown(x: bv64, y: bv64, mask: bv64)
    requires Odd(mask) && Agree(x, y, mask)
    ensures Agree(Down(x), Down(y), Down(mask)) && (x & 1 == 1 <==> y & 1 == 1)
  {
  }

  lemma {:induction false} CoversLess(m: bv64, k: nat, j: nat)
    requires Covers(m, k) && j <= k
    ensures Covers(m, j)
    decreases k
  {
    if j > 0 { CoversLess(Down(m), k - 1, j - 1); }
  }

  lemma Covers63()
    ensures Covers(0x7fff_ffff_ffff_ffff, 63)
  {
    assert Covers(0x7, 3);
    assert Covers(0x7f, 7);
    CoversByte(0x7fff, 0x7f, 7);
    CoversByte(0x7f_ffff, 0x7fff, 15);
    CoversByte(0x7fff_ffff, 0x7f_ffff, 23);
    CoversByte(0x7f_ffff_ffff, 0x7fff_ffff, 31);
    CoversByte(0x7fff_ffff_ffff, 0x7f_ffff_ffff, 39);
    CoversByte(0x7f_ffff_ffff_ffff, 0x7fff_ffff_ffff, 47);
    CoversByte(0x7fff_ffff_ffff_ffff, 0x7f_ffff_ffff_ffff, 55);
  }

  lemma JoinDown(u: bv64, b: bv64)
    requires b <= 1
    ensures Agree(Down(Join(u, b)), u, 0x7fff_ffff_ffff_ffff) && (Join(u, b) & 1 == 1 <==> b == 1)
  {
  }

  /** Word (n) holds n modulo 2^64: its lowest k bits are n modulo 2^k. */
  lemma {:induction false} WordValue(n: nat, k: nat)
    requires k <= 64
    ensures Value(Word(n), k) == n % Pow2(k)
    decreases k
  {
    hide Join, Down, Agree, LowBit, Pow2;
    if k > 0 {
      var w := Word(n);
      WordStep(n);
      LowBitTells(n, 1);
      LowBitIs(n);
      JoinDown(Word(n / 2), LowBit(n));
      Covers63();
      CoversLess(0x7fff_ffff_ffff_ffff, 63, k - 1);
      ValueAgree(Down(w), Word(n / 2), 0x7fff_ffff_ffff_ffff, k - 1);
      DownIs(w);
      WordValue(n / 2, k - 1);
      ModHalf(n, k - 1);
    } else {
      ModNone(n);
    }
  }

  lemma ModNone(n: nat)
    ensures n % Pow2(0) == 0
  {
  }

  lemma LowBitIs(n: nat)
    ensures LowBit(n) <= 1 && (LowBit(n) == 1 <==> n % 2 == 1)
  {
  }

  /** Numbers that differ below 2^k only have words that differ in their lowest k bits only. */
  lemma {:induction false} HighBitsSame(n: nat, m: nat, mask: bv64, k: nat)
    requires Exactly(mask, k) && n / Pow2(k) == m / Pow2(k)
    ensures Agree(Word(n), Word(m), !mask)
    decreases k
  {
    hide Join, Down, Odd, Agree, LowBit, Pow2;
    if k > 0 {
      WordStep(n);
      WordStep(m);
      LowBitIs(n);
      LowBitIs(m);
      HalfDivs(n, k);
      HalfDivs(m, k);
      HighBitsSame(n / 2, m / 2, Down(mask), k - 1);
      JoinedHigh(Word(n / 2), Word(m / 2), LowBit(n), LowBit(m), mask);
    } else {
      DivOne(n);
      DivOne(m);
      SameAgrees(Word(n), !mask);
    }
  }

  lemma DivOne(n: nat)
    ensures n / Pow2(0) == n
  {
  }

  lemma HalfDivs(n: nat, k: nat)
    requires k > 0
    ensures n / Pow2(k) == (n / 2) / Pow2(k - 1)
  {
    HalfDiv(n, Pow2(k - 1));
  }

  lemma SameAgrees(x: bv64, mask: bv64)
    ensures Agree(x, x, mask)
  {
  }

  lemma JoinedHigh(u: bv64, v: bv64, b: bv64, c: bv64, mask: bv64)
    requires b <= 1 && c <= 1 && Odd(mask) && Agree(u, v, !Down(mask))
    ensures Agree(Join(u, b), Join(v, c), !mask)
  {
  }

  lemma AddrMasks(x: bv64, y: bv64)
    requires Agree(x, y, !0xfff) && Clear(y, 0xfff)
    ensures Agree(x & 0x0000_ffff_ffff_f000, y, 0x0000_ffff_ffff_ffff)
  {
  }

  lemma AddrAgree(n: nat, m: nat)
    requires n / 4096 == m / 4096 && m % 4096 == 0
    ensures Agree(Word(n) & PAGE_ADDR_POS, Word(m), 0x0000_ffff_ffff_ffff)
  {
    hide Word, Clear, Agree, Exactly, Pow2;
    Exactly12();
    HighBitsSame(n, m, 0xfff, 12);
    LowBitsClear(m, 0xfff, 12);
    AddrMasks(Word(n), Word(m));
  }

  lemma WholePage(n: nat)
    ensures n / 4096 == (n - n % 4096) / 4096 && (n - n % 4096) % 4096 == 0
  {
  }

  /** The address bits of an entry made from n are n modulo 2^48, down to a whole page. */
  lemma AddrValue(n: nat)
    ensures Value(Word(n) & PAGE_ADDR_POS, 48) == (n - n % 4096) % 0x1_0000_0000_0000
  {
    hide Word, Value, Agree, Covers, Pow2;
    var m := n - n % 4096;
    WholePage(n);
    AddrAgree(n, m);
    Covers48();
    ValueAgree(Word(n) & PAGE_ADDR_POS, Word(m), 0x0000_ffff_ffff_ffff, 48);
    WordValue(m, 48);
    Pow48();
  }
}
