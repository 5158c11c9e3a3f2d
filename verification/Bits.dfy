/** The word arithmetic the kernel builds its allocators on: 64-bit masks and
    shifts written out over `nat`, and what they compute on powers of two. */
module Bits {

  datatype Option<+T> = None | Some(value: T)

  /** One more than the largest `usize`. */
  const WORD: nat := 0x1_0000_0000_0000_0000

  /** kernel_vma: where the kernel's addresses start. */
  const KERNEL_BASE: nat := 0xffff_ff80_0000_0000

  const PAGE_SIZE: nat := 4096
  const PAGE_BITS: nat := 12

  function Pow2(n: nat): (r: nat)
    ensures r >= 1
  {
    if n == 0 then 1 else 2 * Pow2(n - 1)
  }

  function Max(a: nat, b: nat): nat { if a > b then a else b }

  function Min(a: int, b: int): int { if a < b then a else b }

  /** a - b on 64-bit words. */
  function Sub(a: nat, b: nat): nat
    requires a < WORD && b < WORD
  {
    if b <= a then a - b else a + WORD - b
  }

  /** Bitwise exclusive or, bit by bit from the low end. */
  function Xor(a: nat, b: nat): nat
    decreases a + b
  {
    if a == 0 && b == 0 then 0
    else 2 * Xor(a / 2, b / 2) + (a % 2 + b % 2) % 2
  }

  /** Bitwise and, bit by bit from the low end. */
  function And(a: nat, b: nat): nat
    decreases a + b
  {
    if a == 0 && b == 0 then 0
    else 2 * And(a / 2, b / 2) + (if a % 2 == 1 && b % 2 == 1 then 1 else 0)
  }

  /** `~x` on a 64-bit word. */
  function Not(x: nat): nat
    requires x < WORD
  {
    WORD - 1 - x
  }

  /** Addition on 64-bit words wraps. */
  function Add(a: nat, b: nat): (r: nat)
    requires a < WORD && b < WORD
    ensures r < WORD
  {
    if a + b < WORD then a + b else a + b - WORD
  }

  function AlignUp(addr: nat, align: nat): nat
    requires addr < WORD && 0 < align <= WORD
  {
    AlignDown(Add(addr, align - 1), align)
  }

  function AlignDown(addr: nat, align: nat): nat
    requires 0 < align <= WORD
  {
    And(addr, Not(align - 1))
  }

  function AlignOf(addr: nat): nat {
    if addr == 0 then 0 else (Xor(addr, addr - 1) + 1) / 2
  }

  /** The `bsr` instruction: the position of the highest set bit. */
  function Log2(n: nat): nat
    requires n > 0
  {
    if n == 1 then 0 else 1 + Log2(n / 2)
  }

  /** `1 << s` on a 32-bit `int`: a value only while the sign bit is not reached. */
  function IntShift(s: nat): Option<nat> {
    if s <= 30 then Some(Pow2(s)) else None
  }

  function Log2Up(n: nat): Option<nat>
    requires 0 < n < WORD
  {
    match IntShift(Log2(n))
    case None => None
    case Some(one) =>
      IntPow2(Log2(n));
      var up := AlignUp(n, one);
      if up == 0 then None else Some(Log2(up))
  }

  // ---------------------------------------------------------------- powers

  lemma Pow2Monotone(a: nat, b: nat)
    requires a <= b
    ensures Pow2(a) <= Pow2(b)
    ensures a < b ==> 2 * Pow2(a) <= Pow2(b)
  {
    if a < b { Pow2Monotone(a, b - 1); }
  }

  lemma {:induction false} Pow2Add(a: nat, b: nat)
    ensures Pow2(a + b) == Pow2(a) * Pow2(b)
  {
    if b > 0 {
      Pow2Add(a, b - 1);
      assert Pow2(a + b) == 2 * Pow2(a + (b - 1));
      assert Pow2(a) * Pow2(b) == Pow2(a) * (2 * Pow2(b - 1)) == 2 * (Pow2(a) * Pow2(b - 1));
    }
  }

  lemma Pow2Injective(a: nat, b: nat)
    requires Pow2(a) == Pow2(b)
    ensures a == b
  {
    if a < b { Pow2Monotone(a, b); } else if b < a { Pow2Monotone(b, a); }
  }

  /** 2^64 is the word size; n is 64, stated so that the solver does not unfold the power. */
  lemma WordPow2() returns (n: nat)
    ensures 63 < n < 65 && Pow2(n) == WORD
  {
    assert Pow2(8) == 256;
    Pow2Add(8, 8); Pow2Add(16, 16); Pow2Add(32, 32);
    n := 64;
  }

  // ---------------------------------------------------------------- modulus

  lemma DivMod(a: nat, m: nat)
    requires m > 0
    ensures a == (a / m) * m + a % m && 0 <= a / m && 0 <= a % m < m
  {
  }

  lemma ModSplit(a: nat, s: nat)
    requires s > 0
    ensures a % (2 * s) == a % s || a % (2 * s) == a % s + s
    ensures (a % (2 * s) == a % s) <==> (a / s) % 2 == 0
  {
    DivMod(a, s);
    var q, r := a / s, a % s;
    var h, c := q / 2, q % 2;
    assert q * s == h * (2 * s) + c * s by { assert q == 2 * h + c; assert (2 * h) * s == h * (2 * s); }
    UniqueMod(a, 2 * s, h, if c == 0 then r else s + r);
  }

  lemma MulMonotone(p: int, q: int, m: nat)
    ensures p <= q ==> p * m <= q * m
  {
    if p <= q { assert (q - p) * m >= 0; }
  }

  lemma OffMultiple(d: int, m: int)
    requires d != 0 && m > 0
    ensures d * m >= m || d * m <= -m
  {
    if d > 0 { assert (d - 1) * m >= 0; } else { assert (-d - 1) * m >= 0; }
  }

  lemma UniqueMod(a: nat, m: nat, q: int, r: int)
    requires m > 0 && 0 <= r < m && a == q * m + r
    ensures a % m == r && a / m == q
  {
    var q', r' := a / m, a % m;
    assert a == q' * m + r';
    var d := q - q';
    assert d * m == r' - r by { assert (q - q') * m == q * m - q' * m; }
    if d != 0 { OffMultiple(d, m); }
  }

  /** A multiple of a large power of two is a multiple of every smaller one. */
  lemma {:induction false} ModWeaken(a: nat, k: nat, n: nat)
    requires k <= n && a % Pow2(n) == 0
    ensures a % Pow2(k) == 0
  {
    if k < n {
      ModSplit(a, Pow2(n - 1));
      ModWeaken(a, k, n - 1);
    }
  }

  lemma ModHalf(a: nat, k: nat)
    ensures a % Pow2(k + 1) == 2 * ((a / 2) % Pow2(k)) + a % 2
  {
    var s := Pow2(k);
    var q, r := (a / 2) / s, (a / 2) % s;
    assert a / 2 == q * s + r;
    assert a == q * (2 * s) + (2 * r + a % 2) by {
      assert 2 * (q * s) == q * (2 * s);
    }
    UniqueMod(a, 2 * s, q, 2 * r + a % 2);
  }

  lemma Floor(a: nat, m: nat)
    requires m > 0
    ensures a % m < m && a % m <= a && (a - a % m) % m == 0
  {
    UniqueMod(a - a % m, m, a / m, 0);
  }

  lemma ModAdd(a: nat, b: nat, m: nat)
    requires m > 0 && a % m == 0 && b % m == 0
    ensures (a + b) % m == 0
    ensures a >= b ==> (a - b) % m == 0
  {
    DivMod(a, m);
    DivMod(b, m);
    var p, q := a / m, b / m;
    assert (p + q) * m == p * m + q * m;
    assert (p - q) * m == p * m - q * m;
    UniqueMod(a + b, m, p + q, 0);
    if a >= b { UniqueMod(a - b, m, p - q, 0); }
  }

  lemma HalfMods(a: nat, s: nat)
    requires s > 0 && a % (2 * s) == 0
    ensures a % s == 0 && (a + s) % s == 0 && (a + s) % (2 * s) == s
  {
    ModSplit(a, s);
    ModAdd(a, s, s);
    UniqueMod(a + s, 2 * s, a / (2 * s), s);
  }

  lemma ParentMods(a: nat, s: nat)
    requires s > 0 && a % s == 0
    ensures a % (2 * s) == 0 || (a % (2 * s) == s && a >= s && (a - s) % (2 * s) == 0)
  {
    ModSplit(a, s);
    Floor(a, 2 * s);
  }

  /** Of two aligned intervals, the shorter is inside the longer or apart from it. */
  lemma NestedIntervals(a: nat, b: nat, s: nat, d: nat)
    requires s > 0 && d > 0 && a % s == 0 && b % s == 0
    ensures a + s <= b || b + d * s <= a || (b <= a && a + s <= b + d * s)
  {
    var i, j := a / s, b / s;
    assert a == i * s && b == j * s;
    assert b + d * s == (j + d) * s by { assert (j + d) * s == j * s + d * s; }
    assert a + s == (i + 1) * s by { assert (i + 1) * s == i * s + s; }
    MulMonotone(i + 1, j, s);
    MulMonotone(j + d, i, s);
    MulMonotone(j, i, s);
    MulMonotone(i + 1, j + d, s);
  }

  // ---------------------------------------------------------------- shifts

  /** Division by 2^k, a bit at a time. */
  function Shr(x: nat, k: nat): nat { if k == 0 then x else Shr(x / 2, k - 1) }

  /** Multiplication by 2^k, a bit at a time. */
  function Shl(x: nat, k: nat): nat
    decreases k
  {
    if k == 0 then x else Shl(2 * x, k - 1)
  }

  lemma {:induction false} ShlIs(x: nat, k: nat)
    ensures Shl(x, k) == x * Pow2(k)
    decreases k
  {
    if k > 0 {
      ShlIs(2 * x, k - 1);
      assert x * Pow2(k) == x * (2 * Pow2(k - 1)) == (2 * x) * Pow2(k - 1);
    }
  }

  lemma {:induction false} ShrIs(x: nat, k: nat)
    ensures Shr(x, k) == x / Pow2(k)
  {
    if k > 0 {
      ShrIs(x / 2, k - 1);
      Pow2Step(k);
      HalfDiv(x, Pow2(k - 1));
    }
  }

  lemma HalfDiv(x: nat, s: nat)
    requires s > 0
    ensures (x / 2) / s == x / (2 * s)
  {
    var q, t := (x / 2) / s, (x / 2) % s;
    assert x / 2 == q * s + t;
    assert x == q * (2 * s) + (2 * t + x % 2) by { assert 2 * (q * s) == q * (2 * s); }
    UniqueMod(x, 2 * s, q, 2 * t + x % 2);
  }

  lemma ShrShl(x: nat, k: nat)
    ensures Shl(Shr(x, k), k) == x - x % Pow2(k)
    ensures x % Pow2(k) < Pow2(k)
  {
    ShrIs(x, k);
    ShlIs(Shr(x, k), k);
    assert x == (x / Pow2(k)) * Pow2(k) + x % Pow2(k);
  }

  lemma {:induction false} ShlMonotone(x: nat, y: nat, k: nat)
    requires x < y
    ensures Shl(x, k) + Pow2(k) <= Shl(y, k)
    decreases k
  {
    if k > 0 { ShlMonotone(2 * x, 2 * x + 1, k - 1); ShlMonotone(2 * x + 1, 2 * y, k - 1); }
  }

  // ---------------------------------------------------------------- masks

  lemma XorStep(a: nat, k: nat)
    requires k > 0
    ensures Xor(a, Pow2(k)) == 2 * Xor(a / 2, Pow2(k - 1)) + a % 2
  {
    var s := Pow2(k - 1);
    assert Pow2(k) == 2 * s;
    assert Xor(a, 2 * s) == 2 * Xor(a / 2, (2 * s) / 2) + (a % 2 + (2 * s) % 2) % 2;
  }

  /** Flipping one bit: below an aligned address it is plus, otherwise minus, the size. */
  lemma {:induction false} XorPow2(a: nat, k: nat)
    ensures a % Pow2(k + 1) < Pow2(k) ==> Xor(a, Pow2(k)) == a + Pow2(k)
    ensures a % Pow2(k + 1) >= Pow2(k) ==> a >= Pow2(k) && Xor(a, Pow2(k)) == a - Pow2(k)
  {
    ModHalf(a, k);
    if k == 0 {
      XorZero(a / 2);
      assert Pow2(1) == 2;
      assert Xor(a, 1) == 2 * Xor(a / 2, 0) + (a % 2 + 1) % 2;
    } else {
      XorPow2(a / 2, k - 1);
      XorStep(a, k);
    }
  }

  lemma XorZero(a: nat)
    ensures Xor(a, 0) == a
  {
  }

  lemma {:induction false} AndFull(a: nat, n: nat)
    requires a < Pow2(n)
    ensures And(a, Pow2(n) - 1) == a
  {
    if n > 0 {
      AndFull(a / 2, n - 1);
      assert (Pow2(n) - 1) / 2 == Pow2(n - 1) - 1;
    }
  }

  lemma Pow2Step(k: nat)
    requires k > 0
    ensures Pow2(k) == 2 * Pow2(k - 1)
  {
  }

  lemma AndEven(a: nat, m: nat)
    requires m % 2 == 0
    ensures And(a, m) == 2 * And(a / 2, m / 2)
  {
  }

  /** The bits of a below the mask's lowest one. */
  function Rest(a: nat, m: nat): nat
    requires m > 0
  {
    a % m
  }

  lemma {:induction false} AndRest(a: nat, k: nat, n: nat)
    requires k <= n && a < Pow2(n)
    ensures Pow2(k) <= Pow2(n)
    ensures And(a, Pow2(n) - Pow2(k)) == a - Rest(a, Pow2(k))
  { // by halving both words
    hide Pow2, Rest;
    Pow2Monotone(k, n);
    if k == 0 {
      AndFull(a, n);
      RestNone(a);
    } else {
      Pow2Step(n);
      Pow2Step(k);
      AndRest(a / 2, k - 1, n - 1);
      RestHalf(a, k);
      HalfMask(a, Pow2(n), Pow2(k), Pow2(n - 1), Pow2(k - 1));
      Halved(a, Rest(a, Pow2(k)), Rest(a / 2, Pow2(k - 1)));
    }
  }

  lemma RestNone(a: nat)
    ensures Pow2(0) == 1 && Rest(a, Pow2(0)) == 0
  {
  }

  lemma RestHalf(a: nat, k: nat)
    requires k > 0
    ensures Rest(a, Pow2(k)) == 2 * Rest(a / 2, Pow2(k - 1)) + a % 2
  {
    ModHalf(a, k - 1);
  }

  lemma AndMask(a: nat, k: nat, n: nat)
    requires k <= n && a < Pow2(n)
    ensures Pow2(k) <= Pow2(n)
    ensures And(a, Pow2(n) - Pow2(k)) == a - a % Pow2(k)
  {
    hide Pow2;
    AndRest(a, k, n);
  }

  lemma Halved(a: nat, r: nat, h: nat)
    requires r == 2 * h + a % 2
    ensures 2 * (a / 2 - h) == a - r
  {
  }

  lemma HalfMask(a: nat, p: nat, q: nat, p': nat, q': nat)
    requires p == 2 * p' && q == 2 * q' && q <= p
    ensures And(a, p - q) == 2 * And(a / 2, p' - q')
  {
    AndEven(a, p - q);
  }

  /** `align_down` clears the offset inside the alignment. */
  lemma AlignDownIs(a: nat, k: nat)
    requires a < WORD && k <= 64
    ensures Pow2(k) <= WORD
    ensures AlignDown(a, Pow2(k)) == a - a % Pow2(k)
  {
    var n := WordPow2();
    AndMask(a, k, n);
  }

  lemma UnwrappedAlignUp(a: nat, s: nat)
    requires 0 < s && a + s <= WORD
    ensures AlignUp(a, s) == AlignDown(a + s - 1, s)
  {
  }

  /** `align_up` is the least multiple at or above the address, or 0 when the sum passes 2^64. */
  lemma AlignUpIs(a: nat, k: nat)
    requires k <= 64 && a < WORD
    ensures Pow2(k) <= WORD
    ensures a + Pow2(k) <= WORD ==> a <= AlignUp(a, Pow2(k)) < a + Pow2(k) && AlignUp(a, Pow2(k)) % Pow2(k) == 0
    ensures a + Pow2(k) > WORD ==> AlignUp(a, Pow2(k)) == 0
  {
    hide Pow2, And, AlignDown;
    var s := Pow2(k);
    if a + s <= WORD {
      UnwrappedAlignUp(a, s);
      AlignDownIs(a + s - 1, k);
      Floor(a + s - 1, s);
    } else {
      AlignDownIs(a, k);
      AlignDownIs(a + s - 1 - WORD, k);
      UniqueMod(a + s - 1 - WORD, s, 0, a + s - 1 - WORD);
    }
  }

  /** `align_of` is the largest power of two dividing the address. */
  lemma {:induction false} AlignOfIs(a: nat) returns (k: nat)
    requires a > 0
    ensures AlignOf(a) == Pow2(k) && a % Pow2(k) == 0 && a % Pow2(k + 1) != 0 && Pow2(k) <= a
    ensures Xor(a, a - 1) == 2 * Pow2(k) - 1
  {
    if a % 2 == 1 {
      k := 0;
      XorSelf(a / 2);
      assert (a - 1) / 2 == a / 2;
      assert Pow2(1) == 2;
    } else {
      var h := a / 2;
      var j := AlignOfIs(h);
      k := j + 1;
      ModHalf(a, j);
      ModHalf(a, k);
      assert (a - 1) / 2 == h - 1 && (a - 1) % 2 == 1;
      assert Xor(a, a - 1) == 2 * Xor(h, h - 1) + 1;
    }
  }

  lemma XorSelf(a: nat)
    ensures Xor(a, a) == 0
  {
  }

  lemma {:induction false} Log2Is(n: nat)
    requires n > 0
    ensures Pow2(Log2(n)) <= n < 2 * Pow2(Log2(n))
  {
    if n > 1 { Log2Is(n / 2); }
  }

  lemma Log2OfPow2(k: nat)
    ensures Log2(Pow2(k)) == k
  {
    if k > 0 {
      Log2OfPow2(k - 1);
      assert Pow2(k) / 2 == Pow2(k - 1);
    }
  }

  lemma FirstMultiples(x: nat, s: nat)
    requires s > 0 && x % s == 0 && s <= x < 3 * s
    ensures x == s || x == 2 * s
  {
    var q := x / s;
    assert x == q * s;
    MulMonotone(3, q, s);
    MulMonotone(q, 0, s);
  }

  lemma RoundUp(n: nat, k: nat)
    requires Pow2(k) <= n < 2 * Pow2(k) && k <= 30
    ensures n + Pow2(k) <= WORD
    ensures AlignUp(n, Pow2(k)) == if n == Pow2(k) then Pow2(k) else Pow2(k + 1)
  {
    var s := Pow2(k);
    IntPow2(k);
    AlignUpIs(n, k);
    FirstMultiples(AlignUp(n, s), s);
  }

  lemma Log2UpValue(n: nat, k: nat)
    requires 0 < n && k == Log2(n) <= 30
    ensures n < 0x8000_0000
    ensures Log2Up(n) == Some(if n == Pow2(k) then k else k + 1)
  {
    Log2Is(n);
    IntPow2(k);
    RoundUp(n, k);
    Log2OfPow2(k);
    Log2OfPow2(k + 1);
  }

  /** `log2_up` is the least exponent that reaches n, and has a value at all exactly below 2^31. */
  lemma Log2UpIs(n: nat)
    requires 0 < n < WORD
    ensures Log2Up(n).Some? <==> n < 0x8000_0000
    ensures Log2Up(n).Some? ==> n <= Pow2(Log2Up(n).value) < 2 * n
    ensures Log2Up(n).Some? ==> forall b: nat :: n <= Pow2(b) ==> Log2Up(n).value <= b
  {
    hide Log2, AlignUp;
    var k := Log2(n);
    Log2Is(n);
    IntPow2(k);
    if k <= 30 {
      Log2UpValue(n, k);
      forall b: nat | n <= Pow2(b) ensures k <= b && (n != Pow2(k) ==> k < b) {
        if b <= k { Pow2Monotone(b, k); }
      }
    }
  }

  lemma IntPow2(k: nat)
    ensures k <= 30 ==> 2 * Pow2(k) <= 0x8000_0000
    ensures k > 30 ==> Pow2(k) >= 0x8000_0000
  {
    assert Pow2(10) == 1024 && Pow2(1) == 2;
    Pow2Add(10, 10); Pow2Add(20, 10); Pow2Add(30, 1);
    if k <= 30 { Pow2Monotone(k, 30); } else { Pow2Monotone(31, k); }
  }
}
