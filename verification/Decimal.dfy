/** Printing and parsing numbers. */
module Decimal {
  import opened Bits

  const INT_MAX: int := 0x7fff_ffff
  const INT_MIN: int := -0x8000_0000
  /** 10^20 modulo 2^64. */
  const WRAPPED_POWER: nat := 7766279631452241920

  function Pow(a: nat, b: nat): nat {
    if b == 0 then 1 else Pow(a, b - 1) * a
  }

  lemma MulMod(x: nat, a: nat, m: nat)
    requires m > 0
    ensures ((x % m) * a) % m == (x * a) % m
  {
    var q := x / m;
    assert x == q * m + x % m;
    assert x * a == (q * a) * m + (x % m) * a by { assert (q * m) * a == (q * a) * m; }
    var r := (x % m) * a;
    UniqueMod(x * a, m, q * a + r / m, r % m) by {
      assert r == (r / m) * m + r % m;
      assert (q * a + r / m) * m == (q * a) * m + (r / m) * m;
    }
  }

  method PowU(a: nat, b: nat) returns (out: nat)
    ensures out == Pow(a, b) % WORD
  {
    out := 1;
    for i := 0 to b
      invariant out == Pow(a, i) % WORD
    {
      MulMod(Pow(a, i), a, WORD);
      out := (out * a) % WORD;
    }
  }

  /** itoc on the digits of a base up to sixteen. */
  function Itoc(n: nat): char {
    if n < 16 then "0123456789abcdef"[n] else '\0'
  }

  // ---------------------------------------------------------------- decimal numerals

  /** The numeral of x: its decimal digits, the first of them not zero unless it is the only one. */
  function Numeral(x: nat): string {
    if x < 10 then [Itoc(x)] else Numeral(x / 10) + [Itoc(x % 10)]
  }

  predicate IsDigit(c: char) { '0' <= c <= '9' }

  function Digit(c: char): nat
    requires IsDigit(c)
  {
    (c - '0') as nat
  }

  function Value(s: string): nat
    requires forall c :: c in s ==> IsDigit(c)
  {
    if s == [] then 0 else Value(s[..|s| - 1]) * 10 + Digit(s[|s| - 1])
  }

  lemma ItocDigit(n: nat)
    requires n < 10
    ensures IsDigit(Itoc(n)) && Digit(Itoc(n)) == n && (Itoc(n) == '0' <==> n == 0)
  {
  }

  lemma {:induction false} NumeralValue(x: nat)
    ensures forall c :: c in Numeral(x) ==> IsDigit(c)
    ensures Value(Numeral(x)) == x && Numeral(x) != []
    ensures Numeral(x)[0] == '0' ==> x == 0
  {
    hide Itoc, Digit, IsDigit;
    ItocDigit(x % 10);
    if x < 10 {
      assert Numeral(x)[..0] == [];
    } else {
      NumeralValue(x / 10);
      assert Numeral(x)[..|Numeral(x)| - 1] == Numeral(x / 10);
    }
  }

  // ---------------------------------------------------------------- itoa

  /** powu (10, i) */
  function Power(i: nat): nat { Pow(10, i) % WORD }

  lemma Pow4(k: nat)
    ensures Pow(10, k + 4) == Pow(10, k) * 10000
  {
    hide Pow;
    PowSteps(k + 1); PowSteps(k + 2); PowSteps(k + 3); PowSteps(k + 4);
  }

  lemma PowValues()
    ensures Pow(10, 0) == 1 && Pow(10, 8) == 100000000 && Pow(10, 9) == 1000000000 && Pow(10, 10) == 10000000000
    ensures Pow(10, 18) == 1000000000000000000 && Pow(10, 19) == 10000000000000000000 &&
      Pow(10, 20) == 100000000000000000000
  {
    hide Pow;
    PowSteps(0); Pow4(0); Pow4(4); PowSteps(9); PowSteps(10);
    Pow4(10); Pow4(14); PowSteps(19); PowSteps(20);
  }

  lemma {:induction false} PowMonotone(a: nat, b: nat)
    requires a <= b
    ensures 1 <= Pow(10, a) <= Pow(10, b)
    decreases b - a
  {
    if a < b { PowMonotone(a, b - 1); } else { PowPositive(a); }
  }

  lemma Powers(i: nat)
    requires i <= 19
    ensures Power(i) == Pow(10, i) >= 1 && Power(20) == WRAPPED_POWER
  {
    hide Pow;
    PowValues();
    PowMonotone(i, 19);
  }

  function Quotient(x: nat, p: nat): nat
    requires p > 0
  {
    x / p
  }

  function Remainder(x: nat, p: nat): nat
    requires p > 0
  {
    x % p
  }

  /** The characters itoa writes from power i - 1 down. */
  function Written(num: nat, i: nat, flag: bool): string
    requires forall k :: 0 <= k < i ==> Power(k) > 0
  {
    if i == 0 then ""
    else
      var n1 := Power(i - 1);
      var n2 := Quotient(num, n1);
      if n2 != 0 then [Itoc(n2)] + Written(Remainder(num, n1), i - 1, true)
      else if flag then "0" + Written(num, i - 1, true)
      else Written(num, i - 1, false)
  }

  /** i digits, with leading zeros. */
  function Padded(x: nat, i: nat): string {
    if i == 0 then "" else Padded(x / 10, i - 1) + [Itoc(x % 10)]
  }

  lemma DivDiv(x: nat, p: nat)
    requires p > 0
    ensures (x / 10) / p == x / (p * 10)
    ensures (x % (p * 10)) / 10 == (x / 10) % p && (x % (p * 10)) % 10 == x % 10
  {
    var q, r := x / 10, x % 10;
    var a, b := q / p, q % p;
    assert q == a * p + b;
    assert x == a * (p * 10) + (b * 10 + r) by { assert a * (p * 10) == (a * p) * 10; }
    UniqueMod(x, p * 10, a, b * 10 + r);
  }

  lemma {:induction false} PaddedFront(x: nat, i: nat)
    requires x < Pow(10, i + 1)
    ensures Pow(10, i) > 0 && x / Pow(10, i) < 10
    ensures Padded(x, i + 1) == [Itoc(x / Pow(10, i))] + Padded(x % Pow(10, i), i)
  {
    hide Pow, Itoc;
    PowSteps(i);
    PowSteps(i + 1);
    PowPositive(i);
    DigitBound(x, Pow(10, i));
    if i > 0 {
      var p := Pow(10, i - 1);
      PowPositive(i - 1);
      DivDiv(x, p);
      PaddedFront(x / 10, i - 1);
      assert Pow(10, i) == p * 10;
      assert Padded(x, i + 1) == Padded(x / 10, i) + [Itoc(x % 10)];
      assert Padded(x % (p * 10), i) == Padded((x / 10) % p, i - 1) + [Itoc(x % 10)];
    }
  }

  lemma DigitBound(x: nat, p: nat)
    requires p > 0 && x < p * 10
    ensures x / p < 10
  {
    assert x == (x / p) * p + x % p;
    if x / p >= 10 { MulMonotone(10, x / p, p); }
  }

  lemma NotBelow(x: nat, p: nat)
    requires 0 < p <= x
    ensures x / p > 0
  {
    DivMod(x, p);
  }

  lemma PowSteps(i: nat)
    ensures Pow(10, 0) == 1 && (i > 0 ==> Pow(10, i) == Pow(10, i - 1) * 10)
  {
  }

  lemma PowPositive(i: nat)
    ensures Pow(10, i) > 0
  {
  }

  lemma {:induction false} NumeralPadded(x: nat, k: nat)
    requires Pow(10, k) <= x < Pow(10, k + 1) || (k == 0 && x < 10)
    ensures Numeral(x) == Padded(x, k + 1)
  {
    hide Pow, Itoc;
    PowSteps(0);
    PowSteps(1);
    PowSteps(k);
    PowSteps(k + 1);
    if x >= 10 {
      NumeralPadded(x / 10, k - 1);
    } else {
      PowSteps(k);
      PowPositive(if k > 0 then k - 1 else 0);
      assert Padded(x, 1) == Padded(x / 10, 0) + [Itoc(x % 10)];
    }
  }

  lemma {:induction false} WrittenStarted(x: nat, i: nat)
    requires i <= 20 && x < Pow(10, i)
    ensures PowersPositive() && Written(x, i, true) == Padded(x, i)
    decreases i
  {
    hide Pow, Power, Itoc;
    AllPowers();
    if i > 0 {
      hide Padded, Written;
      var c, r := NextDigit(x, i);
      WrittenStarted(r, i - 1);
    }
  }

  /** Once a digit has been written, every further one is. */
  lemma NextDigit(x: nat, i: nat) returns (c: char, r: nat)
    requires 0 < i <= 20 && x < Pow(10, i)
    ensures PowersPositive() && r < Pow(10, i - 1)
    ensures Written(x, i, true) == [c] + Written(r, i - 1, true) && Padded(x, i) == [c] + Padded(r, i - 1)
  {
    hide Pow, Power, Itoc, Padded;
    AllPowers();
    Powers(i - 1);
    PowPositive(i - 1);
    PaddedFront(x, i - 1);
    ItocDigit(0);
    var n1 := Pow(10, i - 1);
    DivMod(x, n1);
    c, r := Itoc(x / n1), x % n1;
    if x < n1 { UniqueMod(x, n1, 0, x); }
  }

  lemma {:induction false} WrittenFresh(x: nat, i: nat)
    requires i <= 20 && x < Pow(10, i)
    ensures PowersPositive() && Written(x, i, false) == if x == 0 then "" else Numeral(x)
  {
    hide Pow, Power, Itoc;
    AllPowers();
    PowSteps(i);
    if i > 0 {
      Powers(i - 1);
      var n1 := Pow(10, i - 1);
      if x < n1 {
        UniqueMod(x, n1, 0, x);
        WrittenFresh(x, i - 1);
      } else {
        PaddedFront(x, i - 1);
        NumeralPadded(x, i - 1);
        WrittenStarted(x % n1, i - 1);
        NotBelow(x, n1);
      }
    }
  }

  ghost predicate PowersPositive() { forall k :: 0 <= k <= 20 ==> Power(k) > 0 }

  lemma AllPowers()
    ensures PowersPositive()
  {
    forall k | 0 <= k <= 20 ensures Power(k) > 0 { Powers(if k <= 19 then k else 0); }
  }

  /** What itoa leaves in the buffer before the terminator. */
  function Printed(num: nat): string {
    AllPowers();
    var w := Written(num, 21, false);
    if w == "" then "0" else w
  }

  lemma {:induction false} NumeralLength(x: nat, k: nat)
    requires x < Pow(10, k) && k > 0
    ensures 0 < |Numeral(x)| <= k
    decreases k
  {
    hide Pow, Itoc;
    PowSteps(0);
    PowSteps(1);
    PowSteps(k);
    if x >= 10 {
      NumeralLength(x / 10, k - 1);
    }
  }

  lemma {:induction false} PaddedLength(x: nat, i: nat)
    ensures |Padded(x, i)| == i
  {
    if i > 0 { PaddedLength(x / 10, i - 1); }
  }

  /** itoa prints the numeral of every number below 10^20 mod 2^64 and of no other: from there
      on its first power has wrapped, and it writes 21 digits. */
  lemma PrintedIs(num: nat)
    requires num < WORD
    ensures Printed(num) == Numeral(num) <==> num < WRAPPED_POWER
    ensures num >= WRAPPED_POWER ==> |Printed(num)| == 21
  {
    AllPowers();
    Powers(0);
    BelowPower();
    hide Power, Pow;
    if num < WRAPPED_POWER {
      UniqueMod(num, WRAPPED_POWER, 0, num);
      WrittenFresh(num, 20);
    } else {
      WrittenStarted(num % WRAPPED_POWER, 20);
      PaddedLength(num % WRAPPED_POWER, 20);
      NumeralLength(num, 20);
    }
  }

  lemma BelowPower()
    ensures WORD < Pow(10, 20) && WRAPPED_POWER < WORD
  {
    PowValues();
    hide Pow;
  }

  lemma Divided(x: nat, p: nat)
    requires p > 0
    ensures Quotient(x, p) == x / p && Remainder(x, p) == x - p * Quotient(x, p)
  {
    DivMod(x, p);
  }

  lemma WrittenStep(num: nat, i: nat, flag: bool, n1: nat)
    requires 0 < i <= 21 && n1 == Power(i - 1)
    ensures PowersPositive() && n1 > 0
    ensures Written(num, i, flag) ==
      if Quotient(num, n1) != 0 then [Itoc(Quotient(num, n1))] + Written(Remainder(num, n1), i - 1, true)
      else if flag then "0" + Written(num, i - 1, true)
      else Written(num, i - 1, false)
  {
    hide Power, Pow, Itoc, Quotient, Remainder;
    AllPowers();
  }

  /** The loop of itoa over the caller's buffer. */
  method Itoa(out: array<char>, number: nat) returns (ghost len: nat)
    requires number < WORD && out.Length >= 22
    modifies out
    ensures len < out.Length && out[..len] == Printed(number) && out[len] == '\0'
  {
    AllPowers();
    hide Power, Pow, Written, PowersPositive, Itoc, Quotient, Remainder;
    var num, outI, flag, i := number, 0, false, 20;
    while i >= 0
      invariant -1 <= i <= 20 && 0 <= outI <= 20 - i && (flag <==> outI > 0) && 0 <= num
      invariant PowersPositive() && Completed(out[..outI], num, i + 1, flag) == Written(number, 21, false)
      decreases i
    {
      var n1 := PowU(10, i);
      PowerIs(i, n1);
      WrittenStep(num, i + 1, flag, n1);
      Divided(num, n1);
      var n2 := num / n1;
      ghost var was := out[..outI];
      if n2 != 0 {
        flag := true;
        out[outI] := Itoc(n2);
        outI := outI + 1;
        num := num - n1 * n2;
        assert out[..outI] == was + [Itoc(n2)];
      } else if flag {
        out[outI] := '0';
        outI := outI + 1;
        assert out[..outI] == was + "0";
      }
      i := i - 1;
    }
    RestEnds(out[..outI], num, flag);
    if outI == 0 {
      out[outI] := '0';
      outI := outI + 1;
      assert out[..outI] == "0";
    }
    out[outI] := '\0';
    len := outI;
  }

  lemma RestEnds(done: string, num: nat, flag: bool)
    requires PowersPositive()
    ensures Completed(done, num, 0, flag) == done
  {
  }

  lemma PowerIs(i: nat, n: nat)
    requires n == Pow(10, i) % WORD
    ensures n == Power(i)
  {
  }

  function Completed(done: string, num: nat, i: nat, flag: bool): string
    requires i <= 21 && PowersPositive()
  {
    done + Written(num, i, flag)
  }

  // ---------------------------------------------------------------- atoi

  predicate FitsInt(x: int) { INT_MIN <= x <= INT_MAX }

  /** The narrowing of powi's result to int. */
  function ToInt(x: int): int { (x + 0x8000_0000) % 0x1_0000_0000 - 0x8000_0000 }

  /** num /= 10, towards zero. */
  function Tenth(x: int): int { if x >= 0 then x / 10 else -((-x) / 10) }

  /** powi (10, b); None where the signed product overflows, which leaves its value undefined. */
  function PowI(b: nat): Option<int> {
    if b <= 18 then Some(Pow(10, b)) else None
  }

  /** The loop of atoi from character i on; None where an int overflows. */
  function Parse(s: string, i: nat, out: int, num: int): Option<nat>
    requires i <= |s|
    decreases |s| - i
  {
    if i == |s| then Some(out % 0x1_0000_0000)
    else if !IsDigit(s[i]) then Some(0)
    else if s[i] == '0' then Parse(s, i + 1, out, Tenth(num))
    else
      var d := Digit(s[i]) * num;
      if FitsInt(d) && FitsInt(out + d) then Parse(s, i + 1, out + d, Tenth(num)) else None
  }

  /** Parsing the characters before the terminator. */
  function Parsed(s: string): Option<nat>
    requires |s| < WORD
  {
    match PowI((|s| + WORD - 1) % WORD)
    case None => None
    case Some(p) => Parse(s, 0, 0, ToInt(p))
  }

  lemma PowSmall(b: nat)
    ensures (b <= 9 ==> Pow(10, b) <= 1000000000) && Pow(10, 10) == 10000000000
    ensures b <= 18 ==> Pow(10, b) <= 1000000000000000000
    ensures b >= 19 ==> Pow(10, b) > 0x7fff_ffff_ffff_ffff
  {
    hide Pow;
    PowValues();
    if b <= 9 { PowMonotone(b, 9); }
    if b <= 18 { PowMonotone(b, 18); } else { PowMonotone(19, b); }
  }

  function Raised(a: int, b: nat): int {
    if b == 0 then 1 else Raised(a, b - 1) * a
  }

  predicate Fits64(x: int) { -0x8000_0000_0000_0000 <= x <= 0x7fff_ffff_ffff_ffff }

  /** Once a power has left the signed range, no later one comes back into it. */
  lemma {:induction false} StaysOut(a: int, i: nat, b: nat)
    requires i <= b && !Fits64(Raised(a, i))
    ensures !Fits64(Raised(a, b))
    decreases b - i
  {
    if i < b {
      var x := Raised(a, i);
      if -1 <= a <= 1 {
        UnitPower(a, i);
      } else {
        Outward(x, a);
        assert Raised(a, i + 1) == x * a;
        StaysOut(a, i + 1, b);
      }
    }
  }

  lemma Outward(x: int, a: int)
    requires !Fits64(x) && (a < -1 || a > 1)
    ensures x * a < -0x8000_0000_0000_0000 || x * a > 0x8000_0000_0000_0000
  {
    if x > 0 && a > 1 { MulMonotone(2, a, x); }
    if x > 0 && a < -1 { MulMonotone(2, -a, x); assert (-a) * x == -(x * a); }
    if x < 0 && a > 1 { MulMonotone(2, a, -x); assert a * -x == -(x * a); }
    if x < 0 && a < -1 { MulMonotone(2, -a, -x); assert (-a) * (-x) == x * a; }
  }

  lemma {:induction false} UnitPower(a: int, i: nat)
    requires -1 <= a <= 1
    ensures -1 <= Raised(a, i) <= 1
  {
    if i > 0 { UnitPower(a, i - 1); }
  }

  lemma {:induction false} RaisedTen(b: nat)
    ensures Raised(10, b) == Pow(10, b)
  {
    if b > 0 { RaisedTen(b - 1); }
  }

  /** The signed power, with a value exactly while it fits; then no product on the way overflows. */
  method PowInt(a: int, b: nat) returns (out: Option<int>)
    requires Fits64(a)
    ensures out == if Fits64(Raised(a, b)) then Some(Raised(a, b)) else None
  {
    var v := 1;
    for i := 0 to b
      invariant v == Raised(a, i) && Fits64(v)
    {
      v := v * a;
      if !Fits64(v) {
        StaysOut(a, i + 1, b);
        return None;
      }
    }
    return Some(v);
  }

  method Atoi(s: string) returns (r: Option<nat>)
    requires |s| < WORD
    ensures r == Parsed(s)
  {
    var p := PowInt(10, (|s| + WORD - 1) % WORD);
    RaisedTen((|s| + WORD - 1) % WORD);
    PowSmall((|s| + WORD - 1) % WORD);
    if p.None? {
      return None;
    }
    var out, num := 0, ToInt(p.value);
    for i := 0 to |s|
      invariant Parse(s, i, out, num) == Parsed(s)
    {
      if !IsDigit(s[i]) {
        return Some(0);
      }
      if s[i] != '0' {
        var d := Digit(s[i]) * num;
        if !FitsInt(d) || !FitsInt(out + d) {
          return None;
        }
        out := out + d;
      }
      num := Tenth(num);
    }
    return Some(out % 0x1_0000_0000);
  }

  lemma Group10(d: nat, p: nat, v: nat, e: nat)
    ensures (d * p + v) * 10 + e == d * (p * 10) + (v * 10 + e)
  {
  }

  lemma {:induction false} ValueFront(c: char, s: string)
    requires IsDigit(c) && forall d :: d in s ==> IsDigit(d)
    ensures forall d :: d in [c] + s ==> IsDigit(d)
    ensures Value([c] + s) == Digit(c) * Pow(10, |s|) + Value(s)
    decreases |s|
  {
    hide Pow, Digit, IsDigit;
    PowSteps(|s|);
    NoValue();
    var l := [c] + s;
    if s == [] {
      assert l[..0] == [];
    } else {
      var n := |s| - 1;
      ValueFront(c, s[..n]);
      assert l[..n + 1] == [c] + s[..n];
      Group10(Digit(c), Pow(10, n), Value(s[..n]), Digit(s[n]));
    }
  }

  lemma DigitTimes(c: char, num: int)
    requires IsDigit(c) && num >= 0
    ensures Digit(c) * num >= 0 && (c == '0' ==> Digit(c) * num == 0)
  {
  }

  lemma NoValue()
    ensures Value([]) == 0
  {
  }

  lemma TenthOfPow(n: nat)
    ensures Tenth(Pow(10, n)) == if n > 0 then Pow(10, n - 1) else 0
  {
    PowSteps(n);
  }

  /** Up to ten digits are parsed exactly, as long as the number is an int. */
  lemma {:induction false} ParseIs(s: string, i: nat, out: int, num: int)
    requires |s| <= 10 && i <= |s| && (forall d :: d in s ==> IsDigit(d)) && 0 <= out <= INT_MAX
    requires num == if i < |s| then Pow(10, |s| - 1 - i) else 0
    ensures forall d :: d in s[i..] ==> IsDigit(d)
    ensures Parse(s, i, out, num) == if out + Value(s[i..]) <= INT_MAX then Some(out + Value(s[i..])) else None
    decreases |s| - i
  {
    hide Pow, Tenth, Value, Digit;
    NoValue();
    if i < |s| {
      var rest := s[i + 1..];
      assert s[i..] == [s[i]] + rest;
      ValueFront(s[i], rest);
      PowSmall(|rest|);
      TenthOfPow(|rest|);
      var d := Digit(s[i]) * num;
      DigitTimes(s[i], num);
      if out + d <= INT_MAX { ParseIs(s, i + 1, out + d, Tenth(num)); }
    } else {
      assert s[i..] == [];
    }
  }

  lemma ParsedShort(s: string)
    requires 0 < |s| <= 10 && forall d :: d in s ==> IsDigit(d)
    ensures Parsed(s) == if Value(s) <= INT_MAX then Some(Value(s)) else None
  {
    hide Pow, Parse, ToInt, Value;
    PowSmall(|s| - 1);
    LessOne(|s|);
    Narrowed(Pow(10, |s| - 1));
    assert s[0..] == s;
    ParseIs(s, 0, 0, Pow(10, |s| - 1));
  }

  /** Anything that is not a digit makes the result 0, whatever stands before it, as long as no int
      can overflow on the way. */
  lemma {:induction false} ParseRefuses(s: string, i: nat, j: nat, out: int, num: int)
    requires i <= j < |s| && !IsDigit(s[j]) && num == Pow(10, |s| - 1 - i) && 0 <= out && out + 10 * num <= INT_MAX
    ensures Parse(s, i, out, num) == Some(0)
    decreases j - i
  {
    hide Pow, Tenth, Digit;
    if i < j && IsDigit(s[i]) {
      PowSteps(|s| - 1 - i);
      TenthOfPow(|s| - 1 - i);
      var d := Digit(s[i]) * num;
      DigitTimes(s[i], num);
      NineTimes(s[i], num);
      ParseRefuses(s, i + 1, j, if s[i] == '0' then out else out + d, Tenth(num));
    }
  }

  lemma NineTimes(c: char, num: int)
    requires IsDigit(c) && num >= 0
    ensures Digit(c) * num <= 9 * num
  {
  }

  lemma ParsedBad(s: string, j: nat)
    requires j < |s| <= 9 && !IsDigit(s[j])
    ensures Parsed(s) == Some(0)
  {
    hide Pow, Parse, ToInt;
    PowSmall(|s| - 1);
    PowSmall(|s|);
    PowSteps(|s|);
    LessOne(|s|);
    Narrowed(Pow(10, |s| - 1));
    ParseRefuses(s, 0, j, 0, Pow(10, |s| - 1));
  }

  lemma ParsedLong(s: string)
    requires 20 <= |s| < WORD
    ensures Parsed(s) == None
  {
    LessOne(|s|);
  }

  /** Printing and parsing give the number back exactly when it is an int. */
  lemma RoundTrip(x: nat)
    requires x < WORD
    ensures |Printed(x)| < WORD && (Parsed(Printed(x)) == Some(x) <==> x <= INT_MAX)
  {
    hide Pow, Printed, Parsed, IsDigit, Value, Numeral;
    PrintedIs(x);
    if x >= WRAPPED_POWER {
      ParsedLong(Printed(x));
    } else {
      NumeralValue(x);
      BelowPower();
      PowSmall(0);
      NumeralLength(x, 20);
      if x < Pow(10, 10) {
        NumeralLength(x, 10);
        ParsedShort(Numeral(x));
      } else {
        Below32(Numeral(x));
      }
    }
  }

  lemma LessOne(n: nat)
    requires 0 < n < WORD
    ensures (n + WORD - 1) % WORD == n - 1
  {
  }

  lemma Narrowed(x: int)
    requires 0 <= x <= 1000000000
    ensures ToInt(x) == x
  {
  }

  lemma Below32(s: string)
    requires |s| < WORD
    ensures Parsed(s).Some? ==> Parsed(s).value < 0x1_0000_0000
  {
    if PowI((|s| + WORD - 1) % WORD).Some? { Parse32(s, 0, 0, ToInt(PowI((|s| + WORD - 1) % WORD).value)); }
  }

  lemma {:induction false} Parse32(s: string, i: nat, out: int, num: int)
    requires i <= |s|
    ensures Parse(s, i, out, num).Some? ==> Parse(s, i, out, num).value < 0x1_0000_0000
    decreases |s| - i
  {
    if i < |s| && IsDigit(s[i]) {
      if s[i] == '0' { Parse32(s, i + 1, out, Tenth(num)); }
      else { Parse32(s, i + 1, out + Digit(s[i]) * num, Tenth(num)); }
    }
  }

  // ---------------------------------------------------------------- itoa_hex

  function HexDigit(c: char): nat {
    if '0' <= c <= '9' then (c - '0') as nat else if 'a' <= c <= 'f' then (c - 'a') as nat + 10 else 0
  }

  function HexValue(s: string): nat {
    if s == [] then 0 else HexValue(s[..|s| - 1]) * 16 + HexDigit(s[|s| - 1])
  }

  lemma HexDigits(n: nat)
    requires n < 16
    ensures HexDigit(Itoc(n)) == n && (IsDigit(Itoc(n)) || 'a' <= Itoc(n) <= 'f')
  {
  }

  lemma Group16(d: nat, p: nat, v: nat, e: nat)
    ensures (d * p + v) * 16 + e == d * (p * 16) + (v * 16 + e)
  {
  }

  lemma {:induction false} HexFront(c: char, s: string)
    ensures HexValue([c] + s) == HexDigit(c) * Pow(16, |s|) + HexValue(s)
    decreases |s|
  {
    hide HexDigit;
    var l := [c] + s;
    if s == [] {
      assert l[..0] == [];
    } else {
      var n := |s| - 1;
      HexFront(c, s[..n]);
      Group16(HexDigit(c), Pow(16, n), HexValue(s[..n]), HexDigit(s[n]));
      assert l[..n + 1] == [c] + s[..n];
    }
  }

  /** One digit moves from the number to the buffer. */
  lemma HexStep(num: nat, i: nat, k: nat, h: nat)
    requires num < Pow(16, i + 1)
    ensures num / 16 < Pow(16, i)
    ensures (num / 16) * Pow(16, k + 1) + ((num % 16) * Pow(16, k) + h) == num * Pow(16, k) + h
  {
    var p, q, r := Pow(16, k), num / 16, num % 16;
    assert q * (p * 16) + r * p == (q * 16 + r) * p;
    assert num == q * 16 + r;
  }

  lemma NoHex(s: string)
    ensures s == [] ==> HexValue(s) == 0
  {
  }

  lemma HexRange()
    ensures Pow(16, 16) == WORD && Pow(16, 0) == 1
  {
    assert Pow(16, 8) == 0x1_0000_0000;
  }

  /** Sixteen hexadecimal digits that stand for the number. */
  method ItoaHex(out: array<char>, number: nat)
    requires number < WORD && out.Length >= 17
    modifies out
    ensures HexValue(out[..16]) == number && out[16] == '\0'
    ensures forall i :: 0 <= i < 16 ==> IsDigit(out[i]) || 'a' <= out[i] <= 'f'
  {
    hide Pow, HexValue, HexDigit;
    var num: nat, i := number, 15;
    HexRange();
    NoHex(out[16..16]);
    while i >= 0
      invariant -1 <= i <= 15 && num < Pow(16, i + 1)
      invariant num * Pow(16, 15 - i) + HexValue(out[i + 1..16]) == number
      invariant forall j :: i < j < 16 ==> IsDigit(out[j]) || 'a' <= out[j] <= 'f'
    {
      ghost var rest := out[i + 1..16];
      HexDigits(num % 16);
      HexFront(Itoc(num % 16), rest);
      HexStep(num, i, 15 - i, HexValue(rest));
      out[i] := Itoc(num % 16);
      assert out[i..16] == [Itoc(num % 16)] + rest;
      num := num / 16;
      i := i - 1;
    }
    out[16] := '\0';
    assert num == 0 && out[0..16] == out[..16];
  }
}
