/** Bit operations of Python integers and numpy unsigned words, on naturals. */
module Bits {

  /** x << n */
  function Shl(x: nat, n: nat): nat {
    if n == 0 then x else 2 * Shl(x, n - 1)
  }

  /** x >> n */
  function Shr(x: nat, n: nat): nat {
    if n == 0 then x else Shr(x / 2, n - 1)
  }

  /** a | b */
  function Or(a: nat, b: nat): nat {
    if a == 0 then b
    else if b == 0 then a
    else (if a % 2 == 1 || b % 2 == 1 then 1 else 0) + 2 * Or(a / 2, b / 2)
  }

  /** a & b */
  function And(a: nat, b: nat): nat {
    if a == 0 || b == 0 then 0
    else (if a % 2 == 1 && b % 2 == 1 then 1 else 0) + 2 * And(a / 2, b / 2)
  }

  lemma {:induction false} ShlAdd(x: nat, y: nat, n: nat)
    ensures Shl(x + y, n) == Shl(x, n) + Shl(y, n)
  {
    if n > 0 { ShlAdd(x, y, n - 1); }
  }

  lemma {:induction false} ShlShl(x: nat, m: nat, n: nat)
    ensures Shl(Shl(x, m), n) == Shl(x, m + n)
  {
    if n > 0 { ShlShl(x, m, n - 1); }
  }

  lemma {:induction false} ShrShr(x: nat, m: nat, n: nat)
    ensures Shr(Shr(x, m), n) == Shr(x, m + n)
  {
    if m > 0 { ShrShr(x / 2, m - 1, n); }
  }

  lemma {:induction false} ShlMonotone(x: nat, y: nat, n: nat)
    ensures x < y ==> Shl(x, n) + Shl(1, n) <= Shl(y, n)
    ensures x <= y ==> Shl(x, n) <= Shl(y, n)
    ensures Shl(0, n) == 0 < Shl(1, n)
  {
    if n > 0 { ShlMonotone(x, y, n - 1); }
  }

  /** OR-ing a value shifted past all bits of `a` is addition. */
  lemma {:induction false} OrDisjoint(a: nat, c: nat, n: nat)
    requires a < Shl(1, n)
    ensures Or(a, Shl(c, n)) == a + Shl(c, n)
  {
    if n > 0 {
      OrDisjoint(a / 2, c, n - 1);
    }
  }

  lemma {:induction false} OrCommutes(a: nat, b: nat)
    ensures Or(a, b) == Or(b, a)
  {
    if a != 0 && b != 0 { OrCommutes(a / 2, b / 2); }
  }

  /** Shifting out a low field leaves what was stored above it. */
  lemma {:induction false} ShrSplit(low: nat, high: nat, n: nat)
    requires low < Shl(1, n)
    ensures Shr(low + Shl(high, n), n) == high
  {
    if n > 0 {
      assert (low + Shl(high, n)) / 2 == low / 2 + Shl(high, n - 1);
      ShrSplit(low / 2, high, n - 1);
    }
  }

  /** A mask of n ones keeps the value modulo 2^n: the low part of a low/high split. */
  lemma {:induction false} AndLow(low: nat, high: nat, n: nat)
    requires low < Shl(1, n)
    ensures And(low + Shl(high, n), Shl(1, n) - 1) == low
  {
    if n > 0 {
      var x, mask := low + Shl(high, n), Shl(1, n) - 1;
      ShlMonotone(0, 1, n - 1);
      assert x / 2 == low / 2 + Shl(high, n - 1) && mask / 2 == Shl(1, n - 1) - 1;
      assert x % 2 == low % 2 && mask % 2 == 1;
      AndLow(low / 2, high, n - 1);
    }
  }

  /** A mask whose low n bits are clear acts on the value above those bits. */
  lemma {:induction false} AndHigh(x: nat, mask: nat, n: nat)
    ensures And(x, Shl(mask, n)) == Shl(And(Shr(x, n), mask), n)
  {
    if n > 0 {
      AndHigh(x / 2, mask, n - 1);
      if Shl(mask, n) == 0 {
        ShlZero(mask, n);
        ShlMonotone(0, 0, n);
      } else if x == 0 {
        ShrZero(n);
        ShlMonotone(0, 0, n);
      }
    }
  }

  lemma {:induction false} ShlZero(x: nat, n: nat)
    ensures Shl(x, n) == 0 <==> x == 0
  {
    if n > 0 { ShlZero(x, n - 1); }
  }

  lemma {:induction false} ShrZero(n: nat)
    ensures Shr(0, n) == 0
  {
    if n > 0 { ShrZero(n - 1); }
  }

  /** Every number splits into its low n bits and the rest. */
  lemma {:induction false} SplitAt(x: nat, n: nat) returns (low: nat)
    ensures low < Shl(1, n) && x == low + Shl(Shr(x, n), n)
  {
    if n == 0 {
      low := 0;
    } else {
      var l := SplitAt(x / 2, n - 1);
      low := 2 * l + x % 2;
    }
  }

  lemma ShlTimes16(x: nat, n: nat)
    ensures Shl(x, n + 4) == 16 * Shl(x, n)
  {
    assert Shl(x, n + 4) == 2 * Shl(x, n + 3) == 4 * Shl(x, n + 2) == 8 * Shl(x, n + 1);
  }

  lemma {:induction false} ShlScales(x: nat, n: nat)
    ensures Shl(x, n) == Shl(1, n) * x
  {
    if n > 0 { ShlScales(x, n - 1); }
  }

  /** The powers of two behind the masks and shifts of the wire format. */
  lemma Powers()
    ensures Shl(1, 1) == 0x2 && Shl(1, 2) == 0x4 && Shl(1, 3) == 0x8 && Shl(1, 4) == 0x10
    ensures Shl(1, 12) == 0x1000 && Shl(1, 16) == 0x1_0000
    ensures Shl(1, 28) == 0x1000_0000 && Shl(1, 32) == 0x1_0000_0000
  {
    assert Shl(1, 3) == 2 * Shl(1, 2) == 4 * Shl(1, 1) == 8;
    ShlTimes16(1, 0); ShlTimes16(1, 4); ShlTimes16(1, 8); ShlTimes16(1, 12);
    ShlTimes16(1, 16); ShlTimes16(1, 20); ShlTimes16(1, 24); ShlTimes16(1, 28);
  }

  /** A mask of n ones is the remainder, and a shift by n the quotient, of division by 2^n. */
  lemma LowMask(x: nat, n: nat, p: nat)
    requires p == Shl(1, n) > 0
    ensures And(x, p - 1) == x % p
    ensures Shr(x, n) == x / p
  {
    var low := SplitAt(x, n);
    AndLow(low, Shr(x, n), n);
    ShlScales(Shr(x, n), n);
    DivModUnique(x, p, Shr(x, n), low);
  }

  function Power2(n: nat): (p: nat)
    ensures p > 0
  {
    if n == 0 then 1 else 2 * Power2(n - 1)
  }

  lemma {:induction false} ShlOne(n: nat)
    ensures Shl(1, n) == Power2(n)
  {
    if n > 0 { ShlOne(n - 1); }
  }

  /** Shifts and low masks in numbers. */
  lemma ShiftsAre(x: nat, n: nat)
    ensures Shl(x, n) == Power2(n) * x && Shr(x, n) == x / Power2(n)
    ensures And(x, Power2(n) - 1) == x % Power2(n)
  {
    ShlOne(n);
    ShlScales(x, n);
    LowMask(x, n, Power2(n));
  }

  lemma DivModUnique(x: nat, p: nat, q: nat, r: nat)
    requires r < p && x == r + p * q
    ensures x / p == q && x % p == r
  {
    var q', r' := x / p, x % p;
    assert p * (q' - q) == r - r';
    SmallMultiple(p, q' - q);
  }

  lemma SmallMultiple(p: int, k: int)
    requires -p < p * k < p
    ensures k == 0
  {
    assert k >= 1 ==> p * k >= p;
    assert k <= -1 ==> p * k <= -p;
  }

  /** A mask of ones from bit n to bit n + m - 1 keeps the bits between two remainders. */
  lemma HighMask(x: nat, n: nat, p: nat, m: nat, q: nat, mask: nat)
    requires p == Shl(1, n) > 0 && q == Shl(1, m) > 0 && mask == p * (q - 1)
    ensures And(x, mask) == p * ((x / p) % q)
  {
    LowMask(x, n, p);
    LowMask(x / p, m, q);
    AndHigh(x, q - 1, n);
    var kept := And(Shr(x, n), q - 1);
    ShlScales(q - 1, n);
    ShlScales(kept, n);
    assert Shl(kept, n) == p * kept;
  }

  lemma MiddleBits(x: nat)
    ensures 0x10 * ((x / 0x10) % 0x1000) == x % 0x1_0000 - x % 0x10
    ensures x < 0x1_0000_0000 ==> 0x10 * ((x / 0x10) % 0x1000_0000) == x - x % 0x10
  {
  }

  /** bits & 0xFFF0: the low sixteen bits, with the low four cleared. */
  lemma ClearBiasFlags(x: nat)
    ensures And(x, 0xFFF0) == x % 0x1_0000 - x % 0x10
  {
    Powers();
    HighMask(x, 4, 0x10, 12, 0x1000, 0xFFF0);
    MiddleBits(x);
  }

  /** word & 0xFFFFFFF0: the low four bits are cleared. */
  lemma ClearWordFlags(x: nat)
    requires x < 0x1_0000_0000
    ensures And(x, 0xFFFF_FFF0) == x - x % 0x10
  {
    Powers();
    HighMask(x, 4, 0x10, 28, 0x1000_0000, 0xFFFF_FFF0);
    MiddleBits(x);
  }
}
