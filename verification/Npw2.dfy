/** The portable next power of two (lfs_npw2) and the skip counts computed from it. */
module Npw2 {
  import opened Arith
  import opened CtzIndex
  import opened CtzList

  /** `r` is the exponent of the smallest power of two not below `a`. */
  predicate IsCeiling(a: nat, r: nat) { a <= Pow2(r) && (r > 0 ==> Pow2(r - 1) < a) }

  /** What the portable code returns; 0 wraps to the largest 32-bit number first. */
  function Npw2Value(a: nat): nat
    requires a < LIMIT
  {
    if a == 0 then 32 else if a == 1 then 1 else Log2(a - 1) + 1
  }

  /** The result is what its description says exactly from 2 on; for 1 it is 1 and not 0. */
  lemma Npw2Exact(a: nat)
    requires a < LIMIT
    ensures IsCeiling(a, Npw2Value(a)) <==> a >= 2
  {
    if a >= 2 {
      Log2Bounds(a - 1);
    } else if a == 1 {
      assert Pow2(0) == 1;
    }
  }

  lemma {:induction false} DivPow(x: nat, k: nat)
    requires x >= Pow2(k)
    ensures x / Pow2(k) > 0 && Log2(x) == k + Log2(x / Pow2(k))
    decreases k
  {
    if k > 0 {
      DivPow(x / 2, k - 1);
      HalfThenRest(x, Pow2(k - 1));
      assert x > 1 by { assert Pow2(k - 1) >= 1; }
    } else {
      assert x / 1 == x;
    }
  }

  lemma HalfThenRest(x: nat, d: nat)
    requires d > 0
    ensures x / (2 * d) == x / 2 / d
  {
    var q, r, b := x / 2 / d, x / 2 % d, x % 2;
    assert x == 2 * (d * q + r) + b == (2 * d) * q + (2 * r + b);
    DivModUnique(x, 2 * d, q, 2 * r + b);
  }

  lemma SmallPowers()
    ensures Pow2(2) == 4 && Pow2(4) == 16 && Pow2(8) == 256 && Pow2(16) == 65536
  {
    Pow2Add(8, 8);
  }

  /** One halving step: `x` is shifted by `s` if it has more than `s` bits. */
  method Shift(x: nat, s: nat) returns (y: nat, n: nat)
    ensures n == if x >= Pow2(s) then s else 0
    ensures y == x / Pow2(n)
    ensures x > 0 ==> y > 0 && Log2(x) == n + Log2(y)
    ensures x < Pow2(s) * Pow2(s) ==> y < Pow2(s)
  {
    n := if x >= Pow2(s) then s else 0;
    if n == s { ShiftedBelow(x, Pow2(s)); }
    if x > 0 { DivPow(x, n); }
    y := x / Pow2(n);
  }

  lemma ShiftedBelow(x: nat, d: nat)
    requires d > 0
    ensures x < d * d ==> x / d < d
  {
    if x / d >= d { MulMonotone(d, d, x / d); }
  }

  /** lfs_npw2 without a built-in: five steps of binary search for the highest bit. */
  method LfsNpw2(a: nat) returns (r: nat)
    requires a < LIMIT
    ensures r == Npw2Value(a)
  {
    hide Pow2, Log2;
    SmallPowers();
    var x, s := (a + LIMIT - 1) % LIMIT, 0;
    ghost var x0 := x;
    Wraps(a);
    x, r := Shift(x, 16);
    x, s := Shift(x, 8);
    r := r + s;
    x, s := Shift(x, 4);
    r := r + s;
    x, s := Shift(x, 2);
    r := r + s + x / 2 + 1;
    LastStep(x);
    if a == 0 { LargestLog(); }
  }

  lemma Wraps(a: nat)
    requires a < LIMIT
    ensures (a + LIMIT - 1) % LIMIT == if a == 0 then LIMIT - 1 else a - 1
  {
    if a > 0 { DivModUnique(a + LIMIT - 1, LIMIT, 1, a - 1); }
  }

  lemma LastStep(x: nat)
    requires x < 4
    ensures x > 0 ==> Log2(x) == x / 2
  {
  }

  lemma LargestLog()
    ensures Log2(LIMIT - 1) == 31
  {
    SmallPowers();
    DivPow(LIMIT - 1, 16);
    DivPow(0xffff, 8);
    assert Log2(0xff) == 7 by { DivPow(0xff, 4); }
  }

  /** The number of blocks a hop may cross, computed as the list search does. */
  lemma HopIsLog(distance: nat)
    requires 0 < distance < LIMIT - 1
    ensures Npw2Value(distance + 1) - 1 == Log2(distance)
  {
  }

  /** Trailing zeros from the lowest set bit, as the portable lfs_ctz computes them. */
  lemma LowBitGivesCtz(a: nat)
    requires 0 < a < LIMIT && Pow2(Ctz(a)) + 1 < LIMIT
    ensures Npw2Value(Pow2(Ctz(a)) + 1) - 1 == Ctz(a)
  {
    LogOfPower(Ctz(a));
  }

  lemma {:induction false} LogOfPower(k: nat)
    ensures Log2(Pow2(k)) == k
  {
    if k > 0 {
      LogOfPower(k - 1);
      assert Pow2(k) / 2 == Pow2(k - 1);
    }
  }
}
