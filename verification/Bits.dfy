/**
  The C bitwise operators on unsigned values, defined bit by bit, and the two
  tricks the toolchain builds on them: "a & (a - 1) == 0" as the test for a power
  of two and "(v + a - 1) & ~(a - 1)" as rounding up.
 */
module Bits {

  function Pow2(n: nat): (r: nat)
    ensures r >= 1
  {
    if n == 0 then 1 else 2 * Pow2(n - 1)
  }

  predicate Bit(x: nat, k: nat) {
    if k == 0 then x % 2 == 1 else Bit(x / 2, k - 1)
  }

  function And(x: nat, y: nat): nat {
    if x == 0 || y == 0 then 0
    else (if x % 2 == 1 && y % 2 == 1 then 1 else 0) + 2 * And(x / 2, y / 2)
  }

  function Or(x: nat, y: nat): nat {
    if x == 0 then y else if y == 0 then x
    else (if x % 2 == 1 || y % 2 == 1 then 1 else 0) + 2 * Or(x / 2, y / 2)
  }

  function Xor(x: nat, y: nat): nat {
    if x == 0 then y else if y == 0 then x
    else (if x % 2 == y % 2 then 0 else 1) + 2 * Xor(x / 2, y / 2)
  }

  lemma {:induction false} ZeroBits(k: nat)
    ensures !Bit(0, k)
  {
    if k > 0 { ZeroBits(k - 1); }
  }

  /** The three operators act on each bit separately. */
  lemma {:induction false} BitwiseBits(x: nat, y: nat, k: nat)
    ensures Bit(And(x, y), k) <==> Bit(x, k) && Bit(y, k)
    ensures Bit(Or(x, y), k) <==> Bit(x, k) || Bit(y, k)
    ensures Bit(Xor(x, y), k) <==> Bit(x, k) != Bit(y, k)
    decreases k
  {
    ZeroBits(k);
    if k > 0 { BitwiseBits(x / 2, y / 2, k - 1); }
  }

  /** None of the operators leaves the width of its operands. */
  lemma {:induction false} BitwiseBound(x: nat, y: nat, n: nat)
    requires x < Pow2(n) && y < Pow2(n)
    ensures And(x, y) < Pow2(n) && Or(x, y) < Pow2(n) && Xor(x, y) < Pow2(n)
  {
    if n > 0 { BitwiseBound(x / 2, y / 2, n - 1); }
  }

  /** Accumulating a shifted value above the bits already present is addition. */
  lemma {:induction false} OrIsAdd(x: nat, y: nat, k: nat)
    requires x < Pow2(k)
    ensures Or(x, y * Pow2(k)) == x + y * Pow2(k)
    decreases k
  {
    if k > 0 && x > 0 && y > 0 {
      var p := Pow2(k - 1);
      assert y * Pow2(k) == 2 * (y * p);
      OrIsAdd(x / 2, y, k - 1);
      assert y * Pow2(k) > 0;
    }
  }

  lemma {:induction false} AndSelf(x: nat)
    ensures And(x, x) == x
  {
    if x > 0 { AndSelf(x / 2); }
  }

  lemma {:induction false} Pow2Add(a: nat, b: nat)
    ensures Pow2(a + b) == Pow2(a) * Pow2(b)
  {
    if a > 0 { Pow2Add(a - 1, b); }
  }

  lemma {:induction false} Pow2Monotone(a: nat, b: nat)
    requires a <= b
    ensures Pow2(a) <= Pow2(b)
    decreases b - a
  {
    if a < b { Pow2Monotone(a + 1, b); }
  }

  lemma {:induction false} PowerOfTwoClearsLowBit(k: nat)
    ensures And(Pow2(k), Pow2(k) - 1) == 0
  {
    if k > 0 {
      PowerOfTwoClearsLowBit(k - 1);
      assert (Pow2(k) - 1) / 2 == Pow2(k - 1) - 1;
    }
  }

  lemma {:induction false} ClearLowBitPowerOfTwo(a: nat) returns (k: nat)
    requires a > 0 && And(a, a - 1) == 0
    ensures a == Pow2(k)
    decreases a
  {
    if a == 1 {
      k := 0;
    } else if a % 2 == 1 {
      assert (a - 1) / 2 == a / 2;
      AndSelf(a / 2);
      assert false;
    } else {
      assert (a - 1) / 2 == a / 2 - 1;
      var j := ClearLowBitPowerOfTwo(a / 2);
      k := j + 1;
    }
  }

  /** Two powers of two are ordered by divisibility. */
  lemma {:induction false} Pow2Divides(j: nat, k: nat)
    requires j <= k
    ensures Pow2(k) % Pow2(j) == 0
  {
    Pow2Add(k - j, j);
    MultipleMod(Pow2(k - j), Pow2(j));
  }

  lemma MultipleMod(q: int, d: int)
    requires d > 0
    ensures (q * d) % d == 0
  {
    DivModUnique(q * d, d, q, 0);
  }

  /** Quotient and remainder are the only pair with a remainder below the divisor. */
  lemma DivModUnique(x: int, d: int, q: int, r: int)
    requires d > 0 && 0 <= r < d && x == q * d + r
    ensures x / d == q && x % d == r
  {
    DistinctMultiples(q - x / d, d, x % d - r);
  }

  lemma DistinctMultiples(n: int, d: int, gap: int)
    requires d > 0 && n * d == gap && -d < gap < d
    ensures n == 0
  {
    assert n >= 1 ==> n * d >= d;
    assert n <= -1 ==> n * d <= -d;
  }

  lemma QuotientShrinks(a: nat, b: nat)
    requires b > 0
    ensures a / b <= a && (b >= 2 ==> 2 * (a / b) <= a) && (b == 1 ==> a / b == a)
  {
    assert a == (a / b) * b + a % b;
    Shrinks(a, b, a / b, a % b);
  }

  lemma Shrinks(a: nat, b: nat, q: int, r: nat)
    requires b > 0 && a == q * b + r && r < b
    ensures 0 <= q <= a && (b >= 2 ==> 2 * q <= a) && (b == 1 ==> q == a)
  {
    if q < 0 { MulMonotone(q, -1, b); }
    if b >= 2 && q >= 0 { MulMonotone(2, b, q); }
    if b == 1 { assert q * 1 == q; }
  }

  lemma MulMonotone(x: int, y: int, z: nat)
    requires x <= y
    ensures x * z <= y * z && z * x <= z * y
  {
    assert (y - x) * z >= 0;
  }

  /** A multiple of a multiple is a multiple. */
  lemma DividesTransitive(x: int, m: int, d: int)
    requires m > 0 && d > 0 && x % m == 0 && m % d == 0
    ensures x % d == 0
  {
    var q, e := x / m, m / d;
    assert x == q * m && m == e * d;
    assert x == (q * e) * d by { assert q * (e * d) == (q * e) * d; }
    MultipleMod(q * e, d);
  }

  lemma SumDivides(x: int, y: int, d: int)
    requires d > 0 && x % d == 0 && y % d == 0
    ensures (x + y) % d == 0
  {
    var a, b := x / d, y / d;
    assert x == a * d && y == b * d;
    assert x + y == (a + b) * d;
    MultipleMod(a + b, d);
  }

  /** Taking the remainder one digit of base b at a time. */
  lemma ModScale(y: nat, b: nat, p: nat)
    requires b > 0 && p > 0
    ensures b * p > 0
    ensures y % (b * p) == b * ((y / b) % p) + y % b
  {
    var h := y / b;
    var q, r := h / p, h % p;
    ScaleBound(r, b, p);
    assert y == b * h + y % b;
    assert b * h == q * (b * p) + b * r by { Distribute(b, q, p, r); }
    DivModUnique(y, b * p, q, b * r + y % b);
  }

  lemma ScaleBound(r: nat, b: nat, p: nat)
    requires r < p && b > 0
    ensures b * p > 0 && b * r + b <= b * p
  {
    assert b * (r + 1) <= b * p;
  }

  lemma Distribute(b: int, q: int, p: int, r: int)
    ensures b * (q * p + r) == q * (b * p) + b * r
  {
  }

  lemma {:induction false} AndAllOnes(y: nat, n: nat)
    requires y < Pow2(n)
    ensures And(y, Pow2(n) - 1) == y
    decreases n
  {
    hide Pow2;
    if n == 0 {
      PowZero();
    } else {
      Doubled(n);
      AndAllOnes(y / 2, n - 1);
    }
  }

  lemma HalfMask(y: nat, m: nat)
    ensures And(y, 2 * m) == 2 * And(y / 2, m)
  {
  }

  lemma Doubled(n: nat)
    requires n > 0
    ensures Pow2(n) == 2 * Pow2(n - 1)
  {
  }

  function Rest(y: nat, d: nat): nat
    requires d > 0
  {
    y % d
  }

  lemma RestScale(y: nat, p: nat)
    requires p > 0
    ensures Rest(y, 2 * p) == 2 * Rest(y / 2, p) + y % 2
    ensures Rest(y, 1) == 0
  {
    ModScale(y, 2, p);
  }

  lemma {:induction false} MaskLeavesRest(y: nat, n: nat, k: nat)
    requires k <= n && y < Pow2(n)
    ensures Pow2(k) <= Pow2(n)
    ensures And(y, Pow2(n) - Pow2(k)) == y - Rest(y, Pow2(k))
    decreases k
  {
    hide And, Pow2, Rest;
    Pow2Monotone(k, n);
    if k == 0 {
      PowZero();
      RestScale(y, 1);
      AndAllOnes(y, n);
    } else {
      Doubled(k);
      Doubled(n);
      MaskLeavesRest(y / 2, n - 1, k - 1);
      HalfMask(y, Pow2(n - 1) - Pow2(k - 1));
      RestScale(y, Pow2(k - 1));
    }
  }

  /** Masking with the complement of a - 1 rounds down to a multiple of a. */
  lemma MaskRoundsDown(y: nat, n: nat, k: nat)
    requires k <= n && y < Pow2(n)
    ensures Pow2(k) <= Pow2(n)
    ensures And(y, Pow2(n) - Pow2(k)) == y - y % Pow2(k)
  {
    hide And, Pow2;
    MaskLeavesRest(y, n, k);
  }

  lemma PowZero()
    ensures Pow2(0) == 1
  {
  }

  lemma {:induction false} AndAtMost(x: nat, y: nat)
    ensures And(x, y) <= y
  {
    if x != 0 && y != 0 { AndAtMost(x / 2, y / 2); }
  }

  lemma AndZero(x: nat)
    ensures And(x, 0) == 0
  {
  }

  lemma ModSmall(y: nat, d: nat)
    ensures y < d ==> y % d == y
  {
  }

  /** Masking with a - 1 is the remainder modulo a. */
  lemma {:induction false} MaskIsRemainder(y: nat, k: nat)
    ensures And(y, Pow2(k) - 1) == y % Pow2(k)
    decreases k
  {
    if k == 0 {
      AndZero(y);
    } else {
      var p := Pow2(k - 1);
      MaskIsRemainder(y / 2, k - 1);
      ModScale(y, 2, p);
      assert (Pow2(k) - 1) / 2 == p - 1;
    }
  }
}
