/**
 * Bit operations on the integers that hold enum flag masks.
 *
 * The source tests `intValue & (1 << i)` and accumulates `flags |= 1 << index`
 * on C++ ints.  Here integers are unbounded: `Bit(x, i)` is bit i of x in two's
 * complement (Dafny's division rounds down for a positive divisor, like an
 * arithmetic shift) and `SetBit(f, i)` is `f | (1 << i)`.
 */
module Bits {

  function Pow2(i: nat): (r: nat)
    ensures r >= 1
  {
    if i == 0 then 1 else 2 * Pow2(i - 1)
  }

  /** Bit i of x: `(x >> i) & 1` in two's complement. */
  predicate Bit(x: int, i: nat)
  {
    (x / Pow2(i)) % 2 == 1
  }

  /** `f | (1 << i)`. */
  function SetBit(f: int, i: nat): int
  {
    if Bit(f, i) then f else f + Pow2(i)
  }

  lemma MulAtLeast(a: int, d: int)
    requires a >= 1 && d > 0
    ensures a * d >= d
  {
    var b := a - 1;
    assert a * d == b * d + d;
    assert b * d >= 0;
  }

  lemma DivModUnique(f: int, d: int, q: int, r: int)
    requires d > 0 && f == q * d + r && 0 <= r < d
    ensures f / d == q && f % d == r
  {
    var q', r' := f / d, f % d;
    assert f == q' * d + r';
    assert (q - q') * d == r' - r by {
      assert q * d - q' * d == (q - q') * d;
    }
    if q > q' {
      MulAtLeast(q - q', d);
    } else if q < q' {
      MulAtLeast(q' - q, d);
    }
  }

  /** The low i+1 bits are the low i bits plus bit i. */
  lemma ModPow2Step(f: int, i: nat)
    ensures f % Pow2(i + 1) == f % Pow2(i) + (if Bit(f, i) then Pow2(i) else 0)
  {
    var p := Pow2(i);
    var q, r := f / p, f % p;
    var h, b := q / 2, q % 2;
    var low := if b == 1 then p + r else r;
    assert Pow2(i + 1) == 2 * p;
    assert Bit(f, i) <==> b == 1;
    assert f == h * (2 * p) + low by {
      assert f == q * p + r;
      assert q == 2 * h + b;
      assert q * p == h * (2 * p) + b * p;
    }
    assert 0 <= low < 2 * p;
    DivModUnique(f, 2 * p, h, low);
  }

  lemma SmallIsLow(x: int, i: nat)
    requires 0 <= x < Pow2(i)
    ensures x % Pow2(i) == x && x / Pow2(i) == 0 && !Bit(x, i)
  {
    DivModUnique(x, Pow2(i), 0, x);
  }

  /** Setting a bit that is clear in the low i bits of f adds bit i. */
  lemma SetBitOfLow(f: int, i: nat)
    ensures SetBit(f % Pow2(i), i) == f % Pow2(i) + Pow2(i)
  {
    SmallIsLow(f % Pow2(i), i);
  }

  lemma {:induction false} Pow2Add(a: nat, b: nat)
    ensures Pow2(a + b) == Pow2(a) * Pow2(b)
  {
    if a > 0 {
      Pow2Add(a - 1, b);
      assert Pow2(a + b) == 2 * Pow2(a - 1 + b);
    }
  }

  /** Instances of the nonlinear facts DivDiv needs, kept apart so that its proof stays small. */
  lemma MulDist(a: int, b: int, c: int)
    ensures a * (b + c) == a * b + a * c
  {
  }

  lemma MulAssoc(a: int, b: int, c: int)
    ensures a * (b * c) == (a * b) * c
  {
  }

  lemma MulNonNeg(a: int, b: int)
    requires a >= 0 && b >= 0
    ensures a * b >= 0
  {
  }

  /** x / (a * b) == (x / a) / b for positive a and b. */
  lemma DivDiv(x: int, a: int, b: int)
    requires a > 0 && b > 0
    ensures x / (a * b) == (x / a) / b
  {
    var q1, r1 := x / a, x % a;
    var q2, r2 := q1 / b, q1 % b;
    MulDist(a, b * q2, r2);
    MulAssoc(a, b, q2);
    assert a * q1 == (a * b) * q2 + a * r2;
    MulDist(a, r2, b - 1 - r2);
    MulNonNeg(a, b - 1 - r2);
    MulDist(a, b, -1);
    assert 0 <= a * r2 + r1 < a * b;
    DivModUnique(x, a * b, q2, a * r2 + r1);
  }

  /** Adding m multiples of p adds m to the quotient. */
  lemma AddMultiple(f: int, p: int, m: int)
    requires p > 0
    ensures (f + p * m) / p == f / p + m
  {
    var q, r := f / p, f % p;
    assert p * (q + m) == p * q + p * m;
    assert p * (q + m) == (q + m) * p;
    assert p * q == q * p;
    DivModUnique(f + p * m, p, q + m, r);
  }

  /** Setting a clear bit j sets it. */
  lemma SetBitSame(f: int, j: nat)
    requires !Bit(f, j)
    ensures Bit(f + Pow2(j), j)
  {
    AddMultiple(f, Pow2(j), 1);
  }

  /** Adding 2^j does not change a bit below j. */
  lemma SetBitBelow(f: int, j: nat, i: nat)
    requires i < j
    ensures Bit(f + Pow2(j), i) <==> Bit(f, i)
  {
    var p, d := Pow2(i), j - i;
    Pow2Add(i, d);
    assert i + d == j;
    var h := Pow2(d - 1);
    assert Pow2(d) == 2 * h;
    assert Pow2(j) == p * (2 * h);
    AddMultiple(f, p, 2 * h);
    var q := f / p;
    DivModUnique(q + 2 * h, 2, q / 2 + h, q % 2);
  }

  /** Adding 2^j to a number whose bit j is clear does not change a bit above j. */
  lemma SetBitAbove(f: int, j: nat, i: nat)
    requires i > j && !Bit(f, j)
    ensures Bit(f + Pow2(j), i) <==> Bit(f, i)
  {
    var p := Pow2(j + 1);
    var e := i - (j + 1);
    assert 0 <= f % p + Pow2(j) < p by {
      ModPow2Step(f, j);
    }
    SameQuotient(f, p, Pow2(j));
    assert Pow2(i) == p * Pow2(e) by {
      Pow2Add(j + 1, e);
      assert j + 1 + e == i;
    }
    SameQuotientAbove(f + Pow2(j), f, p, Pow2(e));
  }

  /** Adding less than what the remainder leaves to the divisor keeps the quotient. */
  lemma SameQuotient(f: int, p: int, d: int)
    requires p > 0 && 0 <= f % p + d < p
    ensures (f + d) / p == f / p
  {
    DivModUnique(f + d, p, f / p, f % p + d);
  }

  /** Numbers with the same quotient by p have the same quotient by any multiple of p. */
  lemma SameQuotientAbove(x: int, y: int, p: int, d: int)
    requires p > 0 && d > 0 && x / p == y / p
    ensures x / (p * d) == y / (p * d)
  {
    DivDiv(x, p, d);
    DivDiv(y, p, d);
  }

  /** Setting bit j leaves every other bit as it was: SetBit is `| (1 << j)`. */
  lemma SetBitSpec(f: int, j: nat, i: nat)
    ensures Bit(SetBit(f, j), i) <==> Bit(f, i) || i == j
  {
    if !Bit(f, j) {
      if i == j {
        SetBitSame(f, j);
      } else if i < j {
        SetBitBelow(f, j, i);
      } else {
        SetBitAbove(f, j, i);
      }
    }
  }

  lemma ZeroHasNoBits(i: nat)
    ensures !Bit(0, i)
  {
  }
}
