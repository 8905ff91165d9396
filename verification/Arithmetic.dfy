/** The few facts about products and divisions by a variable that the proofs need. */
module Arithmetic {

  lemma MulMonotone(a: nat, b: nat, c: nat)
    requires a <= b
    ensures a * c <= b * c
  {
  }

  lemma MulSuccessor(a: int, c: int)
    ensures (a + 1) * c == a * c + c
  {
  }

  lemma MulAssociates(a: int, b: int, c: int)
    ensures a * b * c == a * (b * c)
  {
  }

  lemma MulDistributes(a: int, b: int, c: int)
    ensures (a + b) * c == a * c + b * c
    ensures (a - b) * c == a * c - b * c
  {
  }

  lemma MulNegates(a: int, c: int)
    ensures (-a) * c == -(a * c)
  {
  }

  /** A multiple of `step` that is smaller than `step` in size is zero. */
  lemma SmallMultipleIsZero(k: int, step: int)
    requires 0 - step < k * step < step
    ensures k == 0
  {
    MulNegates(k, step);
    if k >= 1 {
      MulMonotone(1, k, step);
    } else if k <= -1 {
      MulMonotone(1, -k, step);
    }
  }

  lemma DivisionSplits(x: nat, step: nat)
    requires step >= 1
    ensures 0 <= x / step && 0 <= x % step < step && x == (x / step) * step + x % step
  {
  }

  /** Quotient and remainder are unique. */
  lemma DivisionIs(x: nat, step: nat, q: nat, r: nat)
    requires step >= 1 && r < step && x == q * step + r
    ensures x / step == q && x % step == r
  {
    DivisionSplits(x, step);
    MulDistributes(q, x / step, step);
    SmallMultipleIsZero(q - x / step, step);
  }

  /** The fraction num / den of a count, rounded down. */
  function Fraction(count: nat, num: nat, den: nat): nat
    requires den >= 1
  {
    num * count / den
  }

  /** It is the largest number whose share of the whole is not above the fraction. */
  lemma FractionIsLargest(count: nat, num: nat, den: nat, m: nat)
    requires den >= 1
    ensures m <= Fraction(count, num, den) <==> m * den <= num * count
  {
    var n := Fraction(count, num, den);
    DivisionSplits(num * count, den);
    MulSuccessor(n, den);
    if m <= n {
      MulMonotone(m, n, den);
    } else {
      MulMonotone(n + 1, m, den);
    }
  }

  /** A fraction of at most one is at most the whole. */
  lemma FractionAtMostWhole(count: nat, num: nat, den: nat)
    requires num <= den && den >= 1
    ensures Fraction(count, num, den) <= count
  {
    FractionIsLargest(count, num, den, count + 1);
    MulMonotone(num, den, count);
    MulSuccessor(count, den);
  }

  /** It is the whole exactly when the fraction is one. */
  lemma FractionIsWhole(count: nat, num: nat, den: nat)
    requires num <= den && den >= 1 && count > 0
    ensures Fraction(count, num, den) == count <==> num == den
  {
    FractionAtMostWhole(count, num, den);
    FractionIsLargest(count, num, den, count);
    if num < den {
      MulMonotone(num + 1, den, count);
      MulSuccessor(num, count);
    }
  }

  /** Dividing by d and then by n is dividing by d * n. */
  lemma NestedDivision(x: nat, d: nat, n: nat)
    requires d >= 1 && n >= 1
    ensures d * n >= 1 && x / d / n == x / (d * n)
  {
    var y := x / d;
    var q, r := y / n, y % n;
    DivisionSplits(x, d);
    DivisionSplits(y, n);
    NestedSplit(x, d, n, q, r, x % d);
    DivisionIs(x, d * n, q, r * d + x % d);
  }

  lemma NestedSplit(x: nat, d: nat, n: nat, q: nat, r: nat, rest: nat)
    requires d >= 1 && r < n && rest < d && x == (q * n + r) * d + rest
    ensures d * n >= 1 && 0 <= r * d + rest < d * n && x == q * (d * n) + (r * d + rest)
  {
    MulMonotone(r, n - 1, d);
    MulSuccessor(n - 1, d);
    MulDistributes(q * n, r, d);
    MulAssociates(q, n, d);
    MulMonotone(1, n, d);
  }

  /** The least multiple of `step` that reaches x. */
  function DivideUp(x: nat, step: nat): (p: nat)
    requires step >= 1
  {
    x / step + (if x % step != 0 then 1 else 0)
  }

  lemma DivideUpIsLeast(x: nat, step: nat)
    requires step >= 1
    ensures x <= DivideUp(x, step) * step
    ensures forall i: nat | i < DivideUp(x, step) :: i * step < x
  {
    var q := x / step;
    DivisionSplits(x, step);
    MulSuccessor(q, step);
    forall i: nat | i < DivideUp(x, step) ensures i * step < x {
      MulMonotone(i, q, step);
      if x % step == 0 {
        MulMonotone(i + 1, q, step);
        MulSuccessor(i, step);
      }
    }
  }

  lemma DivideUpReaches(x: nat, step: nat, count: nat)
    requires step >= 1
    ensures step * count >= x <==> count >= DivideUp(x, step)
  {
    DivideUpIsLeast(x, step);
    if count >= DivideUp(x, step) {
      MulMonotone(DivideUp(x, step), count, step);
    } else {
      assert count * step < x;
    }
  }

  lemma DivideUpWithin(x: nat, step: nat, count: nat)
    requires step >= 1 && x <= count * step
    ensures DivideUp(x, step) <= count
  {
    DivideUpIsLeast(x, step);
    assert !(count * step < x);
  }
}
