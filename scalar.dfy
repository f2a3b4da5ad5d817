/** Integer model of the element capabilities the matrix containers draw on:
    the identities (`zero`, `one`, `default`), the closed arithmetic operators,
    the ordering (`maximum`, `minimum`) and the sign (`abs`), plus the finite
    sums and products the loops accumulate. */
module Scalar {

  /** `T::zero()`, and `T::default()` for the integer element type. */
  const Zero: int := 0

  /** `T::one()`. */
  const One: int := 1

  function Add(x: int, y: int): int { x + y }

  function Sub(x: int, y: int): int { x - y }

  function Mul(x: int, y: int): int { x * y }

  /** The larger of two values. */
  function Maximum(x: int, y: int): (r: int)
    ensures r >= x && r >= y
    ensures r == x || r == y
  {
    if x >= y then x else y
  }

  /** The smaller of two values. */
  function Minimum(x: int, y: int): (r: int)
    ensures r <= x && r <= y
    ensures r == x || r == y
  {
    if x <= y then x else y
  }

  /** Absolute value. */
  function Abs(x: int): (r: int)
    ensures r >= 0
    ensures r == x || r == -x
  {
    if x < 0 then -x else x
  }

  /** Division of signed integers with the quotient truncated toward zero.
      No caller divides by zero (each one requires a nonzero divisor, which is
      where the integer division would panic); the value 0 for a zero divisor
      only makes the function total. */
  function Quot(x: int, y: int): int
  {
    if y == 0 then 0
    else if (x >= 0) == (y > 0) then Abs(x) / Abs(y)
    else -(Abs(x) / Abs(y))
  }

  /** Truncating division leaves a remainder smaller than the divisor that
      carries the sign of the dividend, and never rounds away from zero. */
  lemma QuotTruncates(x: int, y: int)
    requires y != 0
    ensures Abs(x - Quot(x, y) * y) < Abs(y)
    ensures x - Quot(x, y) * y == 0 || (x - Quot(x, y) * y > 0 <==> x > 0)
    ensures Abs(Quot(x, y)) * Abs(y) <= Abs(x)
  {
    var ax, ay := Abs(x), Abs(y);
    var q := ax / ay;
    EuclideanRemainder(ax, ay);
    var qt := Quot(x, y);
    var qy := qt * y;
    // In every sign case the quotient times the divisor is `±(q * ay)`.
    if x >= 0 && y > 0 {
      assert qt == q && x == ax && y == ay;
      assert qy == q * ay;
    } else if x >= 0 {
      assert qt == -q && x == ax && y == -ay;
      assert qy == q * ay by { NegTimesNeg(q, ay); }
    } else if y > 0 {
      assert qt == -q && x == -ax && y == ay;
      assert qy == -(q * ay) by { NegTimes(q, ay); }
    } else {
      assert qt == q && x == -ax && y == -ay;
      assert qy == -(q * ay) by { NegTimes(ay, q); }
    }
    assert Abs(qt) == q;
  }

  /** Multiplying by a nonzero value and then dividing by it, truncating,
      gives the value back. */
  lemma QuotOfMul(x: int, k: int)
    requires k != 0
    ensures Quot(x * k, k) == x
  {
    var ax, ak := Abs(x), Abs(k);
    AbsMul(x, k);
    DivOfMultiple(ax, ak);
    if x > 0 {
      assert (x * k > 0) == (k > 0);
    } else if x < 0 {
      assert (x * k > 0) == (k < 0);
    }
  }

  lemma AbsMul(x: int, k: int)
    ensures Abs(x * k) == Abs(x) * Abs(k)
  {
    if x < 0 && k >= 0 {
      NegTimes(-x, k);
    } else if x >= 0 && k < 0 {
      NegTimes(-k, x);
    } else if x < 0 && k < 0 {
      NegTimesNeg(-x, -k);
    }
  }

  lemma DivOfMultiple(a: int, b: int)
    requires a >= 0 && b > 0
    ensures (a * b) / b == a
  {
    var p := a * b;
    var q := p / b;
    EuclideanRemainder(p, b);
    var r := p - q * b;
    var d := a - q;
    assert d * b == r by { Distributes(a, q, b); }
    if d >= 1 {
      AtLeastOnce(d, b);
    } else if d <= -1 {
      AtLeastOnce(-d, b);
      NegTimes(-d, b);
    }
  }

  lemma Distributes(a: int, q: int, b: int)
    ensures (a - q) * b == a * b - q * b
  {
  }

  lemma AtLeastOnce(d: int, b: int)
    requires d >= 1 && b > 0
    ensures d * b >= b
  {
  }

  lemma EuclideanRemainder(a: int, b: int)
    requires a >= 0 && b > 0
    ensures 0 <= a - (a / b) * b < b && a / b >= 0
  {
  }

  lemma NegTimesNeg(a: int, b: int)
    ensures (-a) * (-b) == a * b
  {
  }

  lemma NegTimes(a: int, b: int)
    ensures (-a) * b == -(a * b) && b * (-a) == -(a * b)
  {
  }

  /** `f(0) + f(1) + ... + f(n - 1)`, accumulated from the left as the loops do. */
  function Sum(n: nat, f: nat -> int): int
  {
    if n == 0 then 0 else Sum(n - 1, f) + f(n - 1)
  }

  /** Sums of functions that agree on the summed range are equal. */
  lemma {:induction false} SumCongruent(n: nat, f: nat -> int, g: nat -> int)
    requires forall i :: 0 <= i < n ==> f(i) == g(i)
    ensures Sum(n, f) == Sum(n, g)
  {
    if n > 0 {
      SumCongruent(n - 1, f, g);
    }
  }

  /** A common left factor moves out of a sum. */
  lemma {:induction false} SumFactorLeft(n: nat, c: int, f: nat -> int, g: nat -> int)
    requires forall i :: 0 <= i < n ==> g(i) == c * f(i)
    ensures Sum(n, g) == c * Sum(n, f)
  {
    if n > 0 {
      SumFactorLeft(n - 1, c, f, g);
      assert Sum(n, g) == c * Sum(n - 1, f) + c * f(n - 1);
    }
  }

  /** A common right factor moves out of a sum. */
  lemma {:induction false} SumFactorRight(n: nat, c: int, f: nat -> int, g: nat -> int)
    requires forall i :: 0 <= i < n ==> g(i) == f(i) * c
    ensures Sum(n, g) == Sum(n, f) * c
  {
    if n > 0 {
      SumFactorRight(n - 1, c, f, g);
      assert Sum(n, g) == Sum(n - 1, f) * c + f(n - 1) * c;
    }
  }

  /** `Σ_i (f(i) + g(i)) == Σ_i f(i) + Σ_i g(i)`. */
  lemma {:induction false} SumSplit(n: nat, f: nat -> int, g: nat -> int, h: nat -> int)
    requires forall i :: 0 <= i < n ==> h(i) == f(i) + g(i)
    ensures Sum(n, h) == Sum(n, f) + Sum(n, g)
  {
    if n > 0 {
      SumSplit(n - 1, f, g, h);
    }
  }

  /** The rows of a table summed row by row and column by column give the same
      total: `Σ_{i<n} Σ_{j<k} t(i, j) == Σ_{j<k} Σ_{i<n} t(i, j)`. */
  lemma {:induction false} SumSwap(n: nat, k: nat, t: (nat, nat) -> int)
    ensures Sum(n, RowSums(k, t)) == Sum(k, ColumnSums(n, t))
  {
    if n > 0 {
      SumSwap(n - 1, k, t);
      // Peeling off the last row adds t(n - 1, j) to every column sum.
      SumSplit(k, ColumnSums(n - 1, t), LastRow(n - 1, t), ColumnSums(n, t));
    } else {
      SumCongruent(k, ColumnSums(0, t), Zeros());
      SumOfZeros(k);
    }
  }

  function RowSums(k: nat, t: (nat, nat) -> int): nat -> int
  {
    (i: nat) => Sum(k, (j: nat) => t(i, j))
  }

  function ColumnSums(n: nat, t: (nat, nat) -> int): nat -> int
  {
    (j: nat) => Sum(n, (i: nat) => t(i, j))
  }

  function LastRow(i: nat, t: (nat, nat) -> int): nat -> int
  {
    (j: nat) => t(i, j)
  }

  function Zeros(): nat -> int
  {
    (_: nat) => 0
  }

  lemma {:induction false} SumOfZeros(n: nat)
    ensures Sum(n, Zeros()) == 0
  {
    if n > 0 {
      SumOfZeros(n - 1);
    }
  }

  /** The sum of a sequence, accumulated from the front. */
  function Total(s: seq<int>): int
  {
    if s == [] then 0 else Total(s[..|s| - 1]) + s[|s| - 1]
  }

  /** `f(0) * f(1) * ... * f(n - 1)`, accumulated from the left. */
  function Prod(n: nat, f: nat -> int): int
  {
    if n == 0 then 1 else Prod(n - 1, f) * f(n - 1)
  }

  /** The sum of pointwise sums is the sum of the two totals. */
  lemma {:induction false} TotalPointwise(a: seq<int>, b: seq<int>, c: seq<int>)
    requires |a| == |b| == |c|
    requires forall i :: 0 <= i < |c| ==> c[i] == a[i] + b[i]
    ensures Total(c) == Total(a) + Total(b)
  {
    if c != [] {
      var k := |c| - 1;
      TotalPointwise(a[..k], b[..k], c[..k]);
    }
  }

  /** A run of zeros totals zero. */
  lemma {:induction false} TotalZeros(n: nat)
    ensures Total(seq(n, _ => Zero)) == 0
  {
    if n > 0 {
      TotalZeros(n - 1);
      assert seq(n, _ => Zero)[..n - 1] == seq(n - 1, _ => Zero);
    }
  }
}
