/** The value of a matrix as both container families store it: a sequence of
    columns, each a sequence of entries. `g[c][r]` is the entry of column `c`
    and row `r`; it is what `m[[c, r]]` reads on a fixed matrix and what
    `data[c][r]` reads on a dynamic one. The operations here are the
    specifications the containers' loops are proved against. */
module Grid {
  import Scalar

  type Columns = seq<seq<int>>

  /** Exactly `cols` columns of exactly `rows` entries each. */
  predicate Shaped(g: Columns, rows: nat, cols: nat)
  {
    |g| == cols && forall c :: 0 <= c < cols ==> |g[c]| == rows
  }

  /** Every index `[c][r]` with `c < cols` and `r < rows` is in bounds: the
      condition under which a loop over that index range does not panic. */
  predicate Covers(g: Columns, rows: nat, cols: nat)
  {
    rows == 0 || (cols <= |g| && forall c :: 0 <= c < cols ==> rows <= |g[c]|)
  }

  /** Same number of columns and same column lengths. */
  predicate SameShape(g: Columns, h: Columns)
  {
    |g| == |h| && forall c :: 0 <= c < |g| ==> |g[c]| == |h[c]|
  }

  /** Two grids of the same shape with the same entries are equal. */
  lemma Extensional(g: Columns, h: Columns)
    requires SameShape(g, h)
    requires forall c, r :: 0 <= c < |g| && 0 <= r < |g[c]| ==> g[c][r] == h[c][r]
    ensures g == h
  {
    forall c | 0 <= c < |g|
      ensures g[c] == h[c]
    {
      assert |g[c]| == |h[c]|;
      forall r | 0 <= r < |g[c]|
        ensures g[c][r] == h[c][r]
      {
      }
    }
  }

  /** Indexing extended with 0 outside the grid, so that sums over an index
      range can be written without bounds side conditions. */
  function Entry(g: Columns, c: nat, r: nat): int
  {
    if c < |g| && r < |g[c]| then g[c][r] else 0
  }

  /** `cols` columns of `rows` copies of `v`. */
  function Filled(rows: nat, cols: nat, v: int): (g: Columns)
    ensures Shaped(g, rows, cols)
    ensures forall c, r :: 0 <= c < cols && 0 <= r < rows ==> g[c][r] == v
  {
    seq(cols, _ => seq(rows, _ => v))
  }

  /** `f` applied to every entry. */
  function Mapped(g: Columns, f: int -> int): (z: Columns)
    ensures SameShape(z, g)
    ensures forall c, r :: 0 <= c < |g| && 0 <= r < |g[c]| ==> z[c][r] == f(g[c][r])
  {
    seq(|g|, c requires 0 <= c < |g| => seq(|g[c]|, r requires 0 <= r < |g[c]| => f(g[c][r])))
  }

  /** The first `n` entries of `a` combined with those of `b` by `f`; the rest
      of `a` is kept. */
  function ZipPrefix(a: seq<int>, b: seq<int>, n: nat, f: (int, int) -> int): (z: seq<int>)
    requires n <= |b|
    ensures |z| == |a|
    ensures forall i :: 0 <= i < |a| ==> z[i] == if i < n then f(a[i], b[i]) else a[i]
  {
    seq(|a|, i requires 0 <= i < |a| => if i < n then f(a[i], b[i]) else a[i])
  }

  /** The entries of `a` in columns `c < cols` and rows `r < rows` combined
      with those of `b` by `f`; every other entry of `a` is kept. */
  function Zip(a: Columns, b: Columns, rows: nat, cols: nat, f: (int, int) -> int): (z: Columns)
    requires Covers(b, rows, cols)
    ensures SameShape(z, a)
    ensures forall c, r :: 0 <= c < |a| && 0 <= r < |a[c]| ==>
      z[c][r] == if c < cols && r < rows then f(a[c][r], b[c][r]) else a[c][r]
  {
    seq(|a|, c requires 0 <= c < |a| =>
      if c < cols && c < |b| then ZipPrefix(a[c], b[c], rows, f) else a[c])
  }

  /** Subtracting what was added restores the first operand, on a single
      column: `(a + b) - b == a`. */
  lemma ZipPrefixSubtractUndoesAdd(a: seq<int>, b: seq<int>, n: nat)
    requires n <= |b|
    ensures ZipPrefix(ZipPrefix(a, b, n, Scalar.Add), b, n, Scalar.Sub) == a
  {
    var z := ZipPrefix(ZipPrefix(a, b, n, Scalar.Add), b, n, Scalar.Sub);
    assert |z| == |a|;
    forall i | 0 <= i < |a|
      ensures z[i] == a[i]
    {
    }
  }

  /** Subtracting what was added restores the first operand: `(a + b) - b == a`,
      entry by entry over the operated range and trivially elsewhere. */
  lemma SubtractUndoesAdd(a: Columns, b: Columns, rows: nat, cols: nat)
    requires Covers(b, rows, cols)
    ensures Zip(Zip(a, b, rows, cols, Scalar.Add), b, rows, cols, Scalar.Sub) == a
  {
    var z := Zip(Zip(a, b, rows, cols, Scalar.Add), b, rows, cols, Scalar.Sub);
    forall c, r | 0 <= c < |z| && 0 <= r < |z[c]|
      ensures z[c][r] == a[c][r]
    {
    }
    Extensional(z, a);
  }

  /** The clamp of `g` between `lo` and `hi`: each entry raised to at least
      `lo`'s and then lowered to at most `hi`'s. */
  function Clamped(g: Columns, lo: Columns, hi: Columns, rows: nat, cols: nat): (z: Columns)
    requires Covers(lo, rows, cols) && Covers(hi, rows, cols)
    ensures SameShape(z, g)
  {
    Zip(Zip(g, lo, rows, cols, Scalar.Maximum), hi, rows, cols, Scalar.Minimum)
  }

  /** Where the bounds are ordered, a clamped entry lies between them, and an
      entry already between them is unchanged; entries outside the range are
      never touched. */
  lemma ClampedWithinBounds(g: Columns, lo: Columns, hi: Columns, rows: nat, cols: nat)
    requires Covers(lo, rows, cols) && Covers(hi, rows, cols)
    ensures forall c, r :: 0 <= c < |g| && 0 <= r < |g[c]| && c < cols && r < rows && lo[c][r] <= hi[c][r] ==>
      lo[c][r] <= Clamped(g, lo, hi, rows, cols)[c][r] <= hi[c][r]
    ensures forall c, r :: 0 <= c < |g| && 0 <= r < |g[c]| && c < cols && r < rows && lo[c][r] <= g[c][r] <= hi[c][r] ==>
      Clamped(g, lo, hi, rows, cols)[c][r] == g[c][r]
    ensures forall c, r :: 0 <= c < |g| && 0 <= r < |g[c]| && !(c < cols && r < rows) ==>
      Clamped(g, lo, hi, rows, cols)[c][r] == g[c][r]
  {
    var z := Clamped(g, lo, hi, rows, cols);
    var raised := Zip(g, lo, rows, cols, Scalar.Maximum);
    forall c, r | 0 <= c < |g| && 0 <= r < |g[c]| && c < cols && r < rows
      ensures z[c][r] == Scalar.Minimum(Scalar.Maximum(g[c][r], lo[c][r]), hi[c][r])
    {
      assert raised[c][r] == Scalar.Maximum(g[c][r], lo[c][r]);
    }
  }

  /** Multiplying every operated entry by a nonzero `k` and then dividing it
      by `k`, truncating, restores the grid. */
  lemma DivideUndoesMultiply(g: Columns, k: int, rows: nat, cols: nat)
    requires k != 0
    ensures Zip(Zip(g, Filled(rows, cols, k), rows, cols, Scalar.Mul), Filled(rows, cols, k), rows, cols, Scalar.Quot) == g
  {
    var scaled := Zip(g, Filled(rows, cols, k), rows, cols, Scalar.Mul);
    var z := Zip(scaled, Filled(rows, cols, k), rows, cols, Scalar.Quot);
    forall c, r | 0 <= c < |z| && 0 <= r < |z[c]|
      ensures z[c][r] == g[c][r]
    {
      if c < cols && r < rows {
        Scalar.QuotOfMul(g[c][r], k);
      }
    }
    Extensional(z, g);
  }

  /** Over the operated range, the entry-wise maximum and minimum bound both
      operands and together keep their sum: each entry of one operand goes to
      one side and the other operand's entry to the other. */
  lemma MaxMinBracket(a: Columns, b: Columns, rows: nat, cols: nat)
    requires Shaped(a, rows, cols) && Shaped(b, rows, cols)
    ensures forall c, r :: 0 <= c < cols && 0 <= r < rows ==>
      Zip(a, b, rows, cols, Scalar.Minimum)[c][r] <= a[c][r] <= Zip(a, b, rows, cols, Scalar.Maximum)[c][r]
    ensures forall c, r :: 0 <= c < cols && 0 <= r < rows ==>
      Zip(a, b, rows, cols, Scalar.Minimum)[c][r] <= b[c][r] <= Zip(a, b, rows, cols, Scalar.Maximum)[c][r]
    ensures forall c, r :: 0 <= c < cols && 0 <= r < rows ==>
      Zip(a, b, rows, cols, Scalar.Minimum)[c][r] + Zip(a, b, rows, cols, Scalar.Maximum)[c][r] == a[c][r] + b[c][r]
  {
  }

  /** Taking the absolute value twice is taking it once. */
  lemma AbsIdempotent(g: Columns)
    ensures Mapped(Mapped(g, Scalar.Abs), Scalar.Abs) == Mapped(g, Scalar.Abs)
  {
    var once := Mapped(g, Scalar.Abs);
    var twice := Mapped(once, Scalar.Abs);
    forall c, r | 0 <= c < |twice| && 0 <= r < |twice[c]|
      ensures twice[c][r] == once[c][r]
    {
      assert twice[c][r] == Scalar.Abs(once[c][r]);
    }
    Extensional(twice, once);
  }

  /** Column `p` as a function of the row index. */
  function ColumnOf(g: Columns, p: nat): nat -> int
  {
    (n: nat) => Entry(g, p, n)
  }

  /** The summand of a product entry: `a[n][m] * b[p][n]` as a function of `n`. */
  function ProductTerm(a: Columns, b: Columns, m: nat, p: nat): nat -> int
  {
    (n: nat) => Entry(a, n, m) * Entry(b, p, n)
  }

  /** Entry `[p][m]` of a product with `inner` shared indices:
      `Σ_{n < inner} a[n][m] * b[p][n]`. */
  function ProductEntry(a: Columns, b: Columns, m: nat, p: nat, inner: nat): int
  {
    Scalar.Sum(inner, ProductTerm(a, b, m, p))
  }

  /** The matrix product of `a` (`inner` columns of `rows` entries) and `b`
      (`cols` columns of `inner` entries): `cols` columns of `rows` entries. */
  function Product(a: Columns, b: Columns, rows: nat, inner: nat, cols: nat): (z: Columns)
    ensures Shaped(z, rows, cols)
    ensures forall p, m :: 0 <= p < cols && 0 <= m < rows ==> z[p][m] == ProductEntry(a, b, m, p, inner)
  {
    seq(cols, p requires 0 <= p < cols => seq(rows, m requires 0 <= m < rows => ProductEntry(a, b, m, p, inner)))
  }

  /** One entry of the triple product, as a table over the two summation
      indices: `t(j, k) = a[j][i] * b[k][j] * c[s][k]`. */
  function TripleTerm(a: Columns, b: Columns, c: Columns, i: nat, s: nat): (nat, nat) -> int
  {
    (j: nat, k: nat) => Entry(a, j, i) * Entry(b, k, j) * Entry(c, s, k)
  }

  lemma ProductAssociativeAt(a: Columns, b: Columns, c: Columns, m: nat, n: nat, p: nat, q: nat, s: nat, i: nat)
    requires s < q && i < m
    ensures Product(Product(a, b, m, n, p), c, m, p, q)[s][i] == Product(a, Product(b, c, n, p, q), m, n, q)[s][i]
  {
    var ab := Product(a, b, m, n, p);
    var bc := Product(b, c, n, p, q);
    var t := TripleTerm(a, b, c, i, s);
    // Left side: Σ_k (Σ_j a[j][i] * b[k][j]) * c[s][k] == Σ_k Σ_j t(j, k).
    forall k | 0 <= k < p
      ensures ProductTerm(ab, c, i, s)(k) == Scalar.ColumnSums(n, t)(k)
    {
      assert Entry(ab, k, i) == ProductEntry(a, b, i, k, n);
      forall j | 0 <= j < n
        ensures (ProductTerm(a, b, i, k)(j)) * Entry(c, s, k) == t(j, k)
      {
      }
      Scalar.SumFactorRight(n, Entry(c, s, k), ProductTerm(a, b, i, k), (j: nat) => t(j, k));
    }
    Scalar.SumCongruent(p, ProductTerm(ab, c, i, s), Scalar.ColumnSums(n, t));
    // Right side: Σ_j a[j][i] * (Σ_k b[k][j] * c[s][k]) == Σ_j Σ_k t(j, k).
    forall j | 0 <= j < n
      ensures ProductTerm(a, bc, i, s)(j) == Scalar.RowSums(p, t)(j)
    {
      assert Entry(bc, s, j) == ProductEntry(b, c, j, s, p);
      forall k | 0 <= k < p
        ensures Entry(a, j, i) * ProductTerm(b, c, j, s)(k) == t(j, k)
      {
        var x, y, z := Entry(a, j, i), Entry(b, k, j), Entry(c, s, k);
        assert x * (y * z) == x * y * z;
      }
      Scalar.SumFactorLeft(p, Entry(a, j, i), ProductTerm(b, c, j, s), (k: nat) => t(j, k));
    }
    Scalar.SumCongruent(n, ProductTerm(a, bc, i, s), Scalar.RowSums(p, t));
    Scalar.SumSwap(n, p, t);
  }

  /** Matrix multiplication is associative: `(A * B) * C == A * (B * C)` for
      `A` with `n` columns of `m`, `B` with `p` columns of `n` and `C` with `q`
      columns of `p` entries. */
  lemma ProductAssociative(a: Columns, b: Columns, c: Columns, m: nat, n: nat, p: nat, q: nat)
    ensures Product(Product(a, b, m, n, p), c, m, p, q) == Product(a, Product(b, c, n, p, q), m, n, q)
  {
    var lhs := Product(Product(a, b, m, n, p), c, m, p, q);
    var rhs := Product(a, Product(b, c, n, p, q), m, n, q);
    forall s, i | 0 <= s < |lhs| && 0 <= i < |lhs[s]|
      ensures lhs[s][i] == rhs[s][i]
    {
      ProductAssociativeAt(a, b, c, m, n, p, q, s, i);
    }
    Extensional(lhs, rhs);
  }

  /** The columns laid end to end: the contiguous column-major storage of a
      fixed matrix. */
  function Flatten(g: Columns): seq<int>
  {
    if g == [] then [] else Flatten(g[..|g| - 1]) + g[|g| - 1]
  }

  /** A matrix of `cols` columns of `rows` entries occupies `rows * cols`
      contiguous entries, and entry `[c][r]` sits at offset `c * rows + r`. */
  lemma {:induction false} FlattenLayout(g: Columns, rows: nat, cols: nat)
    requires Shaped(g, rows, cols)
    ensures |Flatten(g)| == rows * cols
    ensures forall c, r :: 0 <= c < cols && 0 <= r < rows ==> c * rows + r < rows * cols && Flatten(g)[c * rows + r] == g[c][r]
  {
    if cols > 0 {
      var k := cols - 1;
      var init := g[..k];
      FlattenLayout(init, rows, k);
      var front := Flatten(init);
      assert Flatten(g) == front + g[k];
      assert |front| == rows * k;
      OneMoreColumn(rows, k);
      forall c, r | 0 <= c < cols && 0 <= r < rows
        ensures c * rows + r < rows * cols && Flatten(g)[c * rows + r] == g[c][r]
      {
        if c < k {
          OffsetBelow(c, r, rows, k);
          assert init[c] == g[c];
        } else {
          assert c * rows == rows * k;
        }
      }
    }
  }

  lemma OneMoreColumn(rows: nat, k: nat)
    ensures rows * (k + 1) == rows * k + rows
  {
  }

  /** An entry of one of the first `k` columns lies before column `k`. */
  lemma OffsetBelow(c: nat, r: nat, rows: nat, k: nat)
    requires c < k && r < rows
    ensures c * rows + r < rows * k
  {
    assert c * rows + rows == (c + 1) * rows;
    assert (c + 1) * rows <= k * rows;
  }
}
