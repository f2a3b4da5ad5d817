/** The fixed-size matrix `Matrix<T, M, N>`: `N` columns of `M` entries each,
    stored contiguously, where `m[[a, b]]` is entry `b` of column `a`. The
    operators that build a new matrix allocate a fresh one (the source copies
    the value); the assigning operators and the element-wise transforms
    update the storage in place. */
module Fixed {
  import Scalar
  import Grid

  class Matrix {
    /** Entries per column: the first component of `size()`. */
    const M: nat
    /** Number of columns: the second component of `size()`. */
    const N: nat
    /** The storage `[[T; M]; N]`: `data[a, b]` is entry `b` of column `a`. */
    const data: array2<int>

    predicate Valid()
    {
      data.Length0 == N && data.Length1 == M
    }

    /** `to_vectors`: the stored columns as a value. Every contract below is
        stated on this value. */
    function ToVectors(): (g: Grid.Columns)
      requires Valid()
      reads data
      ensures Grid.Shaped(g, M, N)
      ensures forall a, b :: 0 <= a < N && 0 <= b < M ==> g[a][b] == data[a, b]
    {
      seq(N, (a: int) requires 0 <= a < N reads data =>
        seq(M, (b: int) requires 0 <= b < M reads data => data[a, b]))
    }

    /** `Matrix::new`: wraps `N` columns of `M` entries. */
    constructor New(m: nat, n: nat, columns: Grid.Columns)
      requires Grid.Shaped(columns, m, n)
      ensures Valid() && fresh(data) && M == m && N == n
      ensures ToVectors() == columns
    {
      M, N := m, n;
      data := new int[n, m]((a: int, b: int) requires 0 <= a < n && 0 <= b < m => columns[a][b]);
      new;
      Grid.Extensional(ToVectors(), columns);
    }

    /** `broadcast`: every entry equal to `value`. */
    constructor Broadcast(m: nat, n: nat, value: int)
      ensures Valid() && fresh(data) && M == m && N == n
      ensures ToVectors() == Grid.Filled(m, n, value)
    {
      M, N := m, n;
      data := new int[n, m]((_, _) => value);
      new;
      Grid.Extensional(ToVectors(), Grid.Filled(m, n, value));
    }

    /** `default`: every entry the element type's default. */
    static method Default(m: nat, n: nat) returns (r: Matrix)
      ensures r.Valid() && fresh(r.data) && r.M == m && r.N == n
      ensures r.ToVectors() == Grid.Filled(m, n, Scalar.Zero)
    {
      r := new Matrix.Broadcast(m, n, Scalar.Zero);
    }

    /** `zero`: the broadcast of the additive identity. */
    static method Zero(m: nat, n: nat) returns (r: Matrix)
      ensures r.Valid() && fresh(r.data) && r.M == m && r.N == n
      ensures r.ToVectors() == Grid.Filled(m, n, Scalar.Zero)
    {
      r := new Matrix.Broadcast(m, n, Scalar.Zero);
    }

    /** `one`: the broadcast of the multiplicative identity (every entry 1,
        not the identity matrix). */
    static method One(m: nat, n: nat) returns (r: Matrix)
      ensures r.Valid() && fresh(r.data) && r.M == m && r.N == n
      ensures r.ToVectors() == Grid.Filled(m, n, Scalar.One)
    {
      r := new Matrix.Broadcast(m, n, Scalar.One);
    }

    /** The by-value copy `*self`. */
    method Copy() returns (r: Matrix)
      requires Valid()
      ensures r.Valid() && fresh(r.data) && r.M == M && r.N == N
      ensures r.ToVectors() == ToVectors()
    {
      r := new Matrix.New(M, N, ToVectors());
    }

    /** `len`: `M * N`, the number of entries the contiguous storage holds. */
    function Len(): (r: nat)
      requires Valid()
      reads data
      ensures r == M * N && r == |Grid.Flatten(ToVectors())|
    {
      Grid.FlattenLayout(ToVectors(), M, N);
      M * N
    }

    /** `size`: `(M, N)`, entries per column and number of columns. */
    function Size(): (r: (nat, nat))
      requires Valid()
      ensures r.0 == data.Length1 && r.1 == data.Length0
    {
      (M, N)
    }

    /** `m[[a, b]]` for reading: entry `b` of column `a`; any other index
        panics. */
    function Get(a: nat, b: nat): (r: int)
      requires Valid() && a < N && b < M
      reads data
      ensures r == ToVectors()[a][b]
    {
      data[a, b]
    }

    /** `m[[a, b]] = v`: entry `b` of column `a` becomes `v`, nothing else
        changes. */
    method Set(a: nat, b: nat, v: int)
      requires Valid() && a < N && b < M
      modifies data
      ensures ToVectors() == old(ToVectors())[a := old(ToVectors())[a][b := v]]
    {
      ghost var before := ToVectors();
      data[a, b] := v;
      Grid.Extensional(ToVectors(), before[a := before[a][b := v]]);
    }

    /** `apply`: replaces every entry `e` by `f(e)`, column by column. */
    method Apply(f: int -> int)
      requires Valid()
      modifies data
      ensures ToVectors() == Grid.Mapped(old(ToVectors()), f)
    {
      ghost var g := ToVectors();
      for a := 0 to N
        invariant forall x, y :: 0 <= x < N && 0 <= y < M ==>
          data[x, y] == if x < a then f(g[x][y]) else g[x][y]
      {
        for b := 0 to M
          invariant forall x, y :: 0 <= x < N && 0 <= y < M ==>
            data[x, y] == if x < a || (x == a && y < b) then f(g[x][y]) else g[x][y]
        {
          data[a, b] := f(data[a, b]);
        }
      }
      Grid.Extensional(ToVectors(), Grid.Mapped(g, f));
    }

    /** `map`: a copy with `f` applied to every entry; `self` is unchanged. */
    method Map(f: int -> int) returns (r: Matrix)
      requires Valid()
      ensures r.Valid() && fresh(r.data) && r.M == M && r.N == N
      ensures r.ToVectors() == Grid.Mapped(ToVectors(), f)
    {
      r := Copy();
      r.Apply(f);
    }

    /** `abs`: every entry replaced by its absolute value, in place. */
    method Abs()
      requires Valid()
      modifies data
      ensures ToVectors() == Grid.Mapped(old(ToVectors()), Scalar.Abs)
    {
      Apply(Scalar.Abs);
    }

    /** `abs_copy`: `abs` applied to a copy. */
    method AbsCopy() returns (r: Matrix)
      requires Valid()
      ensures r.Valid() && fresh(r.data) && r.M == M && r.N == N
      ensures r.ToVectors() == Grid.Mapped(ToVectors(), Scalar.Abs)
    {
      r := Copy();
      r.Abs();
    }

    /** `clamp`: every entry raised to at least `lo`'s and then lowered to at
        most `hi`'s, in place. The loops index `[[j, i]]` with `j < M` and
        `i < N`, so only a square (or empty) matrix stays in bounds. The bounds
        are passed by value, so they never share storage with `self`. */
    method Clamp(lo: Matrix, hi: Matrix)
      requires Valid() && lo.Valid() && hi.Valid()
      requires lo.M == M && lo.N == N && hi.M == M && hi.N == N
      requires lo.data != data && hi.data != data
      requires M == N || M == 0 || N == 0
      modifies data
      ensures ToVectors() == Grid.Clamped(old(ToVectors()), lo.ToVectors(), hi.ToVectors(), N, M)
    {
      ghost var g := ToVectors();
      ghost var z := Grid.Clamped(g, lo.ToVectors(), hi.ToVectors(), N, M);
      for j := 0 to M
        invariant forall x, y :: 0 <= x < N && 0 <= y < M ==>
          data[x, y] == if x < j then z[x][y] else g[x][y]
      {
        for i := 0 to N
          invariant forall x, y :: 0 <= x < N && 0 <= y < M ==>
            data[x, y] == if x < j || (x == j && y < i) then z[x][y] else g[x][y]
        {
          data[j, i] := Scalar.Minimum(Scalar.Maximum(data[j, i], lo.data[j, i]), hi.data[j, i]);
        }
      }
      Grid.Extensional(ToVectors(), z);
    }

    /** `clamped`: `clamp` applied to a copy. */
    method Clamped(lo: Matrix, hi: Matrix) returns (r: Matrix)
      requires Valid() && lo.Valid() && hi.Valid()
      requires lo.M == M && lo.N == N && hi.M == M && hi.N == N
      requires M == N || M == 0 || N == 0
      ensures r.Valid() && fresh(r.data) && r.M == M && r.N == N
      ensures r.ToVectors() == Grid.Clamped(ToVectors(), lo.ToVectors(), hi.ToVectors(), N, M)
    {
      r := Copy();
      r.Clamp(lo, hi);
    }

    /** The loop shared by `max_by_component` and `min_by_component`: a copy
        whose entry `[[j, i]]`, `j < M`, `i < N`, is `f` of the two operands'
        entries. */
    method ByComponent(other: Matrix, f: (int, int) -> int) returns (r: Matrix)
      requires Valid() && other.Valid() && other.M == M && other.N == N
      requires M == N || M == 0 || N == 0
      ensures r.Valid() && fresh(r.data) && r.M == M && r.N == N
      ensures r.ToVectors() == Grid.Zip(ToVectors(), other.ToVectors(), N, M, f)
    {
      ghost var z := Grid.Zip(ToVectors(), other.ToVectors(), N, M, f);
      r := Copy();
      for j := 0 to M
        invariant forall x, y :: 0 <= x < N && 0 <= y < M ==>
          r.data[x, y] == if x < j then z[x][y] else data[x, y]
      {
        for i := 0 to N
          invariant forall x, y :: 0 <= x < N && 0 <= y < M ==>
            r.data[x, y] == if x < j || (x == j && y < i) then z[x][y] else data[x, y]
        {
          r.data[j, i] := f(data[j, i], other.data[j, i]);
        }
      }
      Grid.Extensional(r.ToVectors(), z);
    }

    /** `max_by_component`: the entry-wise larger of `self` and `other`
        (square or empty shapes only, as for `clamp`). */
    method MaxByComponent(other: Matrix) returns (r: Matrix)
      requires Valid() && other.Valid() && other.M == M && other.N == N
      requires M == N || M == 0 || N == 0
      ensures r.Valid() && fresh(r.data) && r.M == M && r.N == N
      ensures r.ToVectors() == Grid.Zip(ToVectors(), other.ToVectors(), N, M, Scalar.Maximum)
    {
      r := ByComponent(other, Scalar.Maximum);
    }

    /** `min_by_component`: the entry-wise smaller of `self` and `other`. */
    method MinByComponent(other: Matrix) returns (r: Matrix)
      requires Valid() && other.Valid() && other.M == M && other.N == N
      requires M == N || M == 0 || N == 0
      ensures r.Valid() && fresh(r.data) && r.M == M && r.N == N
      ensures r.ToVectors() == Grid.Zip(ToVectors(), other.ToVectors(), N, M, Scalar.Minimum)
    {
      r := ByComponent(other, Scalar.Minimum);
    }

    /** The loop shared by `+` and `-`: a default matrix whose entry
        `[[i, j]]`, `i < N`, `j < M`, is `f` of the operands' entries. */
    method Combine(rhs: Matrix, f: (int, int) -> int) returns (r: Matrix)
      requires Valid() && rhs.Valid() && rhs.M == M && rhs.N == N
      ensures r.Valid() && fresh(r.data) && r.M == M && r.N == N
      ensures r.ToVectors() == Grid.Zip(ToVectors(), rhs.ToVectors(), M, N, f)
    {
      ghost var z := Grid.Zip(ToVectors(), rhs.ToVectors(), M, N, f);
      r := Default(M, N);
      for i := 0 to N
        invariant forall x, y :: 0 <= x < N && 0 <= y < M ==>
          r.data[x, y] == if x < i then z[x][y] else Scalar.Zero
      {
        for j := 0 to M
          invariant forall x, y :: 0 <= x < N && 0 <= y < M ==>
            r.data[x, y] == if x < i || (x == i && y < j) then z[x][y] else Scalar.Zero
        {
          r.data[i, j] := f(data[i, j], rhs.data[i, j]);
        }
      }
      Grid.Extensional(r.ToVectors(), z);
    }

    /** `+`: the entry-wise sum. */
    method Add(rhs: Matrix) returns (r: Matrix)
      requires Valid() && rhs.Valid() && rhs.M == M && rhs.N == N
      ensures r.Valid() && fresh(r.data) && r.M == M && r.N == N
      ensures r.ToVectors() == Grid.Zip(ToVectors(), rhs.ToVectors(), M, N, Scalar.Add)
    {
      r := Combine(rhs, Scalar.Add);
    }

    /** `-`: the entry-wise difference. */
    method Sub(rhs: Matrix) returns (r: Matrix)
      requires Valid() && rhs.Valid() && rhs.M == M && rhs.N == N
      ensures r.Valid() && fresh(r.data) && r.M == M && r.N == N
      ensures r.ToVectors() == Grid.Zip(ToVectors(), rhs.ToVectors(), M, N, Scalar.Sub)
    {
      r := Combine(rhs, Scalar.Sub);
    }

    /** The loop shared by `+=` and `-=`: entry `[[i, j]]` becomes `f` of
        itself and `rhs`'s entry, in place. `rhs` is passed by value, so it
        never shares storage with `self`. */
    method CombineAssign(rhs: Matrix, f: (int, int) -> int)
      requires Valid() && rhs.Valid() && rhs.M == M && rhs.N == N && rhs.data != data
      modifies data
      ensures ToVectors() == Grid.Zip(old(ToVectors()), rhs.ToVectors(), M, N, f)
    {
      ghost var g := ToVectors();
      ghost var z := Grid.Zip(g, rhs.ToVectors(), M, N, f);
      for i := 0 to N
        invariant forall x, y :: 0 <= x < N && 0 <= y < M ==>
          data[x, y] == if x < i then z[x][y] else g[x][y]
      {
        for j := 0 to M
          invariant forall x, y :: 0 <= x < N && 0 <= y < M ==>
            data[x, y] == if x < i || (x == i && y < j) then z[x][y] else g[x][y]
        {
          data[i, j] := f(data[i, j], rhs.data[i, j]);
        }
      }
      Grid.Extensional(ToVectors(), z);
    }

    /** `+=`: in place, the same matrix `+` returns. */
    method AddAssign(rhs: Matrix)
      requires Valid() && rhs.Valid() && rhs.M == M && rhs.N == N && rhs.data != data
      modifies data
      ensures ToVectors() == Grid.Zip(old(ToVectors()), rhs.ToVectors(), M, N, Scalar.Add)
    {
      CombineAssign(rhs, Scalar.Add);
    }

    /** `-=`: in place, the same matrix `-` returns. */
    method SubAssign(rhs: Matrix)
      requires Valid() && rhs.Valid() && rhs.M == M && rhs.N == N && rhs.data != data
      modifies data
      ensures ToVectors() == Grid.Zip(old(ToVectors()), rhs.ToVectors(), M, N, Scalar.Sub)
    {
      CombineAssign(rhs, Scalar.Sub);
    }

    /** `*` by a matrix `Matrix<N, P>`: the `Matrix<M, P>` whose entry
        `[[p, m]]` accumulates `self[[n, m]] * rhs[[p, n]]` over `n < N`. */
    method Mul(rhs: Matrix) returns (r: Matrix)
      requires Valid() && rhs.Valid() && rhs.M == N
      ensures r.Valid() && fresh(r.data) && r.M == M && r.N == rhs.N
      ensures r.ToVectors() == Grid.Product(ToVectors(), rhs.ToVectors(), M, N, rhs.N)
    {
      var P := rhs.N;
      ghost var a, b := ToVectors(), rhs.ToVectors();
      r := Default(M, P);
      for m := 0 to M
        invariant forall x, y :: 0 <= x < P && 0 <= y < M ==>
          r.data[x, y] == if y < m then Grid.ProductEntry(a, b, y, x, N) else Scalar.Zero
      {
        for p := 0 to P
          invariant forall x, y :: 0 <= x < P && 0 <= y < M ==>
            r.data[x, y] == if y < m || (y == m && x < p) then Grid.ProductEntry(a, b, y, x, N) else Scalar.Zero
        {
          for n := 0 to N
            invariant forall x, y :: 0 <= x < P && 0 <= y < M ==>
              r.data[x, y] ==
                if y < m || (y == m && x < p) then Grid.ProductEntry(a, b, y, x, N)
                else if y == m && x == p then Grid.ProductEntry(a, b, y, x, n)
                else Scalar.Zero
          {
            r.data[p, m] := r.data[p, m] + data[n, m] * rhs.data[p, n];
          }
        }
      }
      Grid.Extensional(r.ToVectors(), Grid.Product(a, b, M, N, P));
    }

    /** The loop shared by `*= k` and `/= k`: entry `[[m, n]]`, `m < M`,
        `n < N`, becomes `f(entry, k)`. Only a square (or empty) matrix keeps
        that index range in bounds. */
    method ScalarAssign(k: int, f: (int, int) -> int)
      requires Valid() && (M == N || M == 0 || N == 0)
      modifies data
      ensures ToVectors() == Grid.Zip(old(ToVectors()), Grid.Filled(N, M, k), N, M, f)
    {
      ghost var g := ToVectors();
      ghost var z := Grid.Zip(g, Grid.Filled(N, M, k), N, M, f);
      for m := 0 to M
        invariant forall x, y :: 0 <= x < N && 0 <= y < M ==>
          data[x, y] == if x < m then z[x][y] else g[x][y]
      {
        for n := 0 to N
          invariant forall x, y :: 0 <= x < N && 0 <= y < M ==>
            data[x, y] == if x < m || (x == m && y < n) then z[x][y] else g[x][y]
        {
          data[m, n] := f(data[m, n], k);
        }
      }
      Grid.Extensional(ToVectors(), z);
    }

    /** `*= k`: every entry multiplied by `k`, in place. */
    method MulAssignScalar(k: int)
      requires Valid() && (M == N || M == 0 || N == 0)
      modifies data
      ensures ToVectors() == Grid.Zip(old(ToVectors()), Grid.Filled(N, M, k), N, M, Scalar.Mul)
    {
      ScalarAssign(k, Scalar.Mul);
    }

    /** `/= k`: every entry divided by `k` (truncating), in place; dividing a
        nonempty matrix by zero panics. */
    method DivAssignScalar(k: int)
      requires Valid() && (M == N || M == 0 || N == 0)
      requires k != 0 || M == 0 || N == 0
      modifies data
      ensures ToVectors() == Grid.Zip(old(ToVectors()), Grid.Filled(N, M, k), N, M, Scalar.Quot)
    {
      ScalarAssign(k, Scalar.Quot);
    }

    /** `* k`: scales a copy and then returns the operand itself, so the
        result equals `self`. It still needs the square shape the discarded
        scaling loop indexes. */
    method MulScalar(k: int) returns (r: Matrix)
      requires Valid() && (M == N || M == 0 || N == 0)
      ensures r.Valid() && fresh(r.data) && r.M == M && r.N == N
      ensures r.ToVectors() == ToVectors()
    {
      var mat := Copy();
      mat.MulAssignScalar(k);
      r := Copy();
    }

    /** `/ k`: divides a copy and then returns the operand itself, so the
        result equals `self`. */
    method DivScalar(k: int) returns (r: Matrix)
      requires Valid() && (M == N || M == 0 || N == 0)
      requires k != 0 || M == 0 || N == 0
      ensures r.Valid() && fresh(r.data) && r.M == M && r.N == N
      ensures r.ToVectors() == ToVectors()
    {
      var mat := Copy();
      mat.DivAssignScalar(k);
      r := Copy();
    }

    /** `determinant` of a square matrix of size at most 3; larger sizes
        panic as unimplemented. */
    function Determinant(): (d: int)
      requires Valid() && M == N && M <= 3
      reads data
      ensures d == DeterminantOf(ToVectors(), M)
    {
      DeterminantOf(ToVectors(), M)
    }
  }

  /** The closed-form determinant of an `m × m` matrix value as the source
      computes it, with `g[a][b]` for `self[[a, b]]`. The 2 × 2 case squares
      the entry `[[1, 0]]` where the cross term `[[1, 0]] * [[0, 1]]` belongs. */
  function DeterminantOf(g: Grid.Columns, m: nat): int
    requires m <= 3 && Grid.Shaped(g, m, m)
  {
    if m == 0 then Scalar.One
    else if m == 1 then g[0][0]
    else if m == 2 then g[0][0] * g[1][1] - g[1][0] * g[1][0]
    else
      var e11, e12, e13 := g[0][0], g[0][1], g[0][2];
      var e21, e22, e23 := g[1][0], g[1][1], g[1][2];
      var e31, e32, e33 := g[2][0], g[2][1], g[2][2];
      var minor1 := e22 * e33 - e32 * e23;
      var minor2 := e21 * e33 - e31 * e23;
      var minor3 := e21 * e32 - e31 * e22;
      e11 * minor1 - e12 * minor2 + e13 * minor3
  }

  /** The determinant with the 2 × 2 case written as the cross product
      `[[0, 0]] * [[1, 1]] - [[1, 0]] * [[0, 1]]`; the other sizes as above. */
  function CorrectedDeterminantOf(g: Grid.Columns, m: nat): int
    requires m <= 3 && Grid.Shaped(g, m, m)
  {
    if m == 2 then g[0][0] * g[1][1] - g[1][0] * g[0][1] else DeterminantOf(g, m)
  }

  /** Sizes 0 and 1: the multiplicative identity and the single entry. */
  lemma DeterminantSmall(g: Grid.Columns, m: nat)
    requires m <= 1 && Grid.Shaped(g, m, m)
    ensures m == 0 ==> DeterminantOf(g, m) == 1
    ensures m == 1 ==> DeterminantOf(g, m) == g[0][0]
  {
  }

  /** A diagonal 2 × 2 matrix has the product of its diagonal as determinant;
      `[[2, 0], [0, 3]]` gives 6. */
  lemma DeterminantDiagonal2(a: int, d: int)
    ensures DeterminantOf([[a, 0], [0, d]], 2) == a * d
    ensures DeterminantOf([[2, 0], [0, 3]], 2) == 6
  {
  }

  /** A 3 × 3 matrix with two equal columns has determinant 0. */
  lemma DeterminantRepeated3(g: Grid.Columns, i: nat, j: nat)
    requires Grid.Shaped(g, 3, 3) && i < j < 3 && g[i] == g[j]
    ensures DeterminantOf(g, 3) == 0
  {
    var e11, e12, e13 := g[0][0], g[0][1], g[0][2];
    var e21, e22, e23 := g[1][0], g[1][1], g[1][2];
    var e31, e32, e33 := g[2][0], g[2][1], g[2][2];
    if i == 0 && j == 1 {
      assert e11 * (e12 * e33 - e32 * e13) - e12 * (e11 * e33 - e31 * e13) + e13 * (e11 * e32 - e31 * e12) == 0;
    } else if i == 0 {
      assert e11 * (e22 * e13 - e12 * e23) - e12 * (e21 * e13 - e11 * e23) + e13 * (e21 * e12 - e11 * e22) == 0;
    } else {
      assert e11 * (e22 * e23 - e22 * e23) - e12 * (e21 * e23 - e21 * e23) + e13 * (e21 * e22 - e21 * e22) == 0;
    }
  }

  /** A 3 × 3 matrix in which two rows are equal (the same entry index in
      every column) has determinant 0. */
  lemma DeterminantRepeatedRow3(g: Grid.Columns, i: nat, j: nat)
    requires Grid.Shaped(g, 3, 3) && i < j < 3
    requires forall a :: 0 <= a < 3 ==> g[a][i] == g[a][j]
    ensures DeterminantOf(g, 3) == 0
  {
    var e11, e12, e13 := g[0][0], g[0][1], g[0][2];
    var e21, e22, e23 := g[1][0], g[1][1], g[1][2];
    var e31, e32, e33 := g[2][0], g[2][1], g[2][2];
    if i == 0 && j == 1 {
      assert e11 * (e21 * e33 - e31 * e23) - e11 * (e21 * e33 - e31 * e23) + e13 * (e21 * e31 - e31 * e21) == 0;
    } else if i == 0 {
      assert e11 * (e22 * e31 - e32 * e21) - e12 * (e21 * e31 - e31 * e21) + e11 * (e21 * e32 - e31 * e22) == 0;
    } else {
      assert e11 * (e22 * e32 - e32 * e22) - e12 * (e21 * e32 - e31 * e22) + e12 * (e21 * e32 - e31 * e22) == 0;
    }
  }

  /** Clamping `[[2, 0], [0, 0]]` between all zeros and all ones lowers the 2
      to 1 and leaves the in-range entries alone. */
  lemma ClampExample()
    ensures Grid.Clamped([[2, 0], [0, 0]], [[0, 0], [0, 0]], [[1, 1], [1, 1]], 2, 2) == [[1, 0], [0, 0]]
  {
    var z := Grid.Clamped([[2, 0], [0, 0]], [[0, 0], [0, 0]], [[1, 1], [1, 1]], 2, 2);
    Grid.ClampedWithinBounds([[2, 0], [0, 0]], [[0, 0], [0, 0]], [[1, 1], [1, 1]], 2, 2);
    assert z[0][0] == 1 by {
      var raised := Grid.Zip([[2, 0], [0, 0]], [[0, 0], [0, 0]], 2, 2, Scalar.Maximum);
      assert raised[0][0] == 2;
    }
    Grid.Extensional(z, [[1, 0], [0, 0]]);
  }

  /** As written, the 2 × 2 determinant is not 0 for two equal columns:
      `[[1, 2], [1, 2]]` gives 1. */
  lemma DeterminantRepeated2Fails()
    ensures DeterminantOf([[1, 2], [1, 2]], 2) == 1
  {
  }

  /** As written and corrected, the 2 × 2 determinants agree exactly when the
      entry `[[1, 0]]` is 0 or equals `[[0, 1]]`. */
  lemma DeterminantAgreement2(g: Grid.Columns)
    requires Grid.Shaped(g, 2, 2)
    ensures DeterminantOf(g, 2) == CorrectedDeterminantOf(g, 2) <==> g[1][0] == 0 || g[1][0] == g[0][1]
  {
    var x, y := g[1][0], g[0][1];
    assert CorrectedDeterminantOf(g, 2) - DeterminantOf(g, 2) == x * (x - y);
    if x * (x - y) == 0 {
      assert x == 0 || x - y == 0;
    }
  }

  /** The corrected determinant is 0 whenever two columns are equal, for
      every supported size. */
  lemma CorrectedDeterminantRepeated(g: Grid.Columns, m: nat, i: nat, j: nat)
    requires m <= 3 && Grid.Shaped(g, m, m) && i < j < m && g[i] == g[j]
    ensures CorrectedDeterminantOf(g, m) == 0
  {
    if m == 3 {
      DeterminantRepeated3(g, i, j);
    } else {
      assert i == 0 && j == 1;
      assert g[0][0] * g[1][1] - g[1][0] * g[0][1] == g[0][0] * g[0][1] - g[0][0] * g[0][1];
    }
  }
}
