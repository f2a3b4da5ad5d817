/** The dynamic containers `DVector<T>` and `DMatrix<T>`. Each keeps its
    entries next to a cached size that nothing re-checks: `DVector` holds
    `data` and `len`, `DMatrix` holds a sequence of columns `data` and
    `size = (column length, column count)`. The runtime assertions of the
    operators become preconditions, and so do the index ranges their loops
    walk. Arguments the source takes by value are read once, on entry. */
module Dynamic {
  import Scalar
  import Grid
  import Text
  import Wrappers

  class DVector {
    var data: seq<int>
    var len: nat

    /** The cached length agrees with the entries. */
    predicate Valid()
      reads this
    {
      |data| == len
    }

    /** The struct literal `DVector { data, len }`. */
    constructor Raw(data: seq<int>, len: nat)
      ensures this.data == data && this.len == len
    {
      this.data := data;
      this.len := len;
    }

    /** `DVector::new`: the length is cached from the entries. */
    constructor New(data: seq<int>)
      ensures this.data == data && len == |data| && Valid()
    {
      this.data := data;
      len := |data|;
    }

    /** `default`: no entries. */
    constructor Default()
      ensures data == [] && len == 0 && Valid()
    {
      data := [];
      len := 0;
    }

    /** `default_with_size`: `n` default entries. */
    constructor DefaultWithSize(n: nat)
      ensures data == seq(n, _ => Scalar.Zero) && len == n && Valid()
    {
      data := seq(n, _ => Scalar.Zero);
      len := n;
    }

    /** `From<DMatrix>`: column 0 of a one-column matrix, with the matrix's
        cached column length as the length. */
    constructor FromMatrix(m: DMatrix)
      requires m.size.1 == 1 && |m.data| > 0
      ensures data == m.data[0] && len == m.size.0
    {
      data := m.data[0];
      len := m.size.0;
    }

    /** `From<&str>` and `From<String>`: one entry per space-separated token. */
    constructor FromStr(s: string, parse: string -> Wrappers.Option<int>)
      ensures data == Entries(s, parse) && len == |data|
    {
      data := Entries(s, parse);
      len := |Entries(s, parse)|;
    }

    /** `clone`. */
    method Clone() returns (r: DVector)
      ensures fresh(r) && r.data == data && r.len == len
    {
      r := new DVector.Raw(data, len);
    }

    /** `dot`: the sum of the first `len` entries of `self`, starting from the
        default; `other` is never read. */
    method Dot(other: DVector) returns (sum: int)
      requires len <= |data|
      ensures sum == Scalar.Total(data[..len])
    {
      sum := Scalar.Zero;
      for i := 0 to len
        invariant sum == Scalar.Total(data[..i])
      {
        assert data[..i + 1][..i] == data[..i];
        sum := sum + data[i];
      }
    }

    /** The loop shared by `+=` and `-=`: entry `i < len` becomes `f` of
        itself and `rhs`'s entry `i`. */
    method ZipAssign(rhs: DVector, f: (int, int) -> int)
      requires len == rhs.len && len <= |data| && len <= |rhs.data|
      modifies this
      ensures len == old(len)
      ensures data == Grid.ZipPrefix(old(data), old(rhs.data), len, f)
    {
      var b := rhs.data;
      ghost var a := data;
      for i := 0 to len
        invariant len == old(len) && |data| == |a|
        invariant forall j :: 0 <= j < |a| ==> data[j] == if j < i then f(a[j], b[j]) else a[j]
      {
        data := data[i := f(data[i], b[i])];
      }
    }

    /** `+=`: the entries below `len` gain `rhs`'s. */
    method AddAssign(rhs: DVector)
      requires len == rhs.len && len <= |data| && len <= |rhs.data|
      modifies this
      ensures len == old(len)
      ensures data == Grid.ZipPrefix(old(data), old(rhs.data), len, Scalar.Add)
    {
      ZipAssign(rhs, Scalar.Add);
    }

    /** `-=`: the entries below `len` lose `rhs`'s. */
    method SubAssign(rhs: DVector)
      requires len == rhs.len && len <= |data| && len <= |rhs.data|
      modifies this
      ensures len == old(len)
      ensures data == Grid.ZipPrefix(old(data), old(rhs.data), len, Scalar.Sub)
    {
      ZipAssign(rhs, Scalar.Sub);
    }

    /** `+`: a clone with `+=` applied. */
    method Add(rhs: DVector) returns (r: DVector)
      requires len == rhs.len && len <= |data| && len <= |rhs.data|
      ensures fresh(r) && r.len == len
      ensures r.data == Grid.ZipPrefix(data, rhs.data, len, Scalar.Add)
    {
      r := Clone();
      r.ZipAssign(rhs, Scalar.Add);
    }

    /** `-`: a clone with `-=` applied. */
    method Sub(rhs: DVector) returns (r: DVector)
      requires len == rhs.len && len <= |data| && len <= |rhs.data|
      ensures fresh(r) && r.len == len
      ensures r.data == Grid.ZipPrefix(data, rhs.data, len, Scalar.Sub)
    {
      r := Clone();
      r.ZipAssign(rhs, Scalar.Sub);
    }
  }

  /** The size `DMatrix::new` caches: the number of columns, and the length
      of the first column or 0 when there is none. */
  function SizeOf(g: Grid.Columns): (nat, nat)
  {
    (if |g| == 0 then 0 else |g[0]|, |g|)
  }

  /** The value `s.split(" ")` with every token parsed, an unparsable token
      giving the default. */
  function Entries(s: string, parse: string -> Wrappers.Option<int>): (v: seq<int>)
    ensures |v| == Text.Count(s, ' ') + 1
  {
    var tokens := Text.Split(s, ' ');
    seq(|tokens|, i requires 0 <= i < |tokens| => parse(tokens[i]).GetOr(Scalar.Zero))
  }

  /** The columns `s.split(";")` gives, each read by `Entries`. */
  function Columns(s: string, parse: string -> Wrappers.Option<int>): (g: Grid.Columns)
    ensures |g| == Text.Count(s, ';') + 1
    ensures forall c :: 0 <= c < |g| ==> |g[c]| == Text.Count(Text.Split(s, ';')[c], ' ') + 1
  {
    var segments := Text.Split(s, ';');
    seq(|segments|, c requires 0 <= c < |segments| => Entries(segments[c], parse))
  }

  class DMatrix {
    var data: Grid.Columns
    var size: (nat, nat)

    /** The cached size agrees with the columns: `size.1` columns of
        `size.0` entries each. */
    predicate Valid()
      reads this
    {
      Grid.Shaped(data, size.0, size.1)
    }

    /** The struct literal `DMatrix { data, size }`. */
    constructor Raw(data: Grid.Columns, size: (nat, nat))
      ensures this.data == data && this.size == size
    {
      this.data := data;
      this.size := size;
    }

    /** `DMatrix::new`: the size is cached from the number of columns and the
        length of the first one; the other columns are not checked. */
    constructor New(data: Grid.Columns)
      ensures this.data == data && size == SizeOf(data)
    {
      this.data := data;
      size := SizeOf(data);
    }

    /** `default`: no columns and size `(0, 0)`. */
    constructor Default()
      ensures data == [] && size == (0, 0) && Valid()
    {
      data := [];
      size := (0, 0);
    }

    /** `default_with_size`: `size.1` columns of `size.0` default entries. */
    constructor DefaultWithSize(size: (nat, nat))
      ensures data == Grid.Filled(size.0, size.1, Scalar.Zero) && this.size == size && Valid()
    {
      data := Grid.Filled(size.0, size.1, Scalar.Zero);
      this.size := size;
    }

    /** `From<DVector>`: the vector as the only column, with the size cached
        as `(len, 0)`. */
    constructor FromVector(v: DVector)
      ensures data == [v.data] && size == VectorSize(v.len)
    {
      data := [v.data];
      size := VectorSize(v.len);
    }

    /** The conversion from a vector with the column count 1 a single column
        has. */
    constructor FromVectorAsColumn(v: DVector)
      ensures data == [v.data] && size == (v.len, 1)
    {
      data := [v.data];
      size := (v.len, 1);
    }

    /** `From<String>` and `From<&str>`: one column per `;`-separated segment,
        the size taken from the first column and the number of segments. */
    constructor FromStr(s: string, parse: string -> Wrappers.Option<int>)
      ensures data == Columns(s, parse) && size == (|data[0]|, |data|)
    {
      data := Columns(s, parse);
      size := (|Columns(s, parse)[0]|, |Columns(s, parse)|);
    }

    /** `From<[[T; M]; N]>`: a default `(M, N)` matrix whose entry `[n][m]` is
        then copied from the array, row by row. */
    static method FromArray(M: nat, N: nat, rhs: Grid.Columns) returns (r: DMatrix)
      requires Grid.Shaped(rhs, M, N)
      ensures fresh(r) && r.data == rhs && r.size == (M, N) && r.Valid()
    {
      r := new DMatrix.DefaultWithSize((M, N));
      for m := 0 to M
        invariant r.size == (M, N) && Grid.Shaped(r.data, M, N)
        invariant forall c, x :: 0 <= c < N && 0 <= x < M ==>
          r.data[c][x] == if x < m then rhs[c][x] else Scalar.Zero
      {
        for n := 0 to N
          invariant r.size == (M, N) && Grid.Shaped(r.data, M, N)
          invariant forall c, x :: 0 <= c < N && 0 <= x < M ==>
            r.data[c][x] == if x < m || (x == m && c < n) then rhs[c][x] else Scalar.Zero
        {
          r.data := r.data[n := r.data[n][m := rhs[n][m]]];
        }
      }
      Grid.Extensional(r.data, rhs);
    }

    /** `clone`. */
    method Clone() returns (r: DMatrix)
      ensures fresh(r) && r.data == data && r.size == size
    {
      r := new DMatrix.Raw(data, size);
    }

    /** The loop shared by `+=` and `-=`: entry `[n][m]`, `m < size.0`,
        `n < size.1`, becomes `f` of itself and `rhs`'s entry. */
    method ZipAssign(rhs: DMatrix, f: (int, int) -> int)
      requires size == rhs.size
      requires Grid.Covers(data, size.0, size.1) && Grid.Covers(rhs.data, size.0, size.1)
      modifies this
      ensures size == old(size)
      ensures data == Grid.Zip(old(data), old(rhs.data), size.0, size.1, f)
    {
      var b := rhs.data;
      ghost var g := data;
      var rows, cols := size.0, size.1;
      for m := 0 to rows
        invariant size == old(size) && Grid.Covers(b, rows, cols)
        invariant Grid.SameShape(data, g)
        invariant forall c, r :: 0 <= c < |g| && 0 <= r < |g[c]| ==>
          data[c][r] == if c < cols && r < m then f(g[c][r], b[c][r]) else g[c][r]
      {
        for n := 0 to cols
          invariant size == old(size)
          invariant Grid.SameShape(data, g)
          invariant forall c, r :: 0 <= c < |g| && 0 <= r < |g[c]| ==>
            data[c][r] == if (c < cols && r < m) || (c < n && r == m) then f(g[c][r], b[c][r]) else g[c][r]
        {
          data := data[n := data[n][m := f(data[n][m], b[n][m])]];
        }
      }
      Grid.Extensional(data, Grid.Zip(g, b, rows, cols, f));
    }

    /** `+=`: in place, the entry-wise sum over the cached size. */
    method AddAssign(rhs: DMatrix)
      requires size == rhs.size
      requires Grid.Covers(data, size.0, size.1) && Grid.Covers(rhs.data, size.0, size.1)
      modifies this
      ensures size == old(size)
      ensures data == Grid.Zip(old(data), old(rhs.data), size.0, size.1, Scalar.Add)
    {
      ZipAssign(rhs, Scalar.Add);
    }

    /** `-=`: in place, the entry-wise difference over the cached size. */
    method SubAssign(rhs: DMatrix)
      requires size == rhs.size
      requires Grid.Covers(data, size.0, size.1) && Grid.Covers(rhs.data, size.0, size.1)
      modifies this
      ensures size == old(size)
      ensures data == Grid.Zip(old(data), old(rhs.data), size.0, size.1, Scalar.Sub)
    {
      ZipAssign(rhs, Scalar.Sub);
    }

    /** `+`: a clone with `+=` applied. */
    method Add(rhs: DMatrix) returns (r: DMatrix)
      requires size == rhs.size
      requires Grid.Covers(data, size.0, size.1) && Grid.Covers(rhs.data, size.0, size.1)
      ensures fresh(r) && r.size == size
      ensures r.data == Grid.Zip(data, rhs.data, size.0, size.1, Scalar.Add)
    {
      r := Clone();
      r.ZipAssign(rhs, Scalar.Add);
    }

    /** `-`: a clone with `-=` applied. */
    method Sub(rhs: DMatrix) returns (r: DMatrix)
      requires size == rhs.size
      requires Grid.Covers(data, size.0, size.1) && Grid.Covers(rhs.data, size.0, size.1)
      ensures fresh(r) && r.size == size
      ensures r.data == Grid.Zip(data, rhs.data, size.0, size.1, Scalar.Sub)
    {
      r := Clone();
      r.ZipAssign(rhs, Scalar.Sub);
    }

    /** `*` by a matrix. The assertion compares `size.0` with `rhs.size.1`,
        and the result is a default matrix of size `(rhs.size.1, size.0)`
        whose entry `[p][m]` accumulates `data[n][m] * rhs.data[p][n]` over
        `n < size.1`. */
    method Mul(rhs: DMatrix) returns (r: DMatrix)
      requires MulAdmits(size, rhs.size)
      requires Grid.Covers(data, size.0, size.1) && Grid.Covers(rhs.data, size.1, rhs.size.1)
      ensures fresh(r) && r.size == (rhs.size.1, size.0) && r.Valid()
      ensures r.data == Grid.Product(data, rhs.data, size.0, size.1, rhs.size.1)
    {
      var z := ProductOf(data, rhs.data, size.0, size.1, rhs.size.1);
      r := new DMatrix.Raw(z, (rhs.size.1, size.0));
    }

    /** The product with the operand sizes checked on the shared dimension:
        `size.1 == rhs.size.0`, giving size `(size.0, rhs.size.1)`. */
    method MulChecked(rhs: DMatrix) returns (r: DMatrix)
      requires size.1 == rhs.size.0
      requires Grid.Covers(data, size.0, size.1) && Grid.Covers(rhs.data, size.1, rhs.size.1)
      ensures fresh(r) && r.size == (size.0, rhs.size.1) && r.Valid()
      ensures r.data == Grid.Product(data, rhs.data, size.0, size.1, rhs.size.1)
    {
      var z := ProductOf(data, rhs.data, size.0, size.1, rhs.size.1);
      r := new DMatrix.Raw(z, (size.0, rhs.size.1));
    }

    /** `*=` by a matrix: under the same assertion as `*`, entry `[p][m]`,
        `m < size.0`, `p < rhs.size.1`, is multiplied in place by every
        `rhs.data[p][n]`, `n < size.1`: column `p` is scaled by the product of
        `rhs`'s column `p`. With `size.1 == 0` the innermost loop never runs
        and `self` is left as it was. */
    method MulAssign(rhs: DMatrix)
      requires MulAdmits(size, rhs.size)
      requires size.1 == 0 || Grid.Covers(data, size.0, rhs.size.1)
      requires Grid.Covers(rhs.data, size.1, rhs.size.1)
      modifies this
      ensures size == old(size)
      ensures old(size.1) == 0 ==> data == old(data)
      ensures data == Grid.Zip(old(data), ColumnScales(old(rhs.data), size.1, size.0, old(rhs.size.1)),
                               size.0, old(rhs.size.1), Scalar.Mul)
    {
      var b := rhs.data;
      ghost var g := data;
      var rows, inner, cols := size.0, size.1, rhs.size.1;
      ghost var z := Grid.Zip(g, ColumnScales(b, inner, rows, cols), rows, cols, Scalar.Mul);
      for m := 0 to rows
        invariant size == old(size) && Grid.Covers(b, inner, cols)
        invariant Grid.SameShape(data, g)
        invariant forall c, r :: 0 <= c < |g| && 0 <= r < |g[c]| ==>
          data[c][r] == if r < m then z[c][r] else g[c][r]
      {
        for p := 0 to cols
          invariant size == old(size)
          invariant Grid.SameShape(data, g)
          invariant forall c, r :: 0 <= c < |g| && 0 <= r < |g[c]| ==>
            data[c][r] == if r < m || (r == m && c < p) then z[c][r] else g[c][r]
        {
          for n := 0 to inner
            invariant size == old(size)
            invariant Grid.SameShape(data, g)
            invariant forall c, r :: 0 <= c < |g| && 0 <= r < |g[c]| ==>
              data[c][r] ==
                if r < m || (r == m && c < p) then z[c][r]
                else if r == m && c == p then g[c][r] * Scalar.Prod(n, Grid.ColumnOf(b, p))
                else g[c][r]
          {
            ghost var before := data[p][m];
            data := data[p := data[p][m := data[p][m] * b[p][n]]];
            assert before * b[p][n] == g[p][m] * Scalar.Prod(n + 1, Grid.ColumnOf(b, p)) by {
              assert Grid.ColumnOf(b, p)(n) == b[p][n];
              MulAssociates(g[p][m], Scalar.Prod(n, Grid.ColumnOf(b, p)), b[p][n]);
            }
          }
        }
      }
      Grid.Extensional(data, z);
      if inner == 0 {
        EmptyScalesKeep(g, b, rows, cols);
      }
    }

    /** The in-place product with the sizes checked on the shared dimension. */
    method MulAssignChecked(rhs: DMatrix)
      requires size.1 == rhs.size.0
      requires Grid.Covers(data, size.0, size.1) && Grid.Covers(rhs.data, size.1, rhs.size.1)
      modifies this
      ensures size == (old(size.0), old(rhs.size.1)) && Valid()
      ensures data == Grid.Product(old(data), old(rhs.data), old(size.0), old(size.1), old(rhs.size.1))
    {
      var z := ProductOf(data, rhs.data, size.0, size.1, rhs.size.1);
      data, size := z, (size.0, rhs.size.1);
    }

    /** `*` by a vector: the vector converted to a matrix, the product, and
        the result converted back to a vector, with `None` for a panic. The
        converted vector has cached column count 0, so the product's
        assertion passes only for `size.0 == 0`, and then the product has
        column count 0, which the conversion back rejects: every call
        panics. */
    method MulVector(v: DVector) returns (r: Wrappers.Option<DVector>)
      ensures r.None?
    {
      var m := new DMatrix.FromVector(v);
      if !MulAdmits(size, m.size) {
        return Wrappers.None;
      }
      var p := Mul(m);
      if p.size.1 == 1 {
        assert false;
      }
      r := Wrappers.None;
    }

    /** Matrix times vector through the single-column conversion and the
        product with checked sizes: entry `m` is
        `Σ_{n < size.1} data[n][m] * v.data[n]`. */
    method MulVectorChecked(v: DVector) returns (w: DVector)
      requires size.1 == v.len && v.len <= |v.data|
      requires Grid.Covers(data, size.0, size.1)
      ensures fresh(w) && w.len == size.0 && |w.data| == size.0
      ensures forall m :: 0 <= m < size.0 ==> w.data[m] == Scalar.Sum(size.1, Grid.ProductTerm(data, [v.data], m, 0))
    {
      var col := new DMatrix.FromVectorAsColumn(v);
      var p := MulChecked(col);
      w := new DVector.FromMatrix(p);
    }

    /** The loop shared by `*= k` and `/= k`: entry `[m][n]`, `m < size.0`,
        `n < size.1`, becomes `f(entry, k)`. The column index runs up to the
        column length, so a consistent size must be square or empty. */
    method ScaleAssign(k: int, f: (int, int) -> int)
      requires Grid.Covers(data, size.1, size.0)
      modifies this
      ensures size == old(size)
      ensures data == Grid.Zip(old(data), Grid.Filled(size.1, size.0, k), size.1, size.0, f)
    {
      ghost var g := data;
      var cols, rows := size.0, size.1;
      ghost var z := Grid.Zip(g, Grid.Filled(rows, cols, k), rows, cols, f);
      for m := 0 to cols
        invariant size == old(size)
        invariant Grid.SameShape(data, g)
        invariant forall c, r :: 0 <= c < |g| && 0 <= r < |g[c]| ==>
          data[c][r] == if c < m then z[c][r] else g[c][r]
      {
        for n := 0 to rows
          invariant size == old(size)
          invariant Grid.SameShape(data, g)
          invariant forall c, r :: 0 <= c < |g| && 0 <= r < |g[c]| ==>
            data[c][r] == if c < m || (c == m && r < n) then z[c][r] else g[c][r]
        {
          data := data[m := data[m][n := f(data[m][n], k)]];
        }
      }
      Grid.Extensional(data, z);
    }

    /** `*= k`: every entry in range multiplied by `k`, in place. */
    method MulAssignScalar(k: int)
      requires Grid.Covers(data, size.1, size.0)
      modifies this
      ensures size == old(size)
      ensures data == Grid.Zip(old(data), Grid.Filled(size.1, size.0, k), size.1, size.0, Scalar.Mul)
    {
      ScaleAssign(k, Scalar.Mul);
    }

    /** `/= k`: every entry in range divided by `k`, truncating, in place;
        dividing any entry by zero panics. */
    method DivAssignScalar(k: int)
      requires Grid.Covers(data, size.1, size.0)
      requires k != 0 || size.0 == 0 || size.1 == 0
      modifies this
      ensures size == old(size)
      ensures data == Grid.Zip(old(data), Grid.Filled(size.1, size.0, k), size.1, size.0, Scalar.Quot)
    {
      ScaleAssign(k, Scalar.Quot);
    }

    /** `* k`: scales a clone, then returns the operand itself, unscaled. */
    method MulScalar(k: int) returns (r: DMatrix)
      requires Grid.Covers(data, size.1, size.0)
      ensures r == this && r.data == data && r.size == size
    {
      var mat := Clone();
      mat.MulAssignScalar(k);
      r := this;
    }

    /** `/ k`: divides a clone, then returns the operand itself, undivided. */
    method DivScalar(k: int) returns (r: DMatrix)
      requires Grid.Covers(data, size.1, size.0)
      requires k != 0 || size.0 == 0 || size.1 == 0
      ensures r == this && r.data == data && r.size == size
    {
      var mat := Clone();
      mat.DivAssignScalar(k);
      r := this;
    }
  }

  /** The size `From<DVector>` caches for a vector of length `len`. */
  function VectorSize(len: nat): (nat, nat)
  {
    (len, 0)
  }

  /** Why a converted vector always panics: its cached column count is 0,
      never the 1 that `From<DMatrix>` asserts; a product with it passes the
      assertion of `*` only for a left operand of column length 0, and that
      product's column count, the left operand's column length, is 0 too. */
  lemma ConvertedVectorPanics(len: nat, lhs: (nat, nat))
    ensures VectorSize(len).1 != 1
    ensures MulAdmits(lhs, VectorSize(len)) ==> lhs.0 == 0 && lhs.0 != 1
  {
  }

  lemma MulAssociates(x: int, y: int, z: int)
    ensures x * y * z == x * (y * z)
  {
  }

  /** The scale factors `*=` by a matrix applies: `cols` columns of `rows`
      copies of the product of the first `inner` entries of `b`'s column. */
  function ColumnScales(b: Grid.Columns, inner: nat, rows: nat, cols: nat): (z: Grid.Columns)
    ensures Grid.Shaped(z, rows, cols)
    ensures forall p, m :: 0 <= p < cols && 0 <= m < rows ==> z[p][m] == Scalar.Prod(inner, Grid.ColumnOf(b, p))
  {
    seq(cols, p requires 0 <= p < cols => seq(rows, _ => Scalar.Prod(inner, Grid.ColumnOf(b, p))))
  }

  /** Scale factors that are empty products are all 1, so scaling by them
      changes nothing. */
  lemma EmptyScalesKeep(g: Grid.Columns, b: Grid.Columns, rows: nat, cols: nat)
    ensures Grid.Zip(g, ColumnScales(b, 0, rows, cols), rows, cols, Scalar.Mul) == g
  {
    var z := Grid.Zip(g, ColumnScales(b, 0, rows, cols), rows, cols, Scalar.Mul);
    forall c, r | 0 <= c < |g| && 0 <= r < |g[c]|
      ensures z[c][r] == g[c][r]
    {
      if c < cols && r < rows {
        assert z[c][r] == g[c][r] * Scalar.Prod(0, Grid.ColumnOf(b, c));
      }
    }
    Grid.Extensional(z, g);
  }

  /** The accumulation loop of the products: a zero matrix of `cols` columns
      of `rows` entries whose entry `[p][m]` gains `a[n][m] * b[p][n]` for
      every `n < inner`. */
  method ProductOf(a: Grid.Columns, b: Grid.Columns, rows: nat, inner: nat, cols: nat) returns (z: Grid.Columns)
    requires Grid.Covers(a, rows, inner) && Grid.Covers(b, inner, cols)
    ensures z == Grid.Product(a, b, rows, inner, cols)
  {
    z := Grid.Filled(rows, cols, Scalar.Zero);
    for m := 0 to rows
      invariant Grid.Shaped(z, rows, cols)
      invariant forall x, y :: 0 <= x < cols && 0 <= y < rows ==>
        z[x][y] == if y < m then Grid.ProductEntry(a, b, y, x, inner) else Scalar.Zero
    {
      for p := 0 to cols
        invariant Grid.Shaped(z, rows, cols)
        invariant forall x, y :: 0 <= x < cols && 0 <= y < rows ==>
          z[x][y] == if y < m || (y == m && x < p) then Grid.ProductEntry(a, b, y, x, inner) else Scalar.Zero
      {
        for n := 0 to inner
          invariant Grid.Shaped(z, rows, cols)
          invariant forall x, y :: 0 <= x < cols && 0 <= y < rows ==>
            z[x][y] ==
              if y < m || (y == m && x < p) then Grid.ProductEntry(a, b, y, x, inner)
              else if y == m && x == p then Grid.ProductEntry(a, b, y, x, n)
              else Scalar.Zero
        {
          z := z[p := z[p][m := z[p][m] + a[n][m] * b[p][n]]];
        }
      }
    }
    Grid.Extensional(z, Grid.Product(a, b, rows, inner, cols));
  }

  /** The assertion `*` and `*=` by a matrix make: the left operand's column
      length equals the right operand's column count. */
  predicate MulAdmits(lhs: (nat, nat), rhs: (nat, nat))
  {
    lhs.0 == rhs.1
  }

  /** For operands whose shared dimension agrees (`rows × inner` times
      `inner × cols`), the assertion holds exactly when the product is
      square: a `2 × 3` matrix times a `3 × 1` column is rejected, while
      `2 × 3` times `4 × 2`, whose shared dimensions differ, is accepted. */
  lemma MulAdmitsOnlySquare(rows: nat, inner: nat, cols: nat)
    ensures MulAdmits((rows, inner), (inner, cols)) <==> rows == cols
    ensures !MulAdmits((2, 3), (3, 1)) && MulAdmits((2, 3), (4, 2))
  {
  }

  /** `new` caches the right size exactly when the columns all have the
      length of the first; for such input it is `(column length, column
      count)`, and ragged input such as `[[1], [2, 3]]` is accepted with a
      size that describes only its first column. */
  lemma NewSize(g: Grid.Columns)
    ensures Grid.Shaped(g, SizeOf(g).0, SizeOf(g).1) <==> forall c :: 0 <= c < |g| ==> |g[c]| == SizeOf(g).0
    ensures forall rows: nat, cols: nat :: Grid.Shaped(g, rows, cols) && (cols > 0 || rows == 0) ==> SizeOf(g) == (rows, cols)
    ensures SizeOf([[1], [2, 3]]) == (1, 2) && !Grid.Shaped([[1], [2, 3]], 1, 2)
  {
    assert |[[1], [2, 3]][1]| == 2;
  }

  /** On a consistent size, the index range of the scalar operators is in
      bounds exactly for square or empty shapes. */
  lemma ScaleNeedsSquare(g: Grid.Columns, rows: nat, cols: nat)
    requires Grid.Shaped(g, rows, cols)
    ensures Grid.Covers(g, cols, rows) <==> rows == cols || rows == 0 || cols == 0
  {
    if Grid.Covers(g, cols, rows) && rows != 0 && cols != 0 {
      assert cols <= |g[0]|;
    }
  }

  /** What `dot` returns for a sum is the sum of what it returns for the
      operands: the total of `(a + b)[..n]` is the total of `a[..n]` plus the
      total of `b[..n]`. */
  lemma DotOfSum(a: seq<int>, b: seq<int>, n: nat)
    requires n <= |a| && n <= |b|
    ensures Scalar.Total(Grid.ZipPrefix(a, b, n, Scalar.Add)[..n]) == Scalar.Total(a[..n]) + Scalar.Total(b[..n])
  {
    Scalar.TotalPointwise(a[..n], b[..n], Grid.ZipPrefix(a, b, n, Scalar.Add)[..n]);
  }

  /** `dot` of a default vector is the default. */
  lemma DotOfDefault(n: nat)
    ensures Scalar.Total(seq(n, _ => Scalar.Zero)[..n]) == Scalar.Zero
  {
    assert seq(n, _ => Scalar.Zero)[..n] == seq(n, _ => Scalar.Zero);
    Scalar.TotalZeros(n);
  }

  /** Each entry read from text is the parsed token, or the default when the
      token does not parse. */
  lemma EntriesTokens(s: string, parse: string -> Wrappers.Option<int>, i: nat)
    requires i < |Text.Split(s, ' ')|
    ensures i < |Entries(s, parse)|
    ensures parse(Text.Split(s, ' ')[i]).Some? ==> Entries(s, parse)[i] == parse(Text.Split(s, ' ')[i]).value
    ensures parse(Text.Split(s, ' ')[i]).None? ==> Entries(s, parse)[i] == Scalar.Zero
  {
  }

  /** The decimal forms of the entries. */
  function Shown(v: seq<int>): (t: seq<string>)
    ensures |t| == |v| && forall i :: 0 <= i < |v| ==> t[i] == Text.Show(v[i])
  {
    seq(|v|, i requires 0 <= i < |v| => Text.Show(v[i]))
  }

  /** A nonempty run of entries in decimal, separated by single spaces. */
  function RenderEntries(v: seq<int>): string
    requires |v| >= 1
  {
    Text.Join(Shown(v), ' ')
  }

  /** Each nonempty column rendered by `RenderEntries`. */
  function ShownColumns(g: Grid.Columns): (t: seq<string>)
    requires forall c :: 0 <= c < |g| ==> |g[c]| >= 1
    ensures |t| == |g| && forall c :: 0 <= c < |g| ==> t[c] == RenderEntries(g[c])
  {
    seq(|g|, c requires 0 <= c < |g| => RenderEntries(g[c]))
  }

  /** Nonempty columns rendered by `RenderEntries`, separated by `;`. */
  function RenderColumns(g: Grid.Columns): string
    requires |g| >= 1 && forall c :: 0 <= c < |g| ==> |g[c]| >= 1
  {
    Text.Join(ShownColumns(g), ';')
  }

  /** Every decimal form parses back and holds neither separator. */
  lemma ShownParses(v: seq<int>)
    ensures forall i :: 0 <= i < |v| ==> Text.ParseInt(Shown(v)[i]) == Wrappers.Some(v[i])
    ensures forall i :: 0 <= i < |v| ==> ' ' !in Shown(v)[i] && ';' !in Shown(v)[i]
  {
    forall i | 0 <= i < |v|
      ensures Text.ParseInt(Shown(v)[i]) == Wrappers.Some(v[i])
      ensures ' ' !in Shown(v)[i] && ';' !in Shown(v)[i]
    {
      Text.ParseShow(v[i]);
    }
  }

  /** Reading rendered entries back gives them unchanged, and the rendering
      holds no `;`. */
  lemma EntriesRender(v: seq<int>)
    requires |v| >= 1
    ensures Entries(RenderEntries(v), Text.ParseInt) == v
    ensures ';' !in RenderEntries(v)
  {
    var shown := Shown(v);
    ShownParses(v);
    Text.SplitJoin(shown, ' ');
    Text.JoinAvoids(shown, ' ', ';');
    var e := Entries(RenderEntries(v), Text.ParseInt);
    assert |e| == |v|;
    forall i | 0 <= i < |v|
      ensures e[i] == v[i]
    {
      assert e[i] == Text.ParseInt(shown[i]).GetOr(Scalar.Zero);
    }
  }

  /** Reading rendered columns back gives them unchanged: the text
      constructors invert the rendering of any nonempty matrix. */
  lemma {:induction false} ColumnsRender(g: Grid.Columns)
    requires |g| >= 1 && forall c :: 0 <= c < |g| ==> |g[c]| >= 1
    ensures Columns(RenderColumns(g), Text.ParseInt) == g
  {
    var pieces := ShownColumns(g);
    forall c | 0 <= c < |g|
      ensures ';' !in pieces[c] && Entries(pieces[c], Text.ParseInt) == g[c]
    {
      EntriesRender(g[c]);
    }
    Text.SplitJoin(pieces, ';');
    Grid.Extensional(Columns(RenderColumns(g), Text.ParseInt), g);
  }

  /** The text `"4 3 2;2 2 -1"` reads as two columns of three entries, so
      the cached size is `(3, 2)`; `"4 3 2"` reads as a vector of length 3. */
  lemma FromStrExample()
    ensures Columns("4 3 2;2 2 -1", Text.ParseInt) == [[4, 3, 2], [2, 2, -1]]
    ensures Entries("4 3 2", Text.ParseInt) == [4, 3, 2]
  {
    var g: Grid.Columns := [[4, 3, 2], [2, 2, -1]];
    assert Text.Show(4) == "4" && Text.Show(3) == "3" && Text.Show(2) == "2" && Text.Show(-1) == "-1";
    assert Shown([4, 3, 2]) == ["4", "3", "2"];
    assert Shown([2, 2, -1]) == ["2", "2", "-1"];
    assert RenderEntries([4, 3, 2]) == "4 3 2" by {
      assert ["4", "3", "2"][1..] == ["3", "2"] && ["3", "2"][1..] == ["2"];
    }
    assert RenderEntries([2, 2, -1]) == "2 2 -1" by {
      assert ["2", "2", "-1"][1..] == ["2", "-1"] && ["2", "-1"][1..] == ["-1"];
    }
    var pieces := ShownColumns(g);
    assert pieces == ["4 3 2", "2 2 -1"];
    assert pieces[1..] == ["2 2 -1"];
    assert RenderColumns(g) == "4 3 2;2 2 -1";
    ColumnsRender(g);
    EntriesRender([4, 3, 2]);
  }

  /** A vector converted to a matrix and back, with `None` for a panic: the
      matrix has cached column count 0 and the conversion back asserts 1, so
      every vector panics. */
  method VectorRoundTrip(v: DVector) returns (r: Wrappers.Option<DVector>)
    ensures r.None?
  {
    var m := new DMatrix.FromVector(v);
    if m.size.1 == 1 {
      assert false;
    }
    r := Wrappers.None;
  }

  /** The same round trip through the single-column conversion gives the
      vector back. */
  method VectorRoundTripCorrected(v: DVector) returns (w: DVector)
    ensures fresh(w) && w.data == v.data && w.len == v.len
  {
    var m := new DMatrix.FromVectorAsColumn(v);
    w := new DVector.FromMatrix(m);
  }

  /** `+` followed by `-=` on its result gives the left operand back. The
      sum is a fresh matrix, so the subtraction touches neither operand. */
  method AddThenSubAssign(a: DMatrix, b: DMatrix) returns (c: DMatrix)
    requires a.size == b.size
    requires Grid.Covers(a.data, a.size.0, a.size.1) && Grid.Covers(b.data, a.size.0, a.size.1)
    ensures fresh(c) && c.data == a.data && c.size == a.size
  {
    c := a.Add(b);
    c.SubAssign(b);
    Grid.SubtractUndoesAdd(a.data, b.data, a.size.0, a.size.1);
  }

  /** The same for vectors. */
  method AddThenSubAssignVector(a: DVector, b: DVector) returns (c: DVector)
    requires a.len == b.len && a.len <= |a.data| && a.len <= |b.data|
    ensures fresh(c) && c.data == a.data && c.len == a.len
  {
    c := a.Add(b);
    c.SubAssign(b);
    Grid.ZipPrefixSubtractUndoesAdd(a.data, b.data, a.len);
  }

  /** `*=` by the 2 × 2 identity scales every column of the identity by the
      product of a column of the identity, which is 0: it gives the zero
      matrix where the product gives the identity back. */
  lemma MulAssignNotProduct()
    ensures Grid.Zip([[1, 0], [0, 1]], ColumnScales([[1, 0], [0, 1]], 2, 2, 2), 2, 2, Scalar.Mul) == [[0, 0], [0, 0]]
    ensures Grid.Product([[1, 0], [0, 1]], [[1, 0], [0, 1]], 2, 2, 2) == [[1, 0], [0, 1]]
  {
    var id: Grid.Columns := [[1, 0], [0, 1]];
    var zero: Grid.Columns := [[0, 0], [0, 0]];
    forall p | 0 <= p < 2
      ensures Scalar.Prod(2, Grid.ColumnOf(id, p)) == 0
    {
      assert Grid.ColumnOf(id, p)(0) * Grid.ColumnOf(id, p)(1) == 0;
    }
    var scaled := Grid.Zip(id, ColumnScales(id, 2, 2, 2), 2, 2, Scalar.Mul);
    Grid.Extensional(scaled, zero);
    var prod := Grid.Product(id, id, 2, 2, 2);
    forall p, m | 0 <= p < 2 && 0 <= m < 2
      ensures prod[p][m] == id[p][m]
    {
      assert Grid.ProductTerm(id, id, m, p)(0) + Grid.ProductTerm(id, id, m, p)(1) == id[p][m];
    }
    Grid.Extensional(prod, id);
  }
}
