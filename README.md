# Matrix containers of a generic linear-algebra library, modelled in Dafny

This project models the two matrix container families of the library's
`algebra::linear` module and proves properties of them. The element type is
`int`.

- **`Matrix<T, M, N>`** (`mat.rs`) is a fixed-size matrix stored as `N`
  columns of `M` entries. `m[[a, b]]` is entry `b` of column `a`. It is
  modelled as the class `Fixed.Matrix`, whose storage is an `array2<int>`
  with `data[a, b]` equal to `m[[a, b]]`. Operators that return a matrix
  return a fresh one. The assigning operators, `apply`, `abs` and `clamp`
  update the array in place. Every contract is stated on the value
  `ToVectors()` (the source's `to_vectors`).
- **`DVector<T>` and `DMatrix<T>`** (`dynamic.rs`) are the dynamic
  containers. They are modelled as the classes `Dynamic.DVector` and
  `Dynamic.DMatrix`. Each has a mutable entry sequence and the cached size
  the source keeps beside it: `len`, or `size = (column length, column
  count)`. Nothing re-checks the cached size, so the operators do not
  assume it. Each operator of the source requires only what its
  `assert_eq!` checks and the indices its loops actually reach.
  `Grid.Covers` states that every index `[c][r]` in range is in bounds, and
  an operand a loop never reaches (the storage of `*=`'s left operand when
  its column count is 0) is not required to be in bounds. Operators that
  return a new matrix or vector return a fresh object. The corrected
  variants added beside the source's operators ask for both operands to
  cover the sizes they state.

The shared value view is `Grid.Columns`, a `seq<seq<int>>` of columns. The
loops are proved against these specification functions:

- `Grid.Zip` and `Grid.ZipPrefix`: combine entry-wise over an index range and keep everything else;
- `Grid.Mapped` and `Grid.Clamped`;
- `Grid.Product`: entry `[p][m]` is `Σ_n a[n][m] * b[p][n]`;
- `Grid.Filled`.

Integer `/` truncates toward zero, as Rust's does. It is `Scalar.Quot`.

The text constructors split on `;` and on single spaces with the semantics
of `str::split` (`Text.Split`). The element parser `T::from_str` is a
parameter `parse: string -> Option<int>`, and `None` becomes the default 0.
`Wrappers.Option` is the optional value. `Text.ParseInt` (decimal with an optional sign) serves as the concrete
parser in the lemmas.

Panics are preconditions. Where every call panics (`Mul<DVector>`, and a
vector converted to a matrix and back), the model returns `None` instead.
Arguments the source takes by value are read on entry. In the fixed
family they are separate arrays (`rhs.data != data`).

The model follows the code where it departs from the library's stated
intent:

- an unparsable token becomes the default rather than an error;
- ragged columns are accepted by `DMatrix::new` and by the text constructors;
- scalar `*` and `/` return the unscaled operand;
- the 2 × 2 determinant keeps its wrong cross term.

## Model

| member | source | states |
|---|---|---|
| `Fixed.Matrix.ToVectors` | src/algebra/linear/mat.rs:113-115 | the value has `N` columns of `M` entries, and entry `[a][b]` is the stored `data[a, b]` |
| `Fixed.Matrix.New` | src/algebra/linear/mat.rs:47-49 | the matrix built from `N` columns of `M` entries holds exactly those columns |
| `Fixed.Matrix.Broadcast` | src/algebra/linear/mat.rs:118-122 | every entry equals the broadcast value |
| `Fixed.Matrix.Default` | src/algebra/linear/mat.rs:16-23 | every entry is the default 0 |
| `Fixed.Matrix.Zero` | src/algebra/linear/mat.rs:145-147 | every entry is `zero` (0), as `broadcast(zero)` gives |
| `Fixed.Matrix.One` | src/algebra/linear/mat.rs:151-153 | every entry is `one` (1), not the identity matrix |
| `Fixed.Matrix.Copy` | src/algebra/linear/mat.rs:11 | the copy is fresh storage with the same value |
| `Fixed.Matrix.Len` | src/algebra/linear/mat.rs:52-54 | the length is the number of entries of the column-major storage, `M * N` |
| `Grid.FlattenLayout` | src/algebra/linear/mat.rs:12-14 | columns laid end to end take `rows * cols` places, and entry `[c][r]` sits at offset `c * rows + r` |
| `Fixed.Matrix.Size` | src/algebra/linear/mat.rs:57-59 | `size` is (entries per column, number of columns), the storage's extents |
| `Fixed.Matrix.Get` | src/algebra/linear/mat.rs:261-263 | `m[[a, b]]` is entry `b` of column `a`, for `a < N` and `b < M` |
| `Fixed.Matrix.Set` | src/algebra/linear/mat.rs:267-269 | writing `m[[a, b]]` changes that entry and no other |
| `Fixed.Matrix.Apply` | src/algebra/linear/mat.rs:137-141 | in place, every entry `e` becomes `f(e)` |
| `Fixed.Matrix.Map` | src/algebra/linear/mat.rs:127-134 | the result is `f` applied to every entry (the matrix `apply` leaves), and `self` is unchanged |
| `Fixed.Matrix.Abs` | src/algebra/linear/mat.rs:158-162 | in place, every entry becomes its absolute value |
| `Fixed.Matrix.AbsCopy` | src/algebra/linear/mat.rs:166-170 | the result is what `abs` leaves, and `self` is unchanged |
| `Grid.AbsIdempotent` | src/algebra/linear/mat.rs:158-162 | applying `abs` twice gives the same as applying it once |
| `Fixed.Matrix.Clamp` | src/algebra/linear/mat.rs:184-190 | in place, entry `[[j, i]]` for `j < M` and `i < N` becomes `min(max(e, lo), hi)`; the matrix must be square or empty for those indices to exist |
| `Fixed.Matrix.Clamped` | src/algebra/linear/mat.rs:194-198 | the result is what `clamp` leaves, and `self` is unchanged |
| `Grid.ClampedWithinBounds` | src/algebra/linear/mat.rs:184-190 | where `lo <= hi`, a clamped entry lies between them; an entry already between them is unchanged; entries outside the loop range are untouched |
| `Fixed.ClampExample` | src/algebra/linear/mat.rs:187 | clamping `[[2,0],[0,0]]` between zeros and ones gives `[[1,0],[0,0]]` |
| `Fixed.Matrix.MaxByComponent` | src/algebra/linear/mat.rs:202-210 | entry-wise maximum over `[[j, i]]` with `j < M` and `i < N` (square or empty shapes); `self` is unchanged |
| `Fixed.Matrix.MinByComponent` | src/algebra/linear/mat.rs:214-222 | entry-wise minimum over the same range |
| `Grid.MaxMinBracket` | src/algebra/linear/mat.rs:202-222 | the minimum is at most each operand, which is at most the maximum, and minimum plus maximum is the operands' sum |
| `Fixed.Matrix.Add` | src/algebra/linear/mat.rs:272-285 | a fresh matrix with entry-wise sums |
| `Fixed.Matrix.AddAssign` | src/algebra/linear/mat.rs:287-296 | in place, the value `+` returns |
| `Fixed.Matrix.Sub` | src/algebra/linear/mat.rs:298-310 | a fresh matrix with entry-wise differences |
| `Fixed.Matrix.SubAssign` | src/algebra/linear/mat.rs:312-321 | in place, the value `-` returns |
| `Grid.SubtractUndoesAdd` | src/algebra/linear/mat.rs:272-321 | `(A + B) - B == A` over any operated range, for the fixed and the dynamic matrices alike |
| `Fixed.Matrix.Mul` | src/algebra/linear/mat.rs:323-339 | `M×N` times `N×P` is the `M×P` matrix with entry `[p][m] = Σ_{n<N} self[n][m] * rhs[p][n]` |
| `Grid.ProductAssociative` | src/algebra/linear/mat.rs:328-338 | `(A*B)*C == A*(B*C)` over `int`, for every choice of dimensions |
| `Fixed.Matrix.MulScalar` | src/algebra/linear/mat.rs:341-353 | returns the operand unscaled; it still needs the square or empty shape the discarded loop indexes |
| `Fixed.Matrix.MulAssignScalar` | src/algebra/linear/mat.rs:355-363 | in place, every entry in `[[m, n]]`, `m < M`, `n < N`, is multiplied by `k`; square or empty shapes only |
| `Fixed.Matrix.DivScalar` | src/algebra/linear/mat.rs:365-377 | returns the operand undivided; a zero divisor on a nonempty matrix panics |
| `Fixed.Matrix.DivAssignScalar` | src/algebra/linear/mat.rs:379-387 | in place, every entry is divided by `k`, truncating toward zero; `k != 0` unless the matrix is empty |
| `Grid.DivideUndoesMultiply` | src/algebra/linear/mat.rs:355-387 | `*= k` followed by `/= k` restores the matrix for `k != 0` |
| `Scalar.QuotTruncates` | src/algebra/linear/mat.rs:383 | the quotient truncates: the remainder is smaller than the divisor and has the dividend's sign, and the quotient never rounds away from zero |
| `Fixed.Matrix.Determinant` | src/algebra/linear/mat.rs:227-255 | defined for square sizes up to 3 only (larger sizes panic); it is the closed form `DeterminantOf` |
| `Fixed.DeterminantSmall` | src/algebra/linear/mat.rs:229-230 | size 0 gives `one`, size 1 gives the single entry |
| `Fixed.DeterminantDiagonal2` | src/algebra/linear/mat.rs:231 | a diagonal 2 × 2 gives the product of its diagonal; `[[2,0],[0,3]]` gives 6 |
| `Fixed.DeterminantRepeated3` | src/algebra/linear/mat.rs:232-250 | the 3 × 3 cofactor expansion is 0 when two columns `data[i]`, `data[j]` are equal |
| `Fixed.DeterminantRepeatedRow3` | src/algebra/linear/mat.rs:232-250 | the 3 × 3 cofactor expansion is 0 when two rows are equal |
| `Fixed.DeterminantRepeated2Fails` | src/algebra/linear/mat.rs:231 | as written, the 2 × 2 determinant of `[[1,2],[1,2]]` (two equal columns) is 1, not 0 |
| `Fixed.DeterminantAgreement2` | src/algebra/linear/mat.rs:231 | the written and the cross-product 2 × 2 formulas agree exactly when `[[1,0]]` is 0 or equals `[[0,1]]` |
| `Fixed.CorrectedDeterminantRepeated` | src/algebra/linear/mat.rs:228-250 | with the cross term `[[1,0]]*[[0,1]]`, the determinant is 0 for two equal columns at every size up to 3 |
| `Dynamic.DVector.New` | src/algebra/linear/dynamic.rs:14-17 | the length is cached from the entries |
| `Dynamic.DVector.DefaultWithSize` | src/algebra/linear/dynamic.rs:21-24 | `n` default entries and `len == n` |
| `Dynamic.DVector.Default` | src/algebra/linear/dynamic.rs:37-44 | no entries, `len == 0` |
| `Dynamic.DVector.Clone` | src/algebra/linear/dynamic.rs:7 | a fresh vector with the same entries and length |
| `Dynamic.DVector.Dot` | src/algebra/linear/dynamic.rs:28-34 | the total of `self`'s first `len` entries, starting from the default; the argument is never read |
| `Dynamic.DotOfSum` | src/algebra/linear/dynamic.rs:28-34 | what `dot` returns for `a + b` is what it returns for `a` plus what it returns for `b` |
| `Dynamic.DotOfDefault` | src/algebra/linear/dynamic.rs:21-34 | `dot` of a default vector is 0 |
| `Dynamic.DVector.Add` | src/algebra/linear/dynamic.rs:46-57 | under `len == rhs.len`, the clone with entries `i < len` summed; the length is kept; the result is a fresh object |
| `Dynamic.DVector.AddAssign` | src/algebra/linear/dynamic.rs:59-66 | in place, the value `+` returns |
| `Dynamic.DVector.Sub` | src/algebra/linear/dynamic.rs:68-79 | under `len == rhs.len`, the clone with entries `i < len` subtracted; the result is a fresh object |
| `Dynamic.DVector.SubAssign` | src/algebra/linear/dynamic.rs:81-88 | in place, the value `-` returns |
| `Grid.ZipPrefixSubtractUndoesAdd` | src/algebra/linear/dynamic.rs:46-88 | for vectors, `(a + b) - b == a` |
| `Dynamic.DVector.FromMatrix` | src/algebra/linear/dynamic.rs:90-98 | requires column count 1; gives column 0 with the matrix's cached column length as `len` |
| `Dynamic.DVector.FromStr` | src/algebra/linear/dynamic.rs:335-357 | one entry per space-separated token, so one more than the spaces, with `len` equal to that count |
| `Dynamic.Entries` | src/algebra/linear/dynamic.rs:337-340 | the parsed tokens number one more than the spaces in the text |
| `Dynamic.EntriesTokens` | src/algebra/linear/dynamic.rs:339 | an entry is its token's parsed value, or the default 0 when the token does not parse |
| `Text.Split` | src/algebra/linear/dynamic.rs:361 | splitting gives one more piece than there are delimiters, and no piece contains the delimiter |
| `Text.JoinSplit` | src/algebra/linear/dynamic.rs:361 | the pieces joined by the delimiter give the text back |
| `Dynamic.EntriesRender` | src/algebra/linear/dynamic.rs:335-345 | reading the decimal rendering of a nonempty vector gives it back |
| `Dynamic.DMatrix.New` | src/algebra/linear/dynamic.rs:107-115 | the size is (length of the first column or 0, number of columns) |
| `Dynamic.NewSize` | src/algebra/linear/dynamic.rs:107-115 | the cached size is consistent exactly when all columns have the first one's length; a rectangular input gets its true size; ragged `[[1],[2,3]]` gets size `(1, 2)` |
| `Dynamic.DMatrix.Default` | src/algebra/linear/dynamic.rs:133-140 | no columns, size `(0, 0)` |
| `Dynamic.DMatrix.DefaultWithSize` | src/algebra/linear/dynamic.rs:143-146 | `size.1` columns of `size.0` default entries, with a consistent size |
| `Dynamic.DMatrix.Clone` | src/algebra/linear/dynamic.rs:100 | a fresh matrix with the same columns and size |
| `Dynamic.DMatrix.Add` | src/algebra/linear/dynamic.rs:149-162 | under `size == rhs.size`, the clone with `data[n][m]` summed for `m < size.0`, `n < size.1`; the result is a fresh object |
| `Dynamic.DMatrix.AddAssign` | src/algebra/linear/dynamic.rs:164-173 | in place, the value `+` returns |
| `Dynamic.DMatrix.Sub` | src/algebra/linear/dynamic.rs:175-188 | under `size == rhs.size`, the clone with `data[n][m]` subtracted; the result is a fresh object |
| `Dynamic.DMatrix.SubAssign` | src/algebra/linear/dynamic.rs:190-199 | in place, the value `-` returns |
| `Dynamic.DMatrix.Mul` | src/algebra/linear/dynamic.rs:201-216 | under `size.0 == rhs.size.1` and in-bounds indexing, size `(rhs.size.1, size.0)` with `data[p][m] = Σ_{n<size.1} data[n][m] * rhs.data[p][n]`; the result is a fresh object |
| `Dynamic.ProductOf` | src/algebra/linear/dynamic.rs:206-213 | the triple accumulation loop from a zero matrix computes exactly the product |
| `Dynamic.MulAdmitsOnlySquare` | src/algebra/linear/dynamic.rs:205 | for operands that share their middle dimension, the assertion holds exactly when the product is square |
| `Dynamic.DMatrix.MulChecked` | src/algebra/linear/dynamic.rs:201-216 | with the assertion on the shared dimension, the product has size `(size.0, rhs.size.1)`; the result is a fresh object |
| `Dynamic.DMatrix.MulAssign` | src/algebra/linear/dynamic.rs:218-229 | not a product: entry `[p][m]` is multiplied in place by every entry of `rhs`'s column `p`, i.e. by that column's product; with column count 0 nothing changes and `self`'s storage need not be in bounds |
| `Dynamic.EmptyScalesKeep` | src/algebra/linear/dynamic.rs:222-224 | scaling by empty column products, as `*=` does when the left operand has column count 0, leaves the matrix unchanged |
| `Dynamic.AddThenSubAssign` | src/algebra/linear/dynamic.rs:149-199 | `+` then `-=` by the same operand on the fresh sum gives the left operand's entries and size back, both operands untouched |
| `Dynamic.AddThenSubAssignVector` | src/algebra/linear/dynamic.rs:46-88 | the same for vectors |
| `Dynamic.MulAssignNotProduct` | src/algebra/linear/dynamic.rs:218-229 | `*=` by the 2 × 2 identity turns the identity into zeros, while the product gives the identity |
| `Dynamic.DMatrix.MulAssignChecked` | src/algebra/linear/dynamic.rs:218-229 | in place, the product with checked sizes |
| `Dynamic.DMatrix.FromArray` | src/algebra/linear/dynamic.rs:231-241 | an `[[T; M]; N]` array becomes a matrix with the same columns and size `(M, N)`; the result is a fresh object |
| `Dynamic.DMatrix.FromVector` | src/algebra/linear/dynamic.rs:243-251 | the vector becomes the only column, and the size is cached as `(len, 0)` |
| `Dynamic.ConvertedVectorPanics` | src/algebra/linear/dynamic.rs:248 | a converted vector's column count is never 1, and a product with it passes the assertion of `*` only when its own column count comes out 0 |
| `Dynamic.DMatrix.FromVectorAsColumn` | src/algebra/linear/dynamic.rs:243-251 | the same conversion with column count 1 |
| `Dynamic.VectorRoundTrip` | src/algebra/linear/dynamic.rs:248 | vector to matrix and back panics for every vector |
| `Dynamic.VectorRoundTripCorrected` | src/algebra/linear/dynamic.rs:243-251 | through the single-column conversion, the round trip returns the vector's entries and length; the result is a fresh object |
| `Dynamic.DMatrix.MulVector` | src/algebra/linear/dynamic.rs:253-259 | matrix times vector panics for every matrix and vector |
| `Dynamic.DMatrix.MulVectorChecked` | src/algebra/linear/dynamic.rs:253-259 | through the corrected conversion and product, entry `m` is `Σ_n data[n][m] * v[n]` and the length is `size.0`; the result is a fresh object |
| `Dynamic.DMatrix.MulScalar` | src/algebra/linear/dynamic.rs:261-273 | returns the operand itself, unscaled |
| `Dynamic.DMatrix.MulAssignScalar` | src/algebra/linear/dynamic.rs:275-283 | in place, `data[m][n]` for `m < size.0`, `n < size.1` is multiplied by `k` |
| `Dynamic.DMatrix.DivScalar` | src/algebra/linear/dynamic.rs:285-297 | returns the operand itself, undivided |
| `Dynamic.DMatrix.DivAssignScalar` | src/algebra/linear/dynamic.rs:299-307 | in place, `data[m][n]` is divided by `k`, truncating; `k != 0` unless the range is empty |
| `Dynamic.ScaleNeedsSquare` | src/algebra/linear/dynamic.rs:277-279 | with a consistent size, the scalar loops stay in bounds exactly for square or empty matrices |
| `Dynamic.DMatrix.FromStr` | src/algebra/linear/dynamic.rs:359-391 | one column per `;`-segment, each read as a vector; size `(length of the first column, number of segments)` |
| `Dynamic.Columns` | src/algebra/linear/dynamic.rs:378-386 | one more column than there are `;`, and each column one more entry than its segment has spaces |
| `Dynamic.ColumnsRender` | src/algebra/linear/dynamic.rs:376-391 | reading the rendering of any nonempty matrix gives it back |
| `Dynamic.FromStrExample` | src/algebra/linear/dynamic.rs:425-433 | `"4 3 2;2 2 -1"` reads as `[[4,3,2],[2,2,-1]]`, size `(3, 2)`; `"4 3 2"` reads as `[4,3,2]` |

## Left out

- Raw memory views (`layout`, `as_array`, `as_slice`, `as_ptr`, `as_bytes` and their mutable forms, `mat.rs:62-108`) and `from_other_type` (`mat.rs:173-180`): these are pointer casts and bit reinterpretation, with no meaning at the level of values.
- The `Display` implementations (`mat.rs:25-42`, `dynamic.rs:309-333`) and `to_string_vec` (`dynamic.rs:118-131`): these are formatting that depends on the element type's `Display`.
- The `speed` test (`mat.rs:389-403`): it times an unseen normalisation routine by the clock.
- `src/linear/mod.rs`: it declares modules and a one-line conversion from an external float type.
- Floating point: the element type is `int`. Overflow of a fixed-width element type and of `usize` sizes is not modelled, because integers are unbounded.
- Element parsing: `T::from_str` is not part of this model. It is the parameter `parse`, and the lemmas use decimal integers with an optional sign.
- Aliasing in the fixed family: an argument taken by value is a separate copy in the source. The model therefore requires the in-place operators' operands to have separate storage (`rhs.data != data`).
- Dynamic.DMatrix.MulScalar: it states that the result is the operand itself. That the discarded clone is scaled is visible only in the body, not in the contract. The same holds for `Dynamic.DMatrix.DivScalar`, `Fixed.Matrix.MulScalar` and `Fixed.Matrix.DivScalar`.

## Findings

| source | as written | input that shows it | evidently intended | confidence | as-written member | corrected member |
|---|---|---|---|---|---|---|
| src/algebra/linear/mat.rs:231 | `[[0,0]]*[[1,1]] - [[1,0]]*[[1,0]]` | columns `[1,2]` and `[1,2]` (equal columns) give 1 | the cross product `[[0,0]]*[[1,1]] - [[1,0]]*[[0,1]]`, which is 0 for equal columns | high, not executed | `Fixed.DeterminantRepeated2Fails` | `Fixed.CorrectedDeterminantRepeated` |
| src/algebra/linear/dynamic.rs:248 | a vector converted to a matrix gets size `(len, 0)` | any vector, e.g. from `"1 2"`: converting it back fails the `size.1 == 1` assertion | size `(len, 1)`, so that the conversion back returns the vector | high, not executed | `Dynamic.VectorRoundTrip` | `Dynamic.VectorRoundTripCorrected` |
| src/algebra/linear/dynamic.rs:205-206 | the product asserts `size.0 == rhs.size.1` and has size `(rhs.size.1, size.0)` | a 2 × 3 matrix times a 3 × 1 column (sizes `(2,3)`, `(3,1)`) is rejected; sizes `(2,3)` and `(4,2)`, whose shared dimensions differ, are accepted | assert `size.1 == rhs.size.0`, with size `(size.0, rhs.size.1)` | high, not executed | `Dynamic.MulAdmitsOnlySquare` | `Dynamic.DMatrix.MulChecked` |
| src/algebra/linear/dynamic.rs:224 | `*=` multiplies entry `[p][m]` by every entry of `rhs`'s column `p` | the 2 × 2 identity `*=` the identity gives the zero matrix | the in-place product | high, not executed | `Dynamic.MulAssignNotProduct` | `Dynamic.DMatrix.MulAssignChecked` |
