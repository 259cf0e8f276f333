# flabs math library, modelled in Dafny

This project models the core of the Javanater/math C++ library and proves
properties of that model. The library is header-only, over fixed dimensions,
and has seven parts:

- **`flabs::Vector<DIM>`** (`geometry/Vector.h`): element-wise and scalar
  arithmetic, dot product, exact and relative equality, the ordering
  operators (which skip component 0), and orthogonal-vector construction.
- **`flabs::Matrix<ROWS, COLS>`** (`matrix/Matrix.h`): row-major storage,
  identity, product, transpose, triangularity and singularity tests, the
  cofactor determinant over `Minor` views, `inv()`, relative and exact
  equality.
- **`LUDecomposition`** (`matrix/LUDecomposition.h`): in-place factorisation
  `A = L*U`, and `P*A = L*U` with partial pivoting. It also solves
  `L*U*X = B` by forward then back substitution.
- **The line-intersection family** (`geometry/GeometryCalculator.h` over
  Eigen vectors, `geometry/GeometryCalculatorOld.h` over `flabs::Vector`).
  It classifies two lines as INTERSECT, COINCIDENT or NONE, and finds the
  meeting point and the parameters along both lines. It also handles an
  axis-aligned slice. The `Ray` and `Line` wrappers (`geometry/Ray.h`,
  `geometry/Line.hpp`) sit on top.
- **Angle and interval wrapping** (`Math.hpp`): `sumSquares`, `hypot`,
  `unsignedMod`, `zeroTo2Pi`, `angleDifference`, `intervalDifference`.
- **`SpatialTree<DIM>`** (`geometry/SpatialTree.h`): a 2^DIM-ary box tree.
  It has a bounds check, child-index bit packing, and insertion by descent
  that creates a half-size child box.
- **Reference frames** (`geometry/ReferenceFrame.hpp`,
  `geometry/ReferenceFrame2d.hpp`, `geometry/ReferencePoint.hpp`). Each
  frame is a homogeneous `(DIM+1) x (DIM+1)` matrix with a parent pointer.
  The world transform is the product of the matrices along the parent
  chain.

## How the model is built

Scalars are Dafny `real`, so the model works in exact arithmetic.

- Vectors are `seq<real>`.
- Matrices are flat row-major `seq<real>`, read through the total accessor
  `MatrixAlgebra.At(m, cols, r, c)`.
- Where the C++ mutates storage in place, the model does too. Vectors and
  matrices are classes over an `array<real>`. The LU routines work on flat
  `array<real>` arguments. Each method is proved against a value-level
  function (`VectorAlgebra`, `MatrixAlgebra`, `LUDecomposition.EliminateU`
  …).

| module | file | models |
|---|---|---|
| `MathUtil` | math.dfy | `Math.hpp` |
| `VectorAlgebra` | vector_algebra.dfy | the value semantics of `Vector.h` (the functions the methods are proved against) |
| `Vectors` | vector.dfy | class `Vector` over `array<real>` |
| `MatrixAlgebra` | matrix_algebra.dfy | the value semantics of `Matrix.h`: product, transpose, determinant by `Minor` views |
| `Matrices` | matrix.dfy | class `Matrix` over `array<real>` |
| `LUDecomposition` | lu.dfy | `RowOperation`, the unpivoted `decompose`/`decomposeRecur` |
| `LUPivoting` | lu_pivot.dfy | the pivoted `decompose`/`decomposeRecur` and the permutation record |
| `LUSolve` | lu_solve.dfy | `solveLyEqualsB`, `solveUxEqualsY`, `solve` |
| `Geometry` | geometry.dfy | both GeometryCalculator headers, `Ray`, `Line`, `LineSegment` |
| `Frames` | frames.dfy | `ReferenceFrame`, `ReferenceFrame2d`, `ReferencePoint` |
| `SpatialTrees` | spatial_tree.dfy | `SpatialTree` |

**Reference frames as an arena.** A `FrameArena` holds one parent entry
(`NoParent` or `ParentId(i)`) and one local matrix per frame.
`ReferenceFrame`, `ReferenceFrame2d` and `ReferencePoint` have the same
layout and the same `getOffsetFromWorld`, so one class models all three.
The C++ follows parent pointers recursively and terminates only when the
chain is acyclic. The arena therefore requires every chain to reach a root
within `|parents|` steps.

**Spatial tree as an arena.** A `SpatialTree` holds the nodes' data,
corners, sizes and child slots as parallel sequences. `NULL` (`-1`) marks
an empty slot.

**Trigonometry and square roots.** `cos` and `sin` are the two arrows of a
`Trig` value and are otherwise uninterpreted. `std::sqrt` is an arrow
parameter. It is required to be a square root only at the point where it is
used.

**Out-parameters.** The C++ leaves some out-parameters unwritten on some
paths. The model passes those in with their prior contents and returns them
unchanged.

**Geometry headers.** The two headers run the same algorithm, so one set of
functions models both. The states column below cites the Eigen header;
each overload in `geometry/GeometryCalculatorOld.h` is the same function.
For example, lines 53-73 match `Geometry.Intersection`.

## Model

| member | source | states |
|---|---|---|
| MathUtil.SumSquares | Math.hpp:20-39 | the variadic sum of squares is >= 0, is `t*t` for one argument and is at least the first square |
| MathUtil.Hypot | Math.hpp:50-54 | hypot is >= 0 and its square is the sum of squares |
| MathUtil.HypotOfOne | Math.hpp:50-54 | hypot of one argument is its absolute value |
| MathUtil.UnsignedMod | Math.hpp:64-68 | for b > 0 the remainder lies in [0, b); for b < 0 it lies in (b, 0] |
| MathUtil.UnsignedModDecomposition | Math.hpp:64-68 | `a == floor(a/b)*b + unsignedMod(a, b)`, so `a` minus the remainder is an integer multiple of b |
| MathUtil.UnsignedModUnique | Math.hpp:64-68 | any r in [0, b) congruent to a modulo b is the remainder |
| MathUtil.UnsignedModPeriodic | Math.hpp:64-68 | adding any integer multiple of b leaves the remainder unchanged |
| MathUtil.ZeroTo2Pi | Math.hpp:70-74 | the result lies in [0, 2π) |
| MathUtil.ZeroTo2PiPeriodic | Math.hpp:70-74 | `zeroTo2Pi(a + 2πk) == zeroTo2Pi(a)` for every integer k |
| MathUtil.ZeroTo2PiOfCanonical | Math.hpp:70-74 | an angle already in [0, 2π), shifted by whole turns, maps back to itself |
| MathUtil.AngleDifference | Math.hpp:85-96 | the result lies in [-π, π) |
| MathUtil.AngleDifferenceCongruent | Math.hpp:85-96 | `a - b` equals the result plus an integer multiple of 2π |
| MathUtil.AngleDifferenceUnique | Math.hpp:85-96 | any r in [-π, π) congruent to a - b modulo 2π is the result |
| MathUtil.AngleDifferenceSame | Math.hpp:85-96 | the difference of an angle from itself is 0 |
| MathUtil.AngleDifferencePeriodic | Math.hpp:85-96 | shifting either angle by whole turns changes nothing |
| MathUtil.AngleDifferencePiZero | Math.hpp:85-96 | `angleDifference(π, 0) == -π`, as the code and its [-π, π) doc comment say |
| MathUtil.IntervalDifference | Math.hpp:109-134 | for max > min the result lies in [min, max); the template form with compile-time bounds is this same function |
| MathUtil.IntervalDifferenceUnique | Math.hpp:109-115 | any r in [min, max) congruent to a - b modulo max - min is the result |
| MathUtil.IntervalDifferenceCongruent | Math.hpp:109-115 | `a - b` equals the result plus an integer multiple of max - min |
| MathUtil.IntervalDifferenceIsAngleDifference | Math.hpp:109-115 | with bounds [-π, π) it agrees with angleDifference on every input |
| MathUtil.IntervalDifferenceTestPoints | test/MathTest.cpp:35-44 | the values at (π, 0), (2π, 0) and (0, 0) with bounds [-π, π) |
| VectorAlgebra.FillMeaning | geometry/Vector.h:37-41 | a vector is the fill of x iff every component equals x |
| VectorAlgebra.AddCommutes | geometry/Vector.h:204-209 | `operator+`, which adds this into the copy of its argument, is commutative |
| VectorAlgebra.SubUndoesAdd | geometry/Vector.h:176-188 | subtracting b after adding b gives back the vector |
| VectorAlgebra.NegIsScaleByMinusOne | geometry/Vector.h:300-306 | unary minus is scaling by -1 and is an involution |
| VectorAlgebra.DivUndoesMul | geometry/Vector.h:190-202 | element-wise division by a vector with no zero component undoes element-wise multiplication |
| VectorAlgebra.ScalarOperationsUndo | geometry/Vector.h:250-276 | scalar `-` undoes scalar `+`; scalar `/` by s != 0 undoes scalar `*` |
| VectorAlgebra.DotSymmetric | geometry/Vector.h:155-161 | the accumulated sum of products is symmetric in its arguments |
| VectorAlgebra.DotSub | geometry/Vector.h:155-161 | the dot product distributes over subtraction |
| VectorAlgebra.DotAdd | geometry/Vector.h:155-161 | the dot product distributes over addition |
| VectorAlgebra.DotScale | geometry/Vector.h:155-161 | scaling a factor scales the dot product |
| VectorAlgebra.DotSelf | geometry/Vector.h:163-169 | the squared norm is >= 0 and is 0 iff the vector is zero |
| VectorAlgebra.Orthogonal2dIsOrthogonal | geometry/Vector.h:100-106 | `(-v1, v0)` has dot 0 with v and is zero iff v is zero |
| VectorAlgebra.Normal3dFirstIsOrthogonal | geometry/Vector.h:108-119 | candidate `normal[0]` has dot 0 with v and is zero iff `v0 == 0 && v1 == -v2` |
| VectorAlgebra.Orthogonal3dAsWrittenIsOrthogonal | geometry/Vector.h:108-119 | the as-written selection has dot 0 with v, but is the zero vector whenever `v1 == 0 && v0 == -v2` |
| VectorAlgebra.Orthogonal3dAsWrittenLosesNormal | geometry/Vector.h:117-118 | for the nonzero v = (1, 0, -1) the as-written selection returns 0, while `normal[0]` = (1, 1, 1) is a valid normal |
| VectorAlgebra.Orthogonal3dIsOrthogonal | geometry/Vector.h:108-119 | the corrected selection has dot 0 with v and is zero iff v is zero |
| VectorAlgebra.CandidateIsOrthogonal | geometry/Vector.h:78-90 | the candidate built for any `skip` has dot 0 with v |
| VectorAlgebra.AcceptedCandidateNonZero | geometry/Vector.h:91-92 | a candidate accepted by `sum != 0 && v[skip] != 0` is nonzero |
| VectorAlgebra.SearchFromIsCandidate | geometry/Vector.h:79-94 | the search returns the candidate of the first accepted skip, or the last candidate when none is accepted |
| VectorAlgebra.SearchStopsAtFirstAccepted | geometry/Vector.h:79-94 | if no skip before s is accepted and s is, the search returns candidate s |
| VectorAlgebra.FallbackCandidateNonZero | geometry/Vector.h:79-94 | when no skip is accepted, the last candidate of a nonzero vector (DIM >= 2) is still nonzero |
| VectorAlgebra.SearchIsOrthogonal | geometry/Vector.h:78-94 | the search result has dot 0 with v and is nonzero for a nonzero v with DIM >= 2 |
| VectorAlgebra.OrthogonalIsOrthogonal | geometry/Vector.h:70-96 | in every dimension, orthogonal() has dot 0 with v, is nonzero for a nonzero v with DIM >= 2, and is zero for a zero v |
| VectorAlgebra.OrderingIgnoresComponentZero | geometry/Vector.h:350-380 | `< <= > >=` do not depend on component 0 of either vector |
| VectorAlgebra.OrderingVacuousBelowTwo | geometry/Vector.h:350-380 | for DIM < 2 all four relations hold |
| VectorAlgebra.OrderingConverse | geometry/Vector.h:350-380 | `v < w` iff `w > v`; `v <= w` iff `w >= v`; `<` implies `<=` |
| VectorAlgebra.EqualsAsWrittenAcceptsNegativeMismatch | geometry/Vector.h:240-248 | as written, `equals` accepts (-1) against (100) at the default tolerance; the corrected relation rejects it |
| VectorAlgebra.RelativelyEqualMeaning | geometry/Vector.h:240-248 | the corrected relation holds when every component difference is within tolerance times abs(this component) |
| VectorAlgebra.RelativelyEqualReflexive | geometry/Vector.h:240-248 | every vector is relatively equal to itself for tolerance >= 0 |
| VectorAlgebra.RelativelyEqualAsymmetric | geometry/Vector.h:240-248 | the relation divides by this vector's own component, so (2) ~ (1) holds at 0.5 but (1) ~ (2) does not |
| Vectors.Vector.constructor | geometry/Vector.h:27-29 | a fresh component array of length DIM |
| Vectors.Vector.Copy | geometry/Vector.h:31-35 | the components are those of the copied vector |
| Vectors.Vector.Filled | geometry/Vector.h:37-41 | every component is the fill value |
| Vectors.Vector.FromSeq | geometry/Vector.h:43-54 | the components are the given values, in order |
| Vectors.Vector.Assign | geometry/Vector.h:140-145 | after `operator=`, the components are the other vector's old components |
| Vectors.Vector.AssignSeq | geometry/Vector.h:147-153 | after assigning a list, the components are its values |
| Vectors.Vector.Dot | geometry/Vector.h:155-161 | the loop returns the dot product of the two component sequences |
| Vectors.Vector.Norm | geometry/Vector.h:163-169 | the norm is >= 0 and its square is the dot product of v with itself |
| Vectors.Vector.Normalize | geometry/Vector.h:171-174 | the vector becomes itself divided by its old norm, and then has unit squared norm |
| Vectors.NormalizedIsUnit | geometry/Vector.h:171-174 | a vector divided by its nonzero norm has squared norm 1 |
| Vectors.Vector.AddAssign | geometry/Vector.h:176-181 | `+=` leaves the element-wise sum of the two old vectors |
| Vectors.Vector.SubAssign | geometry/Vector.h:183-188 | `-=` leaves the element-wise difference |
| Vectors.Vector.MulAssign | geometry/Vector.h:190-195 | `*=` leaves the element-wise product |
| Vectors.Vector.DivAssign | geometry/Vector.h:197-202 | `/=` by a vector with no zero component leaves the element-wise quotient |
| Vectors.Vector.Plus | geometry/Vector.h:204-209 | binary `+` gives a fresh vector holding the element-wise sum |
| Vectors.Vector.Minus | geometry/Vector.h:211-216 | binary `-` gives the element-wise difference |
| Vectors.Vector.Times | geometry/Vector.h:218-223 | binary `*` gives the element-wise product |
| Vectors.Vector.Over | geometry/Vector.h:225-230 | binary `/` gives the element-wise quotient |
| Vectors.Vector.Eq | geometry/Vector.h:232-238 | `==` is true iff every component is exactly equal |
| Vectors.Vector.Equals | geometry/Vector.h:240-248 | `equals` is the corrected relative-equality relation |
| Vectors.Vector.AddScalarAssign | geometry/Vector.h:250-255 | `+= s` adds s to every component |
| Vectors.Vector.SubScalarAssign | geometry/Vector.h:257-262 | `-= s` subtracts s from every component |
| Vectors.Vector.MulScalarAssign | geometry/Vector.h:264-269 | `*= s` scales every component |
| Vectors.Vector.DivScalarAssign | geometry/Vector.h:271-276 | `/= s` with s != 0 divides every component |
| Vectors.Vector.PlusScalar | geometry/Vector.h:288-298 | `v + s` and `s + v` add s to every component of a fresh copy |
| Vectors.Vector.Negated | geometry/Vector.h:300-306 | unary minus negates every component |
| Vectors.Vector.MinusScalar | geometry/Vector.h:308-313 | `v - s` subtracts s from every component |
| Vectors.Vector.TimesScalar | geometry/Vector.h:315-325 | `v * s` and `s * v` scale every component |
| Vectors.Vector.OverScalar | geometry/Vector.h:327-332 | `v / s` divides every component |
| Vectors.Vector.Less | geometry/Vector.h:350-356 | `<` holds iff `v[i] < w[i]` for every i in 1..DIM-1 |
| Vectors.Vector.LessEq | geometry/Vector.h:358-364 | `<=` holds iff `v[i] <= w[i]` for every i in 1..DIM-1 |
| Vectors.Vector.Greater | geometry/Vector.h:366-372 | `>` holds iff `v[i] > w[i]` for every i in 1..DIM-1 |
| Vectors.Vector.GreaterEq | geometry/Vector.h:374-380 | `>=` holds iff `v[i] >= w[i]` for every i in 1..DIM-1 |
| Vectors.Vector.Orthogonal2d | geometry/Vector.h:100-106 | a fresh vector holding `(-v1, v0)` |
| Vectors.Vector.Orthogonal3d | geometry/Vector.h:108-119 | a fresh vector holding the corrected 3D normal |
| Vectors.Vector.Orthogonal | geometry/Vector.h:70-96 | the skip loop with its running sum and break returns the orthogonal vector specified by the search |
| MatrixAlgebra.AtIndex | matrix/Matrix.h:227-235 | entry (r, c) is stored at `data[r*COLS + c]` |
| MatrixAlgebra.AtUpdate | matrix/Matrix.h:227-235 | writing entry (r, c) changes that entry and no other |
| MatrixAlgebra.AtIdentity | matrix/Matrix.h:200-210 | identity has 1 on the diagonal and 0 elsewhere |
| MatrixAlgebra.AtMatMul | matrix/Matrix.h:212-225 | product entry (r, c) is the sum over i of `A(r,i)*B(i,c)` |
| MatrixAlgebra.IdentityIsUnit | matrix/Matrix.h:200-225 | identity is a left and a right unit of the product |
| MatrixAlgebra.MatMulAssociative | matrix/Matrix.h:212-225 | the product is associative |
| MatrixAlgebra.AtTranspose | matrix/Matrix.h:309-316 | `transposed()(r, c) == A(c, r)` |
| MatrixAlgebra.TransposeTwice | matrix/Matrix.h:309-321 | transposing twice gives back the matrix |
| MatrixAlgebra.IdentityIsTriangular | matrix/Matrix.h:333-349 | identity is both upper and lower triangular |
| MatrixAlgebra.TransposeSwapsTriangles | matrix/Matrix.h:333-349 | A is upper triangular iff its transpose is lower triangular |
| MatrixAlgebra.Det | matrix/Matrix.h:28-113 | det() by first-row cofactor expansion over Minor views: the entry itself for 1x1 and ad - bc for 2x2 |
| MatrixAlgebra.DetOfOne | matrix/Matrix.h:63-70 | the determinant of a 1x1 matrix is its entry |
| MatrixAlgebra.DetOfTwo | matrix/Matrix.h:81-113 | the first-row expansion with alternating signs over the Minor view gives `ad - bc` for a 2x2 matrix |
| MatrixAlgebra.DetOfIdentity | matrix/Matrix.h:28-113 | the determinant of the identity is 1 |
| MatrixAlgebra.DetOfTriangular | matrix/Matrix.h:28-113 | the determinant of an upper or lower triangular matrix is the product of its diagonal |
| MatrixAlgebra.IsSingularAsWritten | matrix/Matrix.h:351-355 | isSingular as written, `det() <= tolerance`: every matrix with a determinant <= 0 is singular at any tolerance >= 0 |
| MatrixAlgebra.IsSingular | matrix/Matrix.h:351-355 | the corrected `abs(det()) <= tolerance`: holds iff -tolerance <= det <= tolerance, and implies the as-written test |
| MatrixAlgebra.IsSingularOfTriangular | matrix/Matrix.h:351-355 | on a triangular matrix the corrected test compares abs of the diagonal product with the tolerance, the as-written test the signed product |
| MatrixAlgebra.SwapIsSingularAsWritten | matrix/Matrix.h:351-355 | the self-inverse row swap has determinant -1, so the signed test calls it singular at any tolerance >= -1 and the corrected test does not at any tolerance < 1 |
| Matrices.Matrix.constructor | matrix/Matrix.h:130-132 | a fresh ROWS*COLS array |
| Matrices.Matrix.FromLists | matrix/Matrix.h:134-148 | entry (r, c) is the c-th value of the r-th list |
| Matrices.Matrix.FromColumns | matrix/Matrix.h:151-172 | column c holds the c-th vector |
| Matrices.Matrix.FromArray | matrix/Matrix.h:174-180 | entry (r, c) is `initialValues[r][c]` |
| Matrices.Matrix.Filled | matrix/Matrix.h:189-194 | every entry is the fill value |
| Matrices.Matrix.Identity | matrix/Matrix.h:200-210 | a fresh matrix holding the identity |
| Matrices.Matrix.Mul | matrix/Matrix.h:212-225 | the triple loop gives the product of the two matrices |
| Matrices.Matrix.Set | matrix/Matrix.h:227-230 | writing (r, c) stores at `r*COLS + c`, reads back, and leaves every other entry unchanged |
| Matrices.Matrix.Get | matrix/Matrix.h:232-235 | reading (r, c) returns `data[r*COLS + c]` |
| Matrices.Matrix.Det | matrix/Matrix.h:28-113 | det() of a square matrix: the single entry for 1x1, the product of the diagonal for an upper or lower triangular matrix |
| Matrices.Matrix.IsSingular | matrix/Matrix.h:351-355 | the corrected `abs(det()) <= tolerance` (see Findings; MatrixAlgebra.IsSingularAsWritten is the as-written test): holds iff det lies in [-tolerance, tolerance], and implies the as-written test |
| Matrices.Matrix.Inv | matrix/Matrix.h:252-259 | when every unpivoted LU pivot is nonzero, `A * inv() == I` |
| Matrices.Matrix.Equals | matrix/Matrix.h:262-271 | `equals` is the corrected relative-equality relation over all entries |
| Matrices.Matrix.MulScalarAssign | matrix/Matrix.h:273-280 | `*= s` scales every entry |
| Matrices.Matrix.DivScalarAssign | matrix/Matrix.h:282-289 | `/= s` with s != 0 divides every entry |
| Matrices.Matrix.AddScalarAssign | matrix/Matrix.h:291-298 | `+= s` adds s to every entry |
| Matrices.Matrix.SubScalarAssign | matrix/Matrix.h:300-307 | `-= s` subtracts s from every entry |
| Matrices.Matrix.Transposed | matrix/Matrix.h:309-316 | a fresh COLS x ROWS matrix holding the transpose |
| Matrices.Matrix.Transpose | matrix/Matrix.h:318-321 | the storage is replaced by the transpose |
| Matrices.Matrix.IsUpper | matrix/Matrix.h:333-340 | the scan returns true iff every entry strictly below the diagonal is 0 |
| Matrices.Matrix.IsLower | matrix/Matrix.h:342-349 | the scan returns true iff every entry strictly above the diagonal is 0 |
| Matrices.Equal | matrix/Matrix.h:375-389 | `==` is false when the dimensions differ and otherwise exact entry-by-entry equality |
| LUDecomposition.Multiply | matrix/LUDecomposition.h:229-234 | `RowOperation::multiply` scales one run of entries in place |
| LUDecomposition.MultipliedInside | matrix/LUDecomposition.h:229-234 | inside the run each entry is multiplied by the factor |
| LUDecomposition.MultipliedOutside | matrix/LUDecomposition.h:229-234 | outside the run nothing changes |
| LUDecomposition.AddRowTimesFactor | matrix/LUDecomposition.h:236-241 | `addRowTimesFactor` adds a multiple of one run to another in place |
| LUDecomposition.RowAddedInside | matrix/LUDecomposition.h:236-241 | inside the run each entry gains factor times the matching entry of the added run |
| LUDecomposition.RowAddedOutside | matrix/LUDecomposition.h:236-241 | outside the run nothing changes |
| LUDecomposition.Swap | matrix/LUDecomposition.h:243-249 | `RowOperation::swap` exchanges two runs in place |
| LUDecomposition.SwappedFirst | matrix/LUDecomposition.h:243-249 | the first run receives the second |
| LUDecomposition.SwappedSecond | matrix/LUDecomposition.h:243-249 | the second run receives the first |
| LUDecomposition.SwappedOutside | matrix/LUDecomposition.h:243-249 | everything else is unchanged |
| LUDecomposition.AtEliminate | matrix/LUDecomposition.h:79-99 | one step writes the pivot into l, a 1 on the diagonal of u, the scaled pivot row, zeros below the pivot and the eliminated lower rows |
| LUDecomposition.NormalizePivotRow | matrix/LUDecomposition.h:79-87 | the pivot is recorded in l and u's pivot row is divided by it |
| LUDecomposition.EliminateRow | matrix/LUDecomposition.h:90-98 | one lower row records its factor in l, gets 0 in the pivot column and has the pivot row subtracted |
| LUDecomposition.EliminateBelow | matrix/LUDecomposition.h:89-99 | the loop over j eliminates every row below the pivot |
| LUDecomposition.DecomposeStep | matrix/LUDecomposition.h:74-102 | one step turns (u, l) into the specified eliminated pair and returns true |
| LUDecomposition.FactoredStart | matrix/LUDecomposition.h:32-33 | u = A and l = I is the factored state after 0 steps |
| LUDecomposition.FactoredStep | matrix/LUDecomposition.h:74-102 | a step with a nonzero pivot keeps the partial factorisation invariant and advances it by one column |
| LUDecomposition.FactoredComplete | matrix/LUDecomposition.h:16-18 | after all steps `L*U == A`, L is lower triangular with nonzero diagonal, U is upper triangular with diagonal 1 |
| LUDecomposition.DecomposeRecur | matrix/LUDecomposition.h:65-72 | the recursion over the offset completes the factorisation and returns true |
| LUDecomposition.Decompose | matrix/LUDecomposition.h:29-36 | with nonzero pivots, `L*U == A`, L lower triangular with the pivots on its diagonal, U unit upper triangular, result true |
| LUPivoting.PivotScanIsFirstMaximum | matrix/LUDecomposition.h:119-130 | the strict `>` scan returns the first row of maximum absolute value in column k |
| LUPivoting.PivotRowIsFirstMaximum | matrix/LUDecomposition.h:119-130 | the chosen row is the first maximum from row k on |
| LUPivoting.PivotRowCharacterized | matrix/LUDecomposition.h:119-130 | a row is chosen iff it is that first maximum |
| LUPivoting.FindPivot | matrix/LUDecomposition.h:119-130 | the running max/maxRow loop returns the specified pivot row |
| LUPivoting.AtSwapRows | matrix/LUDecomposition.h:137-141 | the swap exchanges the two rows over the given column range and nothing else |
| LUPivoting.PivotIsLargest | matrix/LUDecomposition.h:119-142 | after the swap the pivot is the largest entry of column k from row k on, and it is 0 iff that whole column part is 0 |
| LUPivoting.IdentityPermutation | matrix/LUDecomposition.h:43-44 | `p[i] = i` is a permutation |
| LUPivoting.PivotPIsPermutation | matrix/LUDecomposition.h:132-136 | swapping two entries of a permutation keeps it a permutation |
| LUPivoting.AtPermuteRows | matrix/LUDecomposition.h:16-18 | row i of P*A is row p[i] of A |
| LUPivoting.PermuteByIdentity | matrix/LUDecomposition.h:43-44 | permuting by the identity record changes nothing |
| LUPivoting.AtPermutationMatrix | matrix/LUDecomposition.h:16-18 | P has a 1 at (r, p[r]) and 0 elsewhere |
| LUPivoting.PermuteRowsIsProduct | matrix/LUDecomposition.h:16-18 | permuting rows by p is multiplying by P on the left |
| LUPivoting.FactoredExchange | matrix/LUDecomposition.h:132-142 | swapping u's rows over columns >= k and l's rows over columns < k keeps the partial factorisation of the permuted A |
| LUPivoting.ExchangeKeepsDominance | matrix/LUDecomposition.h:137-141 | the swap keeps every finished column of l dominated by its diagonal |
| LUPivoting.StepKeepsDominance | matrix/LUDecomposition.h:119-144 | a pivoted step extends that dominance to column k |
| LUPivoting.PivotedStart | matrix/LUDecomposition.h:43-46 | p = identity, u = A, l = I is the factored state after 0 steps |
| LUPivoting.PivotedFactoredStep | matrix/LUDecomposition.h:113-145 | a pivoted step with a nonzero pivot keeps the invariant for the updated record |
| LUPivoting.PivotedDecomposeStep | matrix/LUDecomposition.h:113-145 | one step finds the pivot, swaps p, u and l, then eliminates, and returns true |
| LUPivoting.DecomposeRecurPivoted | matrix/LUDecomposition.h:104-111 | the recursion completes the pivoted factorisation |
| LUPivoting.DecomposePivoted | matrix/LUDecomposition.h:38-49 | with nonzero pivots, p is a permutation, `L*U == P*A` (row i of P*A being row p[i] of A), L lower triangular with dominant nonzero diagonal, U unit upper triangular |
| LUSolve.AtLowerPart | matrix/LUDecomposition.h:148-172 | forward substitution reads only the lower triangle of l |
| LUSolve.AtUnitUpperPart | matrix/LUDecomposition.h:175-197 | back substitution reads only the strict upper triangle of u, with an implied unit diagonal |
| LUSolve.PartsOfFactors | matrix/LUDecomposition.h:200-222 | for factors from decompose these parts are the factors themselves |
| LUSolve.ForwardStart | matrix/LUDecomposition.h:148-172 | B itself is the forward-substitution state after 0 rows |
| LUSolve.ForwardStep | matrix/LUDecomposition.h:150-166 | dividing row k by `l[k][k]` and subtracting it below advances the forward state by one row |
| LUSolve.SubtractBelow | matrix/LUDecomposition.h:160-166 | the loop subtracts `l[j][k]` times row k from every lower row |
| LUSolve.ForwardComplete | matrix/LUDecomposition.h:148-172 | the finished forward state satisfies `lower(L) * Y == B` |
| LUSolve.SolveLower | matrix/LUDecomposition.h:148-172 | solveLyEqualsB leaves the finished forward state in bx |
| LUSolve.BackStart | matrix/LUDecomposition.h:175-197 | Y itself is the back-substitution state before any column |
| LUSolve.BackStep | matrix/LUDecomposition.h:186-194 | subtracting `u[j][k+1]` times row k+1 from the upper rows advances the back state by one column |
| LUSolve.BackUpperRow | matrix/LUDecomposition.h:187-194 | one upper row receives its subtraction |
| LUSolve.BackComplete | matrix/LUDecomposition.h:175-197 | the finished back state satisfies `unitUpper(U) * X == Y` |
| LUSolve.SolveUpper | matrix/LUDecomposition.h:175-197 | solveUxEqualsY leaves the finished back state in bx |
| LUSolve.Solve | matrix/LUDecomposition.h:200-222 | with a nonzero diagonal in l, bx ends holding X with `lower(L) * unitUpper(U) * X == B`, result true; l and u are read-only copies |
| LUSolve.SolveWithFactors | matrix/LUDecomposition.h:204-209 | solving with factors of `A = L*U` solves `A * X == B` |
| Geometry.Orthogonal2dBySwap | geometry/GeometryCalculator.h:27-32 | the swap-and-negate on a copy returns `(-v1, v0)`, with dot 0 |
| Geometry.OrthogonalOf | geometry/GeometryCalculator.h:51-81 | the Eigen orthogonal() returns the same vector as Vector.h's, with dot 0 with v; in 3D it is the corrected orthogonal3d (see Findings) |
| Geometry.AlongFirstLine | geometry/GeometryCalculator.h:121-133 | the point at parameter t on line 1, minus p2, has component `t*den - num` along n2 |
| Geometry.NonZeroDenominatorDirection | geometry/GeometryCalculator.h:121-125 | a nonzero denominator implies a nonzero v2 |
| Geometry.ExactClassification | geometry/GeometryCalculator.h:125-134 | at tolerance 0: COINCIDENT puts line 1 on line 2, NONE keeps it off, and on INTERSECT the point at t is on line 2 iff t == num/den |
| Geometry.IntersectionKind | geometry/GeometryCalculator.h:88-107 | INTERSECT iff abs(den) > tol; COINCIDENT iff abs(den) <= tol and abs(num) <= tol; NONE otherwise (same as GeometryCalculatorOld.h:28-47) |
| Geometry.Intersection | geometry/GeometryCalculator.h:113-135 | on INTERSECT `result = p1 + v1*(num/den)`, which lies on line 2; otherwise result is unwritten |
| Geometry.IntersectionWithDistance | geometry/GeometryCalculator.h:145-171 | distance is num/den on INTERSECT, 0 on COINCIDENT, unwritten on NONE; result as above |
| Geometry.Distance | geometry/GeometryCalculator.h:221-245 | the value is num/den on INTERSECT, 0 on COINCIDENT, unwritten on NONE |
| Geometry.OverloadsAgree | geometry/GeometryCalculator.h:113-171 | the distance overload gives the same type and point as the point overload and the same distance as the distance overload |
| Geometry.SameLineIsCoincident | test/GeometryCalculatorTest.cpp:69-90 | the same position with the same or the negated direction is COINCIDENT |
| Geometry.IntersectionKindAsWritten3d | geometry/GeometryCalculator.h:36-47 | with the normal orthogonal3d computes as written (the same at geometry/GeometryCalculatorOld.h:34 through geometry/Vector.h:117-118), every second direction (a, 0, -a) gives den = num = 0, so every pair of such lines is COINCIDENT |
| Geometry.CorrectedNormalIntersects3d | geometry/GeometryCalculator.h:113-135 | with the corrected normal (1, 1, 1) of (1, 0, -1), the x axis and the line through (0, 0, 5) along (1, 0, -1) are INTERSECT at (5, 0, 0) for every tolerance in [0, 1) |
| Geometry.FirstNonZero | geometry/GeometryCalculator.h:207-212 | the index at which the loop over v2 stops: all earlier components are 0 and this one is not |
| Geometry.IntersectionDistance | geometry/GeometryCalculator.h:181-214 | d1 and the point as in the distance overload; d2 = 0 on COINCIDENT, unwritten on NONE, and read at the first nonzero v2 component on INTERSECT, so that in 2D the point is `p2 + v2*d2` |
| Geometry.OnSecondLine2d | geometry/GeometryCalculator.h:204-212 | in 2D a point on line 2 is `p2 + v2*d2` for the d2 read at the first nonzero component |
| Geometry.MeetingParameters | test/GeometryCalculatorTest.cpp:286-309 | in 2D, if `p1 + t*v1 == p2 + s*v2` and the type is INTERSECT, then the returned d1 is t and the returned d2 is s |
| Geometry.StretchedSegment | test/GeometryCalculatorTest.cpp:386-526 | for a segment whose extent reaches k times the hit: d1 = t and d2 = 1/k, less 1 when the start is shifted; so k = 1.01 gives 0 < d2 < 1, k = 0.99 gives d2 > 1, and a shifted start gives d2 < 0 |
| Geometry.SliceIntersection | geometry/GeometryCalculator.h:257-276 | uses den = v[dim] and num = value - p[dim]; on INTERSECT the point has `point[dim] == value` (same as GeometryCalculatorOld.h:193-212) |
| Geometry.SliceIntersectionWithDistance | geometry/GeometryCalculator.h:288-311 | also distance = num/den on INTERSECT, 0 on COINCIDENT, unwritten on NONE |
| Geometry.SliceDistance | geometry/GeometryCalculator.h:323-345 | the value is 0 on COINCIDENT, unwritten on NONE, and on INTERSECT walks exactly onto the slice |
| Geometry.SliceIsLine2d | geometry/GeometryCalculator.h:257-276 | in 2D the slice overload equals the general intersection with the axis-parallel line |
| Geometry.SegmentBetween | include/math/geometry/LineSegment.hpp:38-40 | `extends = finish - start`, so `start + extends == finish` |
| Geometry.RayDistance | geometry/Ray.h:47-60 | in every dimension: NONE from the line test stays NONE with the distance unchanged; COINCIDENT passes with distance 0; otherwise the distance is num/den, and the result is INTERSECT iff the line test is INTERSECT, 0 <= d2 <= 1 and the distance is >= 0; in 2D a returned INTERSECT meets the segment at p + v*d2 |
| Geometry.LineIntersect | geometry/Line.hpp:44-48 | exactly intersection() with the other line, whose point lies on that line |
| Geometry.LineDistance | geometry/Line.hpp:50-59 | +infinity iff the type is NONE; 0 on COINCIDENT; num/den on INTERSECT |
| Frames.WorldIsPathProduct | geometry/ReferenceFrame.hpp:30-36 | the recursive world offset is the product of the local matrices from the root down to the frame |
| Frames.PathFrom | geometry/ReferenceFrame.hpp:30-36 | the parent chain as a root-first path whose consecutive frames are parent and child |
| Frames.SetCell | geometry/ReferencePoint.hpp:81-120 | writing one matrix cell changes that cell and no other |
| Frames.SetYaw | geometry/ReferencePoint.hpp:130-139 | the top-left 2x2 block becomes `[[cos, -sin], [sin, cos]]`; every other cell is unchanged |
| Frames.AtPose2d | geometry/ReferenceFrame2d.hpp:19-31 | the constructed matrix has the rotation block, x at (0, 2), y at (1, 2) and bottom row (0, 0, 1) |
| Frames.TranslationColumn | geometry/ReferencePoint.hpp:67-70 | the corrected translation offset: column DIM, rows 0..DIM-1 |
| Frames.TranslationOffsetAsWritten | geometry/ReferencePoint.hpp:67-70 | the translation offset as written: column 2, rows 0..DIM-1 |
| Frames.TranslationIsImageOfOrigin | geometry/ReferencePoint.hpp:67-79 | the corrected column is the image of the homogeneous origin |
| Frames.TranslationOffsetAsWrittenReadsRotation | geometry/ReferencePoint.hpp:67-79 | for DIM 3 and the identity with x offset 5, column DIM gives (5, 0, 0) but column 2 gives (0, 0, 1) |
| Frames.FrameArena.NewFrame | geometry/ReferenceFrame.hpp:26-28 | a new frame with no parent |
| Frames.FrameArena.NewPoint | geometry/ReferencePoint.hpp:27-30 | a new frame with the given parent and the identity matrix |
| Frames.FrameArena.NewPose2d | geometry/ReferenceFrame2d.hpp:19-31 | a new frame with the given parent whose matrix is the x, y, t pose; every other frame is unchanged (the same as geometry/ReferencePoint.hpp:32-43) |
| Frames.FrameArena.SetParent | geometry/ReferenceFrame.hpp:38-46 | only this frame's parent changes, and getParent then returns it; acyclicity is not checked, as in the source, and OffsetFromWorld requires every chain to reach a root |
| Frames.FrameArena.SetXOffset | geometry/ReferencePoint.hpp:81-90 | writes cell (0, DIM) only; getXOffset reads the value back |
| Frames.FrameArena.SetYOffset | geometry/ReferencePoint.hpp:92-105 | writes cell (1, DIM) only; getYOffset reads it back |
| Frames.FrameArena.SetZOffset | geometry/ReferencePoint.hpp:107-120 | writes cell (2, DIM) only; getZOffset reads it back |
| Frames.FrameArena.SetYawOffset | geometry/ReferencePoint.hpp:130-139 | writes only the four rotation cells of this frame |
| Frames.FrameArena.OffsetFromWorld | geometry/ReferencePoint.hpp:49-55 | the world offset is a (DIM+1)x(DIM+1) matrix |
| Frames.OffsetFromWorldSteps | geometry/ReferenceFrame.hpp:30-36 | a root's world offset is its local matrix; a child's is the parent's world offset times its local matrix |
| Frames.OffsetFromWorldIsChainProduct | geometry/ReferenceFrame.hpp:30-36 | the world offset is the product of the locals along the chain |
| Frames.FrameArena.TranslationOffset | geometry/ReferencePoint.hpp:67-70 | the translation components are getXOffset, getYOffset and getZOffset |
| Frames.FrameArena.WorldPosition | geometry/ReferencePoint.hpp:72-79 | the world position has DIM components |
| Frames.WorldPositionIsImageOfOrigin | geometry/ReferencePoint.hpp:141-181 | the world position is the translation column of the world offset and the image of the origin; in 2D the x and y of getXY/getXYYaw are its components |
| Frames.UnitCircle | test/ReferenceFrameTest.cpp:12-25 | a child at (1, 0, 0) under a frame with yaw i has world position (cos i, sin i) |
| Frames.RotatedPointColumn | test/ReferenceFrameTest.cpp:12-25 | the product of the rotated parent and that child has (cos i, sin i) in its translation column |
| SpatialTrees.ChildIndexOf | geometry/SpatialTree.h:90-103 | the packed index is < 2^DIM |
| SpatialTrees.ChildIndexBits | geometry/SpatialTree.h:90-103 | bit DIM-1-i of the index is set iff `point[i] - corner[i] >= size/2` |
| SpatialTrees.SameIndexSameHalves | geometry/SpatialTree.h:90-103 | two points with the same child index lie in the same half in each dimension |
| SpatialTrees.ChildCornerFollowsIndex | geometry/SpatialTree.h:80-83 | the child corner moves by size/2 exactly in the dimensions whose index bit is set |
| SpatialTrees.ChildBoxContains | geometry/SpatialTree.h:75-88 | the half-size child box contains the point in every dimension where the parent box does |
| SpatialTrees.SpatialTree.NoChildren | geometry/SpatialTree.h:36-37 | 2^DIM empty child slots |
| SpatialTrees.SpatialTree.constructor | geometry/SpatialTree.h:33-38 | one node with the given data, corner and size, and all child slots empty |
| SpatialTrees.SpatialTree.Bounds | geometry/SpatialTree.h:58-61 | `corner <= point && point < corner + size` through Vector's ordering: `corner[i] <= point[i] < corner[i] + size` for i in 1..DIM-1 |
| SpatialTrees.BoundsIgnoresFirst | geometry/SpatialTree.h:58-61 | component 0 of the point is never checked |
| SpatialTrees.SpatialTree.GetChildIndex | geometry/SpatialTree.h:90-103 | the shift-and-or loop returns the packed child index |
| SpatialTrees.SpatialTree.ChildCorner | geometry/SpatialTree.h:80-83 | the loop builds the child corner |
| SpatialTrees.SpatialTree.InsertionPoint | geometry/SpatialTree.h:75-88 | the descent by child index ends at an empty slot |
| SpatialTrees.SpatialTree.AddChild | geometry/SpatialTree.h:78-85 | the empty slot receives a new node with the data, the child corner, half the size and no children |
| SpatialTrees.SpatialTree.InsertNoCheck | geometry/SpatialTree.h:75-88 | exactly one node is added, at the first empty slot on the descent; existing data, corners and sizes are unchanged and only that one slot changes |
| SpatialTrees.SpatialTree.DescentKeepsPoint | geometry/SpatialTree.h:75-88 | the created box contains the point in every dimension where the starting box does |
| SpatialTrees.SpatialTree.Insert | geometry/SpatialTree.h:63-72 | returns bounds(point); on false nothing changes; on true it does insertNoCheck at the root, and the new box contains the point in dimensions 1..DIM-1 |

## Left out

- Floating-point rounding: scalars are exact `real`. The default tolerance
  `epsilon() * 4` is the exact constant 2^-50. Test tolerances (`1e-10`,
  relative `1e-9`, `epsilon()`) become exact equalities.
- Division by zero and IEEE infinity/NaN: every division in the model
  requires a nonzero divisor. LU requires nonzero pivots
  (`Factorable`, `PivotedFactorable`), and `LUSolve.Solve` requires a
  nonzero diagonal in l. The `/=` operators require nonzero divisors.
- Geometry.Intersection: requires `tolerance >= 0`; with a negative tolerance the source would take the INTERSECT branch on a zero denominator and divide by it.
- Geometry.IntersectionWithDistance: requires `tolerance >= 0`; with a negative tolerance the source would take the INTERSECT branch on a zero denominator and divide by it.
- Geometry.Distance: requires `tolerance >= 0`; with a negative tolerance the source would take the INTERSECT branch on a zero denominator and divide by it.
- Geometry.IntersectionDistance: requires `tolerance >= 0`; with a negative tolerance the source would take the INTERSECT branch on a zero denominator and divide by it.
- Geometry.SliceIntersection: requires `tolerance >= 0`; with a negative tolerance the source would take the INTERSECT branch on a zero denominator and divide by it.
- Geometry.SliceIntersectionWithDistance: requires `tolerance >= 0`; with a negative tolerance the source would take the INTERSECT branch on a zero denominator and divide by it.
- Geometry.SliceDistance: requires `tolerance >= 0`; with a negative tolerance the source would take the INTERSECT branch on a zero denominator and divide by it.
- Geometry.LineIntersect: requires `tolerance >= 0`; with a negative tolerance the source would take the INTERSECT branch on a zero denominator and divide by it.
- Geometry.LineDistance: requires `tolerance >= 0`; with a negative tolerance the source would take the INTERSECT branch on a zero denominator and divide by it.
- Geometry.OrthogonalOf, Geometry.Denominator and Geometry.Numerator use the corrected orthogonal3d in 3D, so the whole intersection family (Intersection, IntersectionWithDistance, Distance, IntersectionDistance, RayDistance, LineIntersect, LineDistance) follows the corrected normal. For a second direction (a, 0, -a) the source classifies every pair as COINCIDENT (Geometry.IntersectionKindAsWritten3d); the model does not reproduce that.
- `std::sqrt` is a function parameter required to be a square root at the
  argument; `Vectors.Vector.Normalize` requires a nonzero norm.
- `cos` and `sin` are uninterpreted. The yaw read-backs through `atan2` are
  not modelled: `getTOffset`, `getYawOffset`, and the yaw output of
  `getXYT` and `getXYYaw`.
- Printing is not modelled: `operator<<` of Vector and Matrix, and
  `Pretty<Matrix>`.
- The `std::function` generator constructors and the generator assignment
  are not modelled. `Vectors.Vector.FromSeq` and the Matrix constructors
  from values cover filling from given values.
- Pointer plumbing is replaced by index functions: `ptr()`, row-pointer
  `operator[]` and `memcpy`.
- `Vector::min`/`max` do not compile as written (the locals shadow
  `std::min`/`std::max`), and are not modelled.
- `SpatialTree::contains` is not modelled. It depends on those and on
  division by zero direction components.
- The `SpatialTree` destructor is not modelled; nodes live in an arena.
- The integer width of indices is not modelled. `1 << DIM` as uint32 for
  DIM >= 32 and the `uint32_t` loop counters are unbounded here.
- Matrices.Matrix.IsUpper requires `ROWS <= COLS + 1`. Below that, the
  source's scan over `data[r*COLS + c]` with `c` up to `ROWS-2` runs past
  the end of its row and, for the last row, past the end of the array.
- LUSolve.Solve: the source sets entries of its local copies `lCopy` and
  `uCopy` to 0 as it goes. The copies are discarded, so l and u are
  modelled as read-only values.
- Geometry.LineDistance models the evident intent of `Line::distance`. As
  written, its local `distance` shadows the free function. Ray and Line
  also use a `DIM x 0` Eigen type where a `DIM x 1` vector is meant.
- Frames.FrameArena.SetParent models the evident intent.
  `ReferencePoint::setParent` names `ReferenceFrame::parent`, and the
  offset setters return `Ref&` from a `ReferencePoint`; both are slips.
- Frames.FrameArena.NewFrame: `ReferenceFrame()` leaves its matrix
  uninitialised; the model takes that matrix as a parameter.
- `ReferenceFrame`, `ReferenceFrame2d` and `ReferencePoint` are one arena
  class.
- In the unit-circle test, the world frame `ReferenceFrame<2> world` is
  modelled as the default `ReferencePoint`, whose matrix is the identity.
- Frames.FrameArena.OffsetFromWorld and Frames.FrameArena.WorldPosition
  state only a size in their own contract. Their meaning is in
  Frames.OffsetFromWorldSteps, Frames.OffsetFromWorldIsChainProduct and
  Frames.WorldPositionIsImageOfOrigin.
- The unit tests themselves are not modelled; a few of their scenarios are stated as lemmas.

## Findings

| source | as written | input that shows it | evidently intended | confidence | as-written member | corrected member |
|---|---|---|---|---|---|---|
| geometry/Vector.h:117-118 | `orthogonal3d` selects `normal[1]` when `v[1] == 0 && v[0] == -v[2]`; `normal[1]` is the zero vector exactly then (the same at geometry/GeometryCalculator.h:45) | v = (1, 0, -1) gives (0, 0, 0), though (1, 1, 1) is a normal | select `normal[1]` when `normal[0]` degenerates: `v[0] == 0 && v[1] == -v[2]` | not executed | VectorAlgebra.Orthogonal3dAsWrittenLosesNormal | VectorAlgebra.Orthogonal3dIsOrthogonal |
| geometry/GeometryCalculator.h:45 | the intersection family takes n2 from orthogonal3d (also geometry/GeometryCalculatorOld.h:34 through geometry/Vector.h:117-118), whose zero normal for v2 = (a, 0, -a) makes den = num = 0 | p1 = (0,0,0), v1 = (1,0,0), p2 = (0,0,5), v2 = (1,0,-1) is COINCIDENT, though the lines meet at (5,0,0) | the corrected normal, which classifies it INTERSECT at (5,0,0) | not executed | Geometry.IntersectionKindAsWritten3d | Geometry.CorrectedNormalIntersects3d |
| matrix/Matrix.h:351-355 | `isSingular` returns `det() <= tolerance`, a signed comparison | the row swap [[0,1],[1,0]] (its own inverse, det -1) is reported singular | `abs(det()) <= tolerance` | not executed | MatrixAlgebra.SwapIsSingularAsWritten | MatrixAlgebra.IsSingularOfTriangular |
| geometry/Vector.h:240-248 | `equals` divides the difference by the signed component, so a negative component makes every quotient non-positive (the same at matrix/Matrix.h:262-271) | (-1) equals (100) at the default tolerance 1e-8 | divide by `abs(values[i])` | not executed | VectorAlgebra.EqualsAsWrittenAcceptsNegativeMismatch | VectorAlgebra.RelativelyEqualMeaning |
| geometry/ReferencePoint.hpp:67-79 | `getTranslationOffset` and `getWorldPosition` read column 2 of the (DIM+1)x(DIM+1) matrix | DIM 3, identity with x offset 5: column 2 gives (0, 0, 1) | column DIM, where the offset setters write | not executed | Frames.TranslationOffsetAsWrittenReadsRotation | Frames.TranslationIsImageOfOrigin |
