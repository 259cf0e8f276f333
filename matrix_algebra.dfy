/** Matrices as values: a ROWS x COLS matrix is the row-major sequence of
    its ROWS * COLS entries, as in the data[] array of matrix/Matrix.h. This
    module specifies the product, the identity, the transpose, the
    triangularity and singularity tests and the determinant by first-row
    expansion over Minor views; the Matrix class and the LU decomposition
    are proved against it. */
module MatrixAlgebra {
  import opened MathUtil
  // ---------------------------------------------------------------------
  // Row-major indexing
  // ---------------------------------------------------------------------

  /** Entry (r, c) of a matrix with cols columns: data[r * cols + c], or 0
      outside the matrix (so that specifications need no index bounds). */
  function At(m: seq<real>, cols: nat, r: nat, c: nat): real
  {
    if c < cols && RowStart(r, cols) + c < |m| then m[RowStart(r, cols) + c] else 0.0
  }

  /** r * cols, the offset of row r, written as a sum so that reasoning about
      entries stays linear; RowStartIsProduct connects the two. */
  function RowStart(r: nat, cols: nat): (start: nat)
  {
    if r == 0 then 0 else RowStart(r - 1, cols) + cols
  }

  lemma {:induction false} RowStartIsProduct(r: nat, cols: nat)
    ensures RowStart(r, cols) == r * cols
  {
    if r > 0 {
      RowStartIsProduct(r - 1, cols);
    }
  }

  /** At is entry r * cols + c of the row-major data. */
  lemma AtIndex(m: seq<real>, cols: nat, r: nat, c: nat)
    ensures At(m, cols, r, c) == if c < cols && r * cols + c < |m| then m[r * cols + c] else 0.0
  {
    RowStartIsProduct(r, cols);
  }

  lemma MulMono(a: nat, b: nat, n: nat)
    requires a <= b
    ensures a * n <= b * n
  {
    assert b * n == a * n + (b - a) * n;
  }

  lemma IndexBounds(r: nat, c: nat, rows: nat, cols: nat)
    requires r < rows && c < cols
    ensures r * cols + c < rows * cols
  {
    MulMono(r + 1, rows, cols);
  }

  lemma IndexSplit(r: nat, c: nat, cols: nat)
    requires c < cols
    ensures (r * cols + c) / cols == r && (r * cols + c) % cols == c
  {
    var i := r * cols + c;
    var q, s := i / cols, i % cols;
    assert i == q * cols + s;
    if q < r {
      MulMono(q + 1, r, cols);
    } else if q > r {
      MulMono(r + 1, q, cols);
    }
  }

  lemma IndexOf(i: nat, rows: nat, cols: nat)
    requires i < rows * cols
    ensures cols > 0 && i / cols < rows && i % cols < cols
    ensures i == (i / cols) * cols + i % cols
  {

    if i / cols >= rows {
      MulMono(rows, i / cols, cols);
    }
  }

  /** Inside an exactly sized matrix, At is data[r * cols + c]. */
  lemma AtEntry(m: seq<real>, rows: nat, cols: nat, r: nat, c: nat)
    requires |m| == rows * cols && r < rows && c < cols
    ensures r * cols + c < |m| && At(m, cols, r, c) == m[r * cols + c]
  {
    IndexBounds(r, c, rows, cols);
    AtIndex(m, cols, r, c);
  }

  lemma AtFlat(m: seq<real>, i: nat, rows: nat, cols: nat)
    requires |m| == rows * cols && i < |m|
    ensures cols > 0 && i / cols < rows && i % cols < cols
    ensures At(m, cols, i / cols, i % cols) == m[i]
  {
    IndexOf(i, rows, cols);
    AtIndex(m, cols, i / cols, i % cols);
  }

  lemma SameMatrix(a: seq<real>, b: seq<real>, rows: nat, cols: nat)
    requires |a| == rows * cols && |b| == rows * cols
    requires forall r: nat, c: nat :: r < rows && c < cols ==> At(a, cols, r, c) == At(b, cols, r, c)
    ensures a == b
  {
    forall i | 0 <= i < |a|
      ensures a[i] == b[i]
    {
      AtFlat(a, i, rows, cols);
      AtFlat(b, i, rows, cols);
    }
  }

  /** Writing data[r * cols + c] changes entry (r, c) and no other. */
  lemma AtUpdate(m: seq<real>, cols: nat, r: nat, c: nat, v: real, r': nat, c': nat)
    requires c < cols && RowStart(r, cols) + c < |m|
    ensures At(m[RowStart(r, cols) + c := v], cols, r', c') == if r' == r && c' == c then v else At(m, cols, r', c')
  {
    if c' < cols {
      RowStartSegment(r, c, c + 1, r', c', cols);
    }
  }

  /** Later rows start at least a whole row further on. */
  lemma {:induction false} RowStartMono(a: nat, b: nat, cols: nat)
    requires a < b
    ensures RowStart(a, cols) + cols <= RowStart(b, cols)
  {
    if b > a + 1 {
      RowStartMono(a, b - 1, cols);
    }
  }

  lemma RowStartBound(r: nat, c: nat, rows: nat, cols: nat)
    requires r < rows && c < cols
    ensures RowStart(r, cols) + c < rows * cols
  {
    RowStartIsProduct(r, cols);
    IndexBounds(r, c, rows, cols);
  }

  /** Row r of an h x w matrix ends inside it. */
  lemma RowInside(r: nat, h: nat, w: nat)
    requires r < h
    ensures RowStart(r, w) + w <= h * w
  {
    RowStartIsProduct(r, w);
    MulMono(r + 1, h, w);
  }

  /** Inside an exactly sized matrix, At is data[RowStart(r, cols) + c]. */
  lemma AtRowStart(m: seq<real>, rows: nat, cols: nat, r: nat, c: nat)
    requires |m| == rows * cols && r < rows && c < cols
    ensures RowStart(r, cols) + c < |m| && At(m, cols, r, c) == m[RowStart(r, cols) + c]
  {
    RowStartBound(r, c, rows, cols);
  }

  /** Writing entry (r, c) changes it and no other entry. */
  lemma AtUpdateAll(m: seq<real>, cols: nat, r: nat, c: nat, v: real)
    requires c < cols && RowStart(r, cols) + c < |m|
    ensures forall r': nat, c': nat {:trigger At(m[RowStart(r, cols) + c := v], cols, r', c')} ::
              At(m[RowStart(r, cols) + c := v], cols, r', c') == if r' == r && c' == c then v else At(m, cols, r', c')
  {
    forall r': nat, c': nat
      ensures At(m[RowStart(r, cols) + c := v], cols, r', c') == if r' == r && c' == c then v else At(m, cols, r', c')
    {
      AtUpdate(m, cols, r, c, v, r', c');
    }
  }

  /** The flat position of (r, c) lies in columns lo .. hi-1 of row r0
      exactly when r is r0 and c is one of those columns. */
  lemma RowStartSegment(r0: nat, lo: nat, hi: nat, r: nat, c: nat, cols: nat)
    requires lo <= hi <= cols && c < cols
    ensures RowStart(r0, cols) + lo <= RowStart(r, cols) + c < RowStart(r0, cols) + hi <==> r == r0 && lo <= c < hi
  {
    if r < r0 {
      RowStartMono(r, r0, cols);
    } else if r > r0 {
      RowStartMono(r0, r, cols);
    }
  }

  // ---------------------------------------------------------------------
  // Identity, product, transpose
  // ---------------------------------------------------------------------

  /** identity(): 1 where the row equals the column, 0 elsewhere. */
  function Identity(rows: nat, cols: nat): seq<real>
  {
    seq(rows * cols, k requires 0 <= k < rows * cols => IndexOf(k, rows, cols); if k / cols == k % cols then 1.0 else 0.0)
  }

  lemma AtIdentity(rows: nat, cols: nat, r: nat, c: nat)
    requires r < rows && c < cols
    ensures At(Identity(rows, cols), cols, r, c) == if r == c then 1.0 else 0.0
  {
    IndexBounds(r, c, rows, cols);
    IndexSplit(r, c, cols);
    AtIndex(Identity(rows, cols), cols, r, c);
  }

  /** Sum over lo <= i < hi of a(r, i) * b(i, c), a with m columns, b with p. */
  function RowColRange(a: seq<real>, b: seq<real>, m: nat, p: nat, r: nat, c: nat, lo: nat, hi: nat): real
    decreases hi
  {
    if hi <= lo then 0.0
    else RowColRange(a, b, m, p, r, c, lo, hi - 1) + At(a, m, r, hi - 1) * At(b, p, hi - 1, c)
  }

  /** operator*: the ROWS x MCOLS matrix of sums over i of a(r, i) * b(i, c). */
  function MatMul(a: seq<real>, b: seq<real>, n: nat, m: nat, p: nat): seq<real>
  {
    seq(n * p, k requires 0 <= k < n * p => IndexOf(k, n, p); RowColRange(a, b, m, p, k / p, k % p, 0, m))
  }

  lemma AtMatMul(a: seq<real>, b: seq<real>, n: nat, m: nat, p: nat, r: nat, c: nat)
    requires r < n && c < p
    ensures At(MatMul(a, b, n, m, p), p, r, c) == RowColRange(a, b, m, p, r, c, 0, m)
  {
    IndexBounds(r, c, n, p);
    IndexSplit(r, c, p);
    AtIndex(MatMul(a, b, n, m, p), p, r, c);
  }

  /** transposed(): the COLS x ROWS matrix t with t(r, c) == a(c, r). */
  function Transpose(a: seq<real>, rows: nat, cols: nat): seq<real>
  {
    seq(cols * rows, k requires 0 <= k < cols * rows => IndexOf(k, cols, rows); At(a, cols, k % rows, k / rows))
  }

  lemma AtTranspose(a: seq<real>, rows: nat, cols: nat, r: nat, c: nat)
    requires r < cols && c < rows
    ensures At(Transpose(a, rows, cols), rows, r, c) == At(a, cols, c, r)
  {
    IndexBounds(r, c, cols, rows);
    IndexSplit(r, c, rows);
    AtIndex(Transpose(a, rows, cols), rows, r, c);
  }

  lemma TransposeTwice(a: seq<real>, rows: nat, cols: nat)
    requires |a| == rows * cols
    ensures Transpose(Transpose(a, rows, cols), cols, rows) == a
  {
    var t := Transpose(a, rows, cols);
    forall r: nat, c: nat | r < rows && c < cols
      ensures At(Transpose(t, cols, rows), cols, r, c) == At(a, cols, r, c)
    {
      AtTranspose(t, cols, rows, r, c);
      AtTranspose(a, rows, cols, c, r);
    }
    SameMatrix(Transpose(t, cols, rows), a, rows, cols);
  }

  lemma {:induction false} IdentityLeftRange(b: seq<real>, n: nat, p: nat, r: nat, c: nat, hi: nat)
    requires r < n && c < p && hi <= n
    ensures RowColRange(Identity(n, n), b, n, p, r, c, 0, hi) == if r < hi then At(b, p, r, c) else 0.0
  {
    if hi > 0 {
      IdentityLeftRange(b, n, p, r, c, hi - 1);
      AtIdentity(n, n, r, hi - 1);
    }
  }

  lemma {:induction false} IdentityRightRange(a: seq<real>, n: nat, m: nat, r: nat, c: nat, hi: nat)
    requires r < n && c < m && hi <= m
    ensures RowColRange(a, Identity(m, m), m, m, r, c, 0, hi) == if c < hi then At(a, m, r, c) else 0.0
  {
    if hi > 0 {
      IdentityRightRange(a, n, m, r, c, hi - 1);
      AtIdentity(m, m, hi - 1, c);
    }
  }

  /** identity() is a left and a right unit of operator*. */
  lemma IdentityIsUnit(a: seq<real>, n: nat, m: nat)
    requires |a| == n * m
    ensures MatMul(Identity(n, n), a, n, n, m) == a
    ensures MatMul(a, Identity(m, m), n, m, m) == a
  {
    forall r: nat, c: nat | r < n && c < m
      ensures At(MatMul(Identity(n, n), a, n, n, m), m, r, c) == At(a, m, r, c)
      ensures At(MatMul(a, Identity(m, m), n, m, m), m, r, c) == At(a, m, r, c)
    {
      AtMatMul(Identity(n, n), a, n, n, m, r, c);
      IdentityLeftRange(a, n, m, r, c, n);
      AtMatMul(a, Identity(m, m), n, m, m, r, c);
      IdentityRightRange(a, n, m, r, c, m);
    }
    SameMatrix(MatMul(Identity(n, n), a, n, n, m), a, n, m);
    SameMatrix(MatMul(a, Identity(m, m), n, m, m), a, n, m);
  }

  /** Sum over j < J of (sum over i < I of a(r,i) * b(i,j)) * c(j,s): the
      entry (r, s) of (a * b) * c with both sums cut short. */
  function ProductLeft(a: seq<real>, b: seq<real>, c: seq<real>, m: nat, p: nat, q: nat, r: nat, s: nat, i: nat, j: nat): real
  {
    if j == 0 then 0.0
    else ProductLeft(a, b, c, m, p, q, r, s, i, j - 1) + RowColRange(a, b, m, p, r, j - 1, 0, i) * At(c, q, j - 1, s)
  }

  /** Sum over i < I of a(r,i) * (sum over j < J of b(i,j) * c(j,s)). */
  function ProductRight(a: seq<real>, b: seq<real>, c: seq<real>, m: nat, p: nat, q: nat, r: nat, s: nat, i: nat, j: nat): real
  {
    if i == 0 then 0.0
    else ProductRight(a, b, c, m, p, q, r, s, i - 1, j) + At(a, m, r, i - 1) * RowColRange(b, c, p, q, i - 1, s, 0, j)
  }

  lemma {:induction false} ProductLeftEmpty(a: seq<real>, b: seq<real>, c: seq<real>, m: nat, p: nat, q: nat, r: nat, s: nat, j: nat)
    ensures ProductLeft(a, b, c, m, p, q, r, s, 0, j) == 0.0
  {
    if j > 0 {
      ProductLeftEmpty(a, b, c, m, p, q, r, s, j - 1);
    }
  }

  lemma {:induction false} ProductLeftStep(a: seq<real>, b: seq<real>, c: seq<real>, m: nat, p: nat, q: nat, r: nat, s: nat, i: nat, j: nat)
    ensures ProductLeft(a, b, c, m, p, q, r, s, i + 1, j)
            == ProductLeft(a, b, c, m, p, q, r, s, i, j) + At(a, m, r, i) * RowColRange(b, c, p, q, i, s, 0, j)
  {
    if j == 0 {
      ScaledZero(At(a, m, r, i), RowColRange(b, c, p, q, i, s, 0, j));
    } else {
      ProductLeftStep(a, b, c, m, p, q, r, s, i, j - 1);
      ExchangeStep(ProductLeft(a, b, c, m, p, q, r, s, i + 1, j), ProductLeft(a, b, c, m, p, q, r, s, i + 1, j - 1),
                   ProductLeft(a, b, c, m, p, q, r, s, i, j - 1), ProductLeft(a, b, c, m, p, q, r, s, i, j),
                   RowColRange(a, b, m, p, r, j - 1, 0, i + 1),
                   RowColRange(a, b, m, p, r, j - 1, 0, i), At(a, m, r, i), At(b, p, i, j - 1), At(c, q, j - 1, s),
                   RowColRange(b, c, p, q, i, s, 0, j - 1), RowColRange(b, c, p, q, i, s, 0, j));
    }
  }

  lemma ScaledZero(x: real, g: real)
    requires g == 0.0
    ensures x * g == 0.0
  {
  }

  /** The real identity behind one step of exchanging the two sums. */
  lemma ExchangeStep(next: real, nextShort: real, short: real, cur: real, w: real, e: real, x: real, y: real, z: real, f: real, g: real)
    requires next == nextShort + w * z && w == e + x * y
    requires nextShort == short + x * f
    requires cur == short + e * z
    requires g == f + y * z
    ensures next == cur + x * g
  {
    assert (e + x * y) * z == e * z + x * (y * z);
  }

  lemma {:induction false} ProductSidesAgree(a: seq<real>, b: seq<real>, c: seq<real>, m: nat, p: nat, q: nat, r: nat, s: nat, i: nat, j: nat)
    ensures ProductLeft(a, b, c, m, p, q, r, s, i, j) == ProductRight(a, b, c, m, p, q, r, s, i, j)
  {
    if i == 0 {
      ProductLeftEmpty(a, b, c, m, p, q, r, s, j);
    } else {
      ProductSidesAgree(a, b, c, m, p, q, r, s, i - 1, j);
      ProductLeftStep(a, b, c, m, p, q, r, s, i - 1, j);
    }
  }

  lemma {:induction false} LeftIsProduct(ab: seq<real>, a: seq<real>, b: seq<real>, c: seq<real>, m: nat, p: nat, q: nat, r: nat, s: nat, j: nat)
    requires j <= p
    requires forall k: nat :: k < p ==> At(ab, p, r, k) == RowColRange(a, b, m, p, r, k, 0, m)
    ensures RowColRange(ab, c, p, q, r, s, 0, j) == ProductLeft(a, b, c, m, p, q, r, s, m, j)
  {
    if j > 0 {
      LeftIsProduct(ab, a, b, c, m, p, q, r, s, j - 1);
    }
  }

  lemma {:induction false} RightIsProduct(bc: seq<real>, a: seq<real>, b: seq<real>, c: seq<real>, m: nat, p: nat, q: nat, r: nat, s: nat, i: nat)
    requires i <= m
    requires forall k: nat :: k < m ==> At(bc, q, k, s) == RowColRange(b, c, p, q, k, s, 0, p)
    ensures RowColRange(a, bc, m, q, r, s, 0, i) == ProductRight(a, b, c, m, p, q, r, s, i, p)
  {
    if i > 0 {
      RightIsProduct(bc, a, b, c, m, p, q, r, s, i - 1);
    }
  }

  /** Two sums agree when their terms agree, even along different rows. */
  lemma {:induction false} RowColRangeFrame(a: seq<real>, b: seq<real>, a2: seq<real>, b2: seq<real>, m: nat, p: nat,
                                            r: nat, r2: nat, c: nat, lo: nat, hi: nat)
    requires forall i: nat :: lo <= i < hi ==> At(a, m, r, i) == At(a2, m, r2, i) && At(b, p, i, c) == At(b2, p, i, c)
    ensures RowColRange(a, b, m, p, r, c, lo, hi) == RowColRange(a2, b2, m, p, r2, c, lo, hi)
    decreases hi
  {
    if hi > lo {
      RowColRangeFrame(a, b, a2, b2, m, p, r, r2, c, lo, hi - 1);
    }
  }

  /** A sum split off at its first term. */
  lemma {:induction false} RowColRangeFirst(a: seq<real>, b: seq<real>, m: nat, p: nat, r: nat, c: nat, lo: nat, hi: nat)
    requires lo < hi
    ensures RowColRange(a, b, m, p, r, c, lo, hi)
            == At(a, m, r, lo) * At(b, p, lo, c) + RowColRange(a, b, m, p, r, c, lo + 1, hi)
    decreases hi
  {
    if hi > lo + 1 {
      RowColRangeFirst(a, b, m, p, r, c, lo, hi - 1);
    }
  }

  /** operator* is associative. */
  lemma MatMulAssociative(a: seq<real>, b: seq<real>, c: seq<real>, n: nat, m: nat, p: nat, q: nat)
    ensures MatMul(MatMul(a, b, n, m, p), c, n, p, q) == MatMul(a, MatMul(b, c, m, p, q), n, m, q)
  {
    var left := MatMul(MatMul(a, b, n, m, p), c, n, p, q);
    var right := MatMul(a, MatMul(b, c, m, p, q), n, m, q);
    forall r: nat, s: nat | r < n && s < q
      ensures At(left, q, r, s) == At(right, q, r, s)
    {
      AtMatMul(MatMul(a, b, n, m, p), c, n, p, q, r, s);
      AtMatMul(a, MatMul(b, c, m, p, q), n, m, q, r, s);
      forall k: nat | k < p
        ensures At(MatMul(a, b, n, m, p), p, r, k) == RowColRange(a, b, m, p, r, k, 0, m)
      {
        AtMatMul(a, b, n, m, p, r, k);
      }
      forall k: nat | k < m
        ensures At(MatMul(b, c, m, p, q), q, k, s) == RowColRange(b, c, p, q, k, s, 0, p)
      {
        AtMatMul(b, c, m, p, q, k, s);
      }
      LeftIsProduct(MatMul(a, b, n, m, p), a, b, c, m, p, q, r, s, p);
      RightIsProduct(MatMul(b, c, m, p, q), a, b, c, m, p, q, r, s, m);
      ProductSidesAgree(a, b, c, m, p, q, r, s, m, p);
    }
    SameMatrix(left, right, n, q);
  }

  // ---------------------------------------------------------------------
  // Triangularity
  // ---------------------------------------------------------------------

  /** Every entry strictly below the diagonal is 0. */
  predicate IsUpper(m: seq<real>, rows: nat, cols: nat)
  {
    forall r: nat, c: nat :: c < r < rows ==> At(m, cols, r, c) == 0.0
  }

  /** Every entry strictly above the diagonal is 0. */
  predicate IsLower(m: seq<real>, rows: nat, cols: nat)
  {
    forall r: nat, c: nat :: r < rows && r < c < cols ==> At(m, cols, r, c) == 0.0
  }

  lemma IdentityIsTriangular(n: nat)
    ensures IsUpper(Identity(n, n), n, n) && IsLower(Identity(n, n), n, n)
  {
    forall r: nat, c: nat | r < n && c < n
      ensures At(Identity(n, n), n, r, c) == if r == c then 1.0 else 0.0
    {
      AtIdentity(n, n, r, c);
    }
  }

  lemma TransposeSwapsTriangles(a: seq<real>, rows: nat, cols: nat)
    requires |a| == rows * cols && rows <= cols
    ensures IsUpper(a, rows, cols) <==> IsLower(Transpose(a, rows, cols), cols, rows)
  {
    var t := Transpose(a, rows, cols);
    forall r: nat, c: nat | r < cols && c < rows
      ensures At(t, rows, r, c) == At(a, cols, c, r)
    {
      AtTranspose(a, rows, cols, r, c);
    }
  }

  // ---------------------------------------------------------------------
  // Determinant
  // ---------------------------------------------------------------------

  /** A view of the matrix: the matrix itself, or Minor<Mat, SKIP>, which
      drops the first row of its parent and the column SKIP. */
  datatype View = Base | Minor(parent: View, skip: nat)

  function ViewAt(m: seq<real>, n: nat, v: View, row: nat, col: nat): real
    decreases v
  {
    match v
    case Base => At(m, n, row, col)
    case Minor(parent, skip) => ViewAt(m, n, parent, row + 1, if col >= skip then col + 1 else col)
  }

  /** Det<size, View>::determinantBR: 1 for an empty view, the single entry
      for a 1 x 1 view, otherwise the first-row expansion. */
  function DetOfView(m: seq<real>, n: nat, v: View, size: nat): real
    decreases size, 1
  {
    if size == 0 then 1.0
    else if size == 1 then ViewAt(m, n, v, 0, 0)
    else Expansion(m, n, v, size, size - 1)
  }

  /** DetHelp<i, View>::determinantBLoop: the first i + 1 terms of the
      first-row expansion, the term of column i added for even i and
      subtracted for odd i. */
  function Expansion(m: seq<real>, n: nat, v: View, size: nat, i: nat): real
    requires i < size
    decreases size, 0, i
  {
    var term := ViewAt(m, n, v, 0, i) * DetOfView(m, n, Minor(v, i), size - 1);
    if i == 0 then term
    else if i % 2 == 0 then Expansion(m, n, v, size, i - 1) + term
    else Expansion(m, n, v, size, i - 1) - term
  }

  /** det() of an n x n matrix, n >= 1: the entry itself for 1 x 1 and
      ad - bc for 2 x 2. */
  function Det(m: seq<real>, n: nat): (d: real)
    requires n >= 1
    ensures n == 1 ==> d == At(m, 1, 0, 0)
    ensures n == 2 ==> d == At(m, 2, 0, 0) * At(m, 2, 1, 1) - At(m, 2, 0, 1) * At(m, 2, 1, 0)
  {
    Expansion(m, n, Base, n, n - 1)
  }

  lemma DetOfOne(m: seq<real>)
    requires |m| == 1
    ensures Det(m, 1) == m[0]
  {
  }

  lemma DetOfTwo(m: seq<real>)
    requires |m| == 4
    ensures Det(m, 2) == m[0] * m[3] - m[1] * m[2]
  {
    AtIndex(m, 2, 1, 0);
    AtIndex(m, 2, 1, 1);
    assert ViewAt(m, 2, Minor(Base, 0), 0, 0) == m[3];
    assert ViewAt(m, 2, Minor(Base, 1), 0, 0) == m[2];
  }

  predicate IsIdentityView(m: seq<real>, n: nat, v: View, size: nat)
  {
    forall r: nat, c: nat :: r < size && c < size ==> ViewAt(m, n, v, r, c) == if r == c then 1.0 else 0.0
  }

  lemma {:induction false} DetOfIdentityView(m: seq<real>, n: nat, v: View, size: nat)
    requires IsIdentityView(m, n, v, size)
    ensures DetOfView(m, n, v, size) == 1.0
    decreases size, 1
  {
    if size >= 2 {
      ExpansionOfIdentityView(m, n, v, size, size - 1);
    }
  }

  lemma {:induction false} ExpansionOfIdentityView(m: seq<real>, n: nat, v: View, size: nat, i: nat)
    requires i < size && IsIdentityView(m, n, v, size)
    ensures Expansion(m, n, v, size, i) == 1.0
    decreases size, 0, i
  {
    if i == 0 {
      var w := Minor(v, 0);
      forall r: nat, c: nat | r < size - 1 && c < size - 1
        ensures ViewAt(m, n, w, r, c) == if r == c then 1.0 else 0.0
      {
        assert ViewAt(m, n, w, r, c) == ViewAt(m, n, v, r + 1, c + 1);
      }
      DetOfIdentityView(m, n, w, size - 1);
    } else {
      ExpansionOfIdentityView(m, n, v, size, i - 1);
      assert ViewAt(m, n, v, 0, i) == 0.0;
    }
  }

  lemma DetOfIdentity(n: nat)
    requires n >= 1
    ensures Det(Identity(n, n), n) == 1.0
  {
    forall r: nat, c: nat | r < n && c < n
      ensures ViewAt(Identity(n, n), n, Base, r, c) == if r == c then 1.0 else 0.0
    {
      AtIdentity(n, n, r, c);
    }
    ExpansionOfIdentityView(Identity(n, n), n, Base, n, n - 1);
  }

  /** Product of the diagonal entries of a view. */
  function DiagonalOfView(m: seq<real>, n: nat, v: View, size: nat): real
    decreases size
  {
    if size == 0 then 1.0 else ViewAt(m, n, v, 0, 0) * DiagonalOfView(m, n, Minor(v, 0), size - 1)
  }

  /** Product of the diagonal entries m(k, k) with from <= k < n. */
  function Diagonal(m: seq<real>, n: nat, from: nat): real
    decreases n - from
  {
    if from >= n then 1.0 else At(m, n, from, from) * Diagonal(m, n, from + 1)
  }

  /** The view that drops the first k rows and columns. */
  function Shifted(k: nat): View
  {
    if k == 0 then Base else Minor(Shifted(k - 1), 0)
  }

  lemma {:induction false} AtShifted(m: seq<real>, n: nat, k: nat, r: nat, c: nat)
    ensures ViewAt(m, n, Shifted(k), r, c) == At(m, n, r + k, c + k)
  {
    if k > 0 {
      AtShifted(m, n, k - 1, r + 1, c + 1);
    }
  }

  lemma {:induction false} DiagonalOfShifted(m: seq<real>, n: nat, k: nat)
    requires k <= n
    ensures DiagonalOfView(m, n, Shifted(k), n - k) == Diagonal(m, n, k)
    decreases n - k
  {
    if k < n {
      AtShifted(m, n, k, 0, 0);
      DiagonalOfShifted(m, n, k + 1);
    }
  }

  predicate IsLowerView(m: seq<real>, n: nat, v: View, size: nat)
  {
    forall r: nat, c: nat :: r < c < size ==> ViewAt(m, n, v, r, c) == 0.0
  }

  predicate IsUpperView(m: seq<real>, n: nat, v: View, size: nat)
  {
    forall r: nat, c: nat :: c < r < size ==> ViewAt(m, n, v, r, c) == 0.0
  }

  lemma {:induction false} DetOfLowerView(m: seq<real>, n: nat, v: View, size: nat)
    requires IsLowerView(m, n, v, size)
    ensures DetOfView(m, n, v, size) == DiagonalOfView(m, n, v, size)
    decreases size, 1
  {
    if size >= 2 {
      ExpansionOfLowerView(m, n, v, size, size - 1);
    }
  }

  lemma {:induction false} ExpansionOfLowerView(m: seq<real>, n: nat, v: View, size: nat, i: nat)
    requires i < size && IsLowerView(m, n, v, size)
    ensures Expansion(m, n, v, size, i) == DiagonalOfView(m, n, v, size)
    decreases size, 0, i
  {
    if i == 0 {
      var w := Minor(v, 0);
      forall r: nat, c: nat | r < c < size - 1
        ensures ViewAt(m, n, w, r, c) == 0.0
      {
        assert ViewAt(m, n, w, r, c) == ViewAt(m, n, v, r + 1, c + 1);
      }
      DetOfLowerView(m, n, w, size - 1);
    } else {
      ExpansionOfLowerView(m, n, v, size, i - 1);
      assert ViewAt(m, n, v, 0, i) == 0.0;
    }
  }

  lemma {:induction false} DetOfZeroColumnView(m: seq<real>, n: nat, v: View, size: nat)
    requires size >= 1
    requires forall r: nat :: r < size ==> ViewAt(m, n, v, r, 0) == 0.0
    ensures DetOfView(m, n, v, size) == 0.0
    decreases size, 1
  {
    if size >= 2 {
      ExpansionOfZeroColumnView(m, n, v, size, size - 1);
    }
  }

  lemma {:induction false} ExpansionOfZeroColumnView(m: seq<real>, n: nat, v: View, size: nat, i: nat)
    requires 2 <= size && i < size
    requires forall r: nat :: r < size ==> ViewAt(m, n, v, r, 0) == 0.0
    ensures Expansion(m, n, v, size, i) == 0.0
    decreases size, 0, i
  {
    if i == 0 {
      assert ViewAt(m, n, v, 0, 0) == 0.0;
    } else {
      ExpansionOfZeroColumnView(m, n, v, size, i - 1);
      var w := Minor(v, i);
      forall r: nat | r < size - 1
        ensures ViewAt(m, n, w, r, 0) == 0.0
      {
        assert ViewAt(m, n, w, r, 0) == ViewAt(m, n, v, r + 1, 0);
      }
      DetOfZeroColumnView(m, n, w, size - 1);
    }
  }

  lemma {:induction false} DetOfUpperView(m: seq<real>, n: nat, v: View, size: nat)
    requires IsUpperView(m, n, v, size)
    ensures DetOfView(m, n, v, size) == DiagonalOfView(m, n, v, size)
    decreases size, 1
  {
    if size >= 2 {
      ExpansionOfUpperView(m, n, v, size, size - 1);
    }
  }

  lemma {:induction false} ExpansionOfUpperView(m: seq<real>, n: nat, v: View, size: nat, i: nat)
    requires i < size && IsUpperView(m, n, v, size)
    ensures Expansion(m, n, v, size, i) == DiagonalOfView(m, n, v, size)
    decreases size, 0, i
  {
    if i == 0 {
      var w := Minor(v, 0);
      forall r: nat, c: nat | c < r < size - 1
        ensures ViewAt(m, n, w, r, c) == 0.0
      {
        assert ViewAt(m, n, w, r, c) == ViewAt(m, n, v, r + 1, c + 1);
      }
      DetOfUpperView(m, n, w, size - 1);
    } else {
      ExpansionOfUpperView(m, n, v, size, i - 1);
      var w := Minor(v, i);
      forall r: nat | r < size - 1
        ensures ViewAt(m, n, w, r, 0) == 0.0
      {
        assert ViewAt(m, n, w, r, 0) == ViewAt(m, n, v, r + 1, 0);
      }
      DetOfZeroColumnView(m, n, w, size - 1);
    }
  }

  /** The determinant of a triangular matrix is the product of its
      diagonal. */
  lemma DetOfTriangular(m: seq<real>, n: nat)
    requires n >= 1 && (IsLower(m, n, n) || IsUpper(m, n, n))
    ensures Det(m, n) == Diagonal(m, n, 0)
  {
    DiagonalOfShifted(m, n, 0);
    if IsLower(m, n, n) {
      ExpansionOfLowerView(m, n, Base, n, n - 1);
    } else {
      ExpansionOfUpperView(m, n, Base, n, n - 1);
    }
  }

  // ---------------------------------------------------------------------
  // Singularity
  // ---------------------------------------------------------------------

  /** isSingular as written: det() <= tolerance, a signed comparison, so
      every matrix whose determinant is not positive counts as singular at
      any tolerance >= 0, however far that determinant is from 0. */
  function IsSingularAsWritten(m: seq<real>, n: nat, tolerance: real): (b: bool)
    requires n >= 1
    ensures tolerance >= 0.0 && Det(m, n) <= 0.0 ==> b
  {
    Det(m, n) <= tolerance
  }

  /** The evidently intended test: abs(det()) <= tolerance.  It bounds the
      determinant on both sides and is stricter than the signed test. */
  function IsSingular(m: seq<real>, n: nat, tolerance: real): (b: bool)
    requires n >= 1
    ensures b <==> -tolerance <= Det(m, n) <= tolerance
    ensures b ==> IsSingularAsWritten(m, n, tolerance)
  {
    Abs(Det(m, n)) <= tolerance
  }

  /** The corrected test on a triangular matrix compares the absolute
      product of the diagonal with the tolerance, whatever its sign; in
      particular the identity is non-singular for every tolerance < 1. */
  lemma IsSingularOfTriangular(m: seq<real>, n: nat, tolerance: real)
    requires n >= 1 && (IsLower(m, n, n) || IsUpper(m, n, n))
    ensures IsSingular(m, n, tolerance) <==> Abs(Diagonal(m, n, 0)) <= tolerance
    ensures IsSingularAsWritten(m, n, tolerance) <==> Diagonal(m, n, 0) <= tolerance
  {
    DetOfTriangular(m, n);
  }

  /** The row swap [[0, 1], [1, 0]] is its own inverse, yet its determinant
      -1 makes isSingular as written report it singular for every
      tolerance >= -1; the corrected test does not for any tolerance < 1. */
  lemma SwapIsSingularAsWritten(tolerance: real)
    ensures Det([0.0, 1.0, 1.0, 0.0], 2) == -1.0
    ensures MatMul([0.0, 1.0, 1.0, 0.0], [0.0, 1.0, 1.0, 0.0], 2, 2, 2) == Identity(2, 2)
    ensures tolerance >= -1.0 ==> IsSingularAsWritten([0.0, 1.0, 1.0, 0.0], 2, tolerance)
    ensures tolerance < 1.0 ==> !IsSingular([0.0, 1.0, 1.0, 0.0], 2, tolerance)
  {
    var s := [0.0, 1.0, 1.0, 0.0];
    DetOfTwo(s);
    forall r: nat, c: nat | r < 2 && c < 2
      ensures At(MatMul(s, s, 2, 2, 2), 2, r, c) == At(Identity(2, 2), 2, r, c)
    {
      AtMatMul(s, s, 2, 2, 2, r, c);
      AtIdentity(2, 2, r, c);
    }
    SameMatrix(MatMul(s, s, 2, 2, 2), Identity(2, 2), 2, 2);
  }
}
