/** LU decomposition with partial pivoting: LUSubDecomposition's
    decompose(u, l, p) and the public decompose(matrix, l, u, p). */
module LUPivoting {
  import opened MathUtil
  import opened MatrixAlgebra
  import opened LUDecomposition

  // ---------------------------------------------------------------------
  // Choosing the pivot row
  // ---------------------------------------------------------------------

  /** The scan of step k from row j on, best being the row with the largest
      |u(., k)| met so far: a later row replaces it only when strictly
      larger. */
  function PivotScan(u: seq<real>, n: nat, k: nat, j: nat, best: nat): nat
    decreases n - j
  {
    if j >= n then best
    else PivotScan(u, n, k, j + 1, if Abs(At(u, n, j, k)) > Abs(At(u, n, best, k)) then j else best)
  }

  /** maxRow of step k: the scan starts from the pivot row itself. */
  function PivotRow(u: seq<real>, n: nat, k: nat): nat
  {
    PivotScan(u, n, k, k + 1, k)
  }

  /** best is the first of rows k .. j-1 whose |u(., k)| is largest. */
  ghost predicate FirstMaximum(u: seq<real>, n: nat, k: nat, j: nat, best: nat)
  {
    && k <= best < j
    && (forall i: nat :: k <= i < j ==> Abs(At(u, n, i, k)) <= Abs(At(u, n, best, k)))
    && (forall i: nat :: k <= i < best ==> Abs(At(u, n, i, k)) < Abs(At(u, n, best, k)))
  }

  lemma {:induction false} PivotScanIsFirstMaximum(u: seq<real>, n: nat, k: nat, j: nat, best: nat)
    requires FirstMaximum(u, n, k, j, best) && j <= n
    ensures FirstMaximum(u, n, k, n, PivotScan(u, n, k, j, best))
    decreases n - j
  {
    if j < n {
      var next := if Abs(At(u, n, j, k)) > Abs(At(u, n, best, k)) then j else best;
      assert FirstMaximum(u, n, k, j + 1, next);
      PivotScanIsFirstMaximum(u, n, k, j + 1, next);
    }
  }

  /** The pivot row is the first row at or below k of largest |u(., k)|. */
  lemma PivotRowIsFirstMaximum(u: seq<real>, n: nat, k: nat)
    requires k < n
    ensures FirstMaximum(u, n, k, n, PivotRow(u, n, k))
  {
    PivotScanIsFirstMaximum(u, n, k, k + 1, k);
  }

  /** Only one row is the first of largest magnitude, so the two
      descriptions of the pivot row agree in both directions. */
  lemma PivotRowCharacterized(u: seq<real>, n: nat, k: nat, r: nat)
    requires k < n
    ensures PivotRow(u, n, k) == r <==> FirstMaximum(u, n, k, n, r)
  {
    PivotRowIsFirstMaximum(u, n, k);
  }

  // ---------------------------------------------------------------------
  // The exchange of the pivot row with row k
  // ---------------------------------------------------------------------

  lemma RowEnd(r: nat, n: nat)
    requires r < n
    ensures RowStart(r, n) + n <= n * n
  {
    RowStartBound(r, n - 1, n, n);
  }

  /** The n x n matrix m with columns lo .. hi-1 of rows r1 and r2
      exchanged, as RowOperation<hi - lo>::swap does on their runs. */
  function SwapRows(m: seq<real>, n: nat, r1: nat, r2: nat, lo: nat, hi: nat): (t: seq<real>)
    requires |m| == n * n && r1 < n && r2 < n && lo <= hi <= n
    ensures |t| == n * n
  {
    RowEnd(r1, n);
    RowEnd(r2, n);
    Swapped(m, RowStart(r1, n) + lo, RowStart(r2, n) + lo, hi - lo)
  }

  lemma AtSwapRows(m: seq<real>, n: nat, r1: nat, r2: nat, lo: nat, hi: nat, r: nat, c: nat)
    requires |m| == n * n && r1 < n && r2 < n && r1 != r2 && lo <= hi <= n && r < n && c < n
    ensures At(SwapRows(m, n, r1, r2, lo, hi), n, r, c)
            == if lo <= c < hi && r == r1 then At(m, n, r2, c)
               else if lo <= c < hi && r == r2 then At(m, n, r1, c)
               else At(m, n, r, c)
  {
    RowEnd(r1, n);
    RowEnd(r2, n);
    var t := SwapRows(m, n, r1, r2, lo, hi);
    assert RowExchange(m, t, n, n, r1, r2, lo, hi, RowStart(r1, n) + lo, RowStart(r2, n) + lo);
    SwapEntry(m, t, n, n, r1, r2, lo, hi, RowStart(r1, n) + lo, RowStart(r2, n) + lo, r, c);
  }

  /** p after step k: entries k and the pivot row r exchanged, when they
      differ. */
  function PivotP(p: seq<int>, k: nat, r: nat): (q: seq<int>)
    requires k < |p| && r < |p|
    ensures |q| == |p|
  {
    if r == k then p else p[k := p[r]][r := p[k]]
  }

  /** u after the exchange of step k: columns k.. of the pivot row and of
      row k exchanged, when they differ. */
  function PivotU(u: seq<real>, n: nat, k: nat): (v: seq<real>)
    requires |u| == n * n && k < n
    ensures |v| == n * n
  {
    PivotRowIsFirstMaximum(u, n, k);
    var r := PivotRow(u, n, k);
    if r == k then u else SwapRows(u, n, r, k, k, n)
  }

  /** l after the exchange of step k: columns ..k-1 of the pivot row and of
      row k exchanged, when they differ. */
  function PivotL(u: seq<real>, l: seq<real>, n: nat, k: nat): (m: seq<real>)
    requires |u| == n * n && |l| == n * n && k < n
    ensures |m| == n * n
  {
    PivotRowIsFirstMaximum(u, n, k);
    var r := PivotRow(u, n, k);
    if r == k then l else SwapRows(l, n, r, k, 0, k)
  }

  /** After the exchange the pivot u(k, k) is the entry of largest
      magnitude in column k at or below row k; it is zero exactly when that
      whole part of the column is zero. */
  lemma PivotIsLargest(u: seq<real>, n: nat, k: nat)
    requires |u| == n * n && k < n
    ensures At(PivotU(u, n, k), n, k, k) == At(u, n, PivotRow(u, n, k), k)
    ensures forall j: nat :: k <= j < n ==> Abs(At(u, n, j, k)) <= Abs(At(PivotU(u, n, k), n, k, k))
    ensures At(PivotU(u, n, k), n, k, k) == 0.0 <==> forall j: nat :: k <= j < n ==> At(u, n, j, k) == 0.0
  {
    PivotRowIsFirstMaximum(u, n, k);
    var r := PivotRow(u, n, k);
    if r != k {
      AtSwapRows(u, n, r, k, k, n, k, k);
    }
    if At(PivotU(u, n, k), n, k, k) == 0.0 {
      forall j: nat | k <= j < n
        ensures At(u, n, j, k) == 0.0
      {
        assert Abs(At(u, n, j, k)) <= 0.0;
      }
    }
  }

  /** Every pivot met by the pivoted decomposition from step k on is
      nonzero. */
  predicate PivotedFactorable(u: seq<real>, n: nat, k: nat)
    requires |u| == n * n
    decreases n - k
  {
    k >= n || (At(PivotU(u, n, k), n, k, k) != 0.0 && PivotedFactorable(EliminateU(PivotU(u, n, k), n, k), n, k + 1))
  }

  // ---------------------------------------------------------------------
  // The permutation record and P*A
  // ---------------------------------------------------------------------

  /** p holds each of 0 .. n-1 exactly once. */
  predicate IsPermutation(p: seq<int>, n: nat)
  {
    && |p| == n
    && (forall i :: 0 <= i < n ==> 0 <= p[i] < n)
    && (forall i, j :: 0 <= i < j < n ==> p[i] != p[j])
  }

  /** The first loop of decompose(matrix, l, u, p): p[i] = i. */
  function IdentityPermutation(n: nat): (p: seq<int>)
    ensures IsPermutation(p, n)
  {
    seq(n, i requires 0 <= i < n => i)
  }

  lemma PivotPIsPermutation(p: seq<int>, n: nat, k: nat, r: nat)
    requires IsPermutation(p, n) && k < n && r < n
    ensures IsPermutation(PivotP(p, k, r), n)
  {
    var q := PivotP(p, k, r);
    forall i, j | 0 <= i < j < n
      ensures q[i] != q[j]
    {
      var i0 := if i == k then r else if i == r then k else i;
      var j0 := if j == k then r else if j == r then k else j;
      assert q[i] == p[i0] && q[j] == p[j0];
      assert i0 != j0;
      if i0 < j0 {
        assert p[i0] != p[j0];
      } else {
        assert p[j0] != p[i0];
      }
    }
  }

  /** Entry (r, c) of P*A: entry (p[r], c) of a. */
  function PermutedEntry(a: seq<real>, n: nat, p: seq<int>, r: nat, c: nat): real
  {
    if r < |p| && 0 <= p[r] then At(a, n, p[r], c) else 0.0
  }

  function PermutedAt(a: seq<real>, n: nat, p: seq<int>, i: nat): real
    requires i < n * n
  {
    IndexOf(i, n, n);
    PermutedEntry(a, n, p, i / n, i % n)
  }

  /** P*A: row i is row p[i] of a. */
  function PermuteRows(a: seq<real>, n: nat, p: seq<int>): seq<real>
  {
    seq(n * n, i requires 0 <= i < n * n => PermutedAt(a, n, p, i))
  }

  lemma AtPermuteRows(a: seq<real>, n: nat, p: seq<int>, r: nat, c: nat)
    requires r < n && c < n
    ensures At(PermuteRows(a, n, p), n, r, c) == PermutedEntry(a, n, p, r, c)
  {
    IndexBounds(r, c, n, n);
    IndexSplit(r, c, n);
    AtEntry(PermuteRows(a, n, p), n, n, r, c);
  }

  /** The identity permutation leaves the rows where they are. */
  lemma PermuteByIdentity(a: seq<real>, n: nat)
    requires |a| == n * n
    ensures PermuteRows(a, n, IdentityPermutation(n)) == a
  {
    forall r: nat, c: nat | r < n && c < n
      ensures At(PermuteRows(a, n, IdentityPermutation(n)), n, r, c) == At(a, n, r, c)
    {
      AtPermuteRows(a, n, IdentityPermutation(n), r, c);
    }
    SameMatrix(PermuteRows(a, n, IdentityPermutation(n)), a, n, n);
  }

  /** The permutation matrix of p: 1 at (i, p[i]), 0 elsewhere. */
  function PermutationMatrixAt(p: seq<int>, n: nat, i: nat): real
    requires i < n * n
  {
    IndexOf(i, n, n);
    if i / n < |p| && p[i / n] == i % n then 1.0 else 0.0
  }

  function PermutationMatrix(p: seq<int>, n: nat): seq<real>
  {
    seq(n * n, i requires 0 <= i < n * n => PermutationMatrixAt(p, n, i))
  }

  lemma AtPermutationMatrix(p: seq<int>, n: nat, r: nat, c: nat)
    requires r < n && c < n
    ensures At(PermutationMatrix(p, n), n, r, c) == if r < |p| && p[r] == c then 1.0 else 0.0
  {
    IndexBounds(r, c, n, n);
    IndexSplit(r, c, n);
    AtEntry(PermutationMatrix(p, n), n, n, r, c);
  }

  /** A partial sum of a row of the permutation matrix times a column of
      a picks out the term at p[r], if it is in range. */
  lemma {:induction false} PermutationRange(p: seq<int>, a: seq<real>, n: nat, r: nat, c: nat, hi: nat)
    requires IsPermutation(p, n) && r < n && c < n && hi <= n
    ensures RowColRange(PermutationMatrix(p, n), a, n, n, r, c, 0, hi) == if p[r] < hi then At(a, n, p[r], c) else 0.0
  {
    if hi > 0 {
      PermutationRange(p, a, n, r, c, hi - 1);
      AtPermutationMatrix(p, n, r, hi - 1);
    }
  }

  /** PermuteRows is the product with the permutation matrix, the P*A of
      the header comment. */
  lemma PermuteRowsIsProduct(p: seq<int>, a: seq<real>, n: nat)
    requires IsPermutation(p, n)
    ensures PermuteRows(a, n, p) == MatMul(PermutationMatrix(p, n), a, n, n, n)
  {
    forall r: nat, c: nat | r < n && c < n
      ensures At(PermuteRows(a, n, p), n, r, c) == At(MatMul(PermutationMatrix(p, n), a, n, n, n), n, r, c)
    {
      AtPermuteRows(a, n, p, r, c);
      AtMatMul(PermutationMatrix(p, n), a, n, n, n, r, c);
      PermutationRange(p, a, n, r, c, n);
    }
    SameMatrix(PermuteRows(a, n, p), MatMul(PermutationMatrix(p, n), a, n, n, n), n, n);
  }

  // ---------------------------------------------------------------------
  // The invariant across the exchange
  // ---------------------------------------------------------------------

  /** The row that row i comes from when rows k and r are exchanged. */
  function Partner(i: nat, k: nat, r: nat): nat
  {
    if i == r then k else if i == k then r else i
  }

  /** The entries of the state after the exchange of rows k and r in step
      k: a2 is a with the rows exchanged, l2 is l with them exchanged in
      columns ..k-1 and u2 is u with them exchanged in columns k.. */
  ghost predicate Exchanged(a: seq<real>, l: seq<real>, u: seq<real>,
                            a2: seq<real>, l2: seq<real>, u2: seq<real>, n: nat, k: nat, r: nat)
  {
    && k < r < n && |a| == n * n && |l| == n * n && |u| == n * n && |a2| == n * n && |l2| == n * n && |u2| == n * n
    && (forall i: nat, c: nat :: i < n && c < n ==>
          At(l2, n, i, c) == if c < k then At(l, n, Partner(i, k, r), c) else At(l, n, i, c))
    && (forall i: nat, c: nat :: i < n && c < n ==>
          At(u2, n, i, c) == if k <= c then At(u, n, Partner(i, k, r), c) else At(u, n, i, c))
    && (forall i: nat, c: nat :: i < n && c < n ==> At(a2, n, i, c) == At(a, n, Partner(i, k, r), c))
  }

  lemma ExchangedPermuted(a: seq<real>, p: seq<int>, n: nat, k: nat, r: nat, i: nat, c: nat)
    requires IsPermutation(p, n) && k < r < n && i < n && c < n
    ensures At(PermuteRows(a, n, PivotP(p, k, r)), n, i, c) == At(PermuteRows(a, n, p), n, Partner(i, k, r), c)
  {
    AtPermuteRows(a, n, PivotP(p, k, r), i, c);
    AtPermuteRows(a, n, p, Partner(i, k, r), c);
    assert PivotP(p, k, r)[i] == p[Partner(i, k, r)];
  }

  lemma ExchangedEntries(a: seq<real>, l: seq<real>, u: seq<real>, p: seq<int>, n: nat, k: nat, r: nat)
    requires IsPermutation(p, n) && k < r < n && |a| == n * n && |l| == n * n && |u| == n * n
    ensures Exchanged(PermuteRows(a, n, p), l, u, PermuteRows(a, n, PivotP(p, k, r)),
                      SwapRows(l, n, r, k, 0, k), SwapRows(u, n, r, k, k, n), n, k, r)
  {
    var l2, u2 := SwapRows(l, n, r, k, 0, k), SwapRows(u, n, r, k, k, n);
    var a1, a2 := PermuteRows(a, n, p), PermuteRows(a, n, PivotP(p, k, r));
    forall i: nat, c: nat | i < n && c < n
      ensures At(l2, n, i, c) == if c < k then At(l, n, Partner(i, k, r), c) else At(l, n, i, c)
    {
      AtSwapRows(l, n, r, k, 0, k, i, c);
    }
    forall i: nat, c: nat | i < n && c < n
      ensures At(u2, n, i, c) == if k <= c then At(u, n, Partner(i, k, r), c) else At(u, n, i, c)
    {
      AtSwapRows(u, n, r, k, k, n, i, c);
    }
    forall i: nat, c: nat | i < n && c < n
      ensures At(a2, n, i, c) == At(a1, n, Partner(i, k, r), c)
    {
      ExchangedPermuted(a, p, n, k, r, i, c);
    }
  }

  /** The exchanged product invariant for one entry. */
  lemma ExchangedProduct(a: seq<real>, l: seq<real>, u: seq<real>,
                         a2: seq<real>, l2: seq<real>, u2: seq<real>, n: nat, k: nat, r: nat, i: nat, c: nat)
    requires Exchanged(a, l, u, a2, l2, u2, n, k, r) && Factored(a, l, u, n, k) && i < n && c < n
    ensures RowColRange(l2, u2, n, n, i, c, 0, k) + (if i >= k then At(u2, n, i, c) else 0.0) == At(a2, n, i, c)
  {
    var i0 := Partner(i, k, r);
    forall t: nat | t < k
      ensures At(l, n, i0, t) == At(l2, n, i, t) && At(u, n, t, c) == At(u2, n, t, c)
    {
      assert At(l2, n, i, t) == At(l, n, i0, t);
      assert At(u2, n, t, c) == At(u, n, t, c);
    }
    RowColRangeFrame(l, u, l2, u2, n, n, i0, i, c, 0, k);
    assert At(u2, n, i, c) == (if k <= c then At(u, n, i0, c) else At(u, n, i, c));
    assert At(a2, n, i, c) == At(a, n, i0, c);
    assert RowColRange(l, u, n, n, i0, c, 0, k) + (if i0 >= k then At(u, n, i0, c) else 0.0) == At(a, n, i0, c);
  }

  /** Exchanging rows k and r > k of P*A, of l in columns ..k-1 and of u in
      columns k.. keeps the invariant of k finished steps. */
  lemma FactoredExchange(a: seq<real>, l: seq<real>, u: seq<real>,
                         a2: seq<real>, l2: seq<real>, u2: seq<real>, n: nat, k: nat, r: nat)
    requires Exchanged(a, l, u, a2, l2, u2, n, k, r) && Factored(a, l, u, n, k)
    ensures Factored(a2, l2, u2, n, k)
  {
    forall i: nat, c: nat | i < n && c < n
      ensures RowColRange(l2, u2, n, n, i, c, 0, k) + (if i >= k then At(u2, n, i, c) else 0.0) == At(a2, n, i, c)
    {
      ExchangedProduct(a, l, u, a2, l2, u2, n, k, r, i, c);
    }
    forall i: nat, c: nat | i < n && k <= c < n
      ensures At(l2, n, i, c) == if i == c then 1.0 else 0.0
    {
      assert At(l2, n, i, c) == At(l, n, i, c);
    }
    forall i: nat, c: nat | i < c < k
      ensures At(l2, n, i, c) == 0.0
    {
      assert At(l2, n, i, c) == At(l, n, i, c);
    }
    forall c: nat | c < k
      ensures At(l2, n, c, c) != 0.0
    {
      assert At(l2, n, c, c) == At(l, n, c, c);
    }
    forall i: nat | i < k
      ensures At(u2, n, i, i) == 1.0
    {
      assert At(u2, n, i, i) == At(u, n, i, i);
    }
    forall i: nat, c: nat | c < i < n && c < k
      ensures At(u2, n, i, c) == 0.0
    {
      assert At(u2, n, i, c) == At(u, n, i, c);
    }
  }

  /** The pivots recorded in l so far dominate the entries below them:
      |l(j, c)| <= |l(c, c)| for every finished column c. */
  ghost predicate PivotsDominate(l: seq<real>, n: nat, k: nat)
  {
    forall c: nat, j: nat :: c < k && c < j < n ==> Abs(At(l, n, j, c)) <= Abs(At(l, n, c, c))
  }

  lemma ExchangeKeepsDominance(a: seq<real>, l: seq<real>, u: seq<real>,
                               a2: seq<real>, l2: seq<real>, u2: seq<real>, n: nat, k: nat, r: nat)
    requires Exchanged(a, l, u, a2, l2, u2, n, k, r) && PivotsDominate(l, n, k)
    ensures PivotsDominate(l2, n, k)
  {
    forall c: nat, j: nat | c < k && c < j < n
      ensures Abs(At(l2, n, j, c)) <= Abs(At(l, n, c, c)) && At(l2, n, c, c) == At(l, n, c, c)
    {
      var j0 := Partner(j, k, r);
      assert At(l2, n, j, c) == At(l, n, j0, c);
      assert At(l2, n, c, c) == At(l, n, c, c);
    }
  }

  /** Step k records column k of the exchanged u, whose pivot is largest. */
  lemma StepKeepsDominance(u: seq<real>, l: seq<real>, n: nat, k: nat)
    requires |u| == n * n && |l| == n * n && k < n && PivotsDominate(PivotL(u, l, n, k), n, k)
    requires At(PivotU(u, n, k), n, k, k) != 0.0
    ensures PivotsDominate(EliminateL(PivotU(u, n, k), PivotL(u, l, n, k), n, k), n, k + 1)
  {
    var v, m := PivotU(u, n, k), PivotL(u, l, n, k);
    var m2 := EliminateL(v, m, n, k);
    PivotIsLargest(u, n, k);
    PivotRowIsFirstMaximum(u, n, k);
    var r := PivotRow(u, n, k);
    forall c: nat, j: nat | c < k + 1 && c < j < n
      ensures Abs(At(m2, n, j, c)) <= Abs(At(m2, n, c, c))
    {
      AtEliminate(v, m, n, k, j, c);
      AtEliminate(v, m, n, k, c, c);
      if c == k {
        if r != k {
          AtSwapRows(u, n, r, k, k, n, j, k);
        }
        var j0 := if j == r then k else j;
        assert At(v, n, j, k) == At(u, n, j0, k);
      }
    }
  }

  // ---------------------------------------------------------------------
  // One pivoted step and the pivoted decomposition
  // ---------------------------------------------------------------------

  /** The invariant of k finished pivoted steps. */
  ghost predicate PivotedFactored(a: seq<real>, l: seq<real>, u: seq<real>, p: seq<int>, n: nat, k: nat)
  {
    && IsPermutation(p, n) && |a| == n * n
    && Factored(PermuteRows(a, n, p), l, u, n, k)
    && PivotsDominate(l, n, k)
  }

  lemma PivotedStart(a: seq<real>, n: nat)
    requires |a| == n * n
    ensures PivotedFactored(a, Identity(n, n), a, IdentityPermutation(n), n, 0)
  {
    FactoredStart(a, n);
    PermuteByIdentity(a, n);
  }

  lemma PivotedFactoredStep(a: seq<real>, l: seq<real>, u: seq<real>, p: seq<int>, n: nat, k: nat)
    requires PivotedFactored(a, l, u, p, n, k) && k < n && At(PivotU(u, n, k), n, k, k) != 0.0
    ensures PivotRow(u, n, k) < n
    ensures PivotedFactored(a, EliminateL(PivotU(u, n, k), PivotL(u, l, n, k), n, k), EliminateU(PivotU(u, n, k), n, k),
                            PivotP(p, k, PivotRow(u, n, k)), n, k + 1)
  {
    PivotRowIsFirstMaximum(u, n, k);
    var r := PivotRow(u, n, k);
    var v, m, q := PivotU(u, n, k), PivotL(u, l, n, k), PivotP(p, k, r);
    PivotPIsPermutation(p, n, k, r);
    if r != k {
      ExchangedEntries(a, l, u, p, n, k, r);
      FactoredExchange(PermuteRows(a, n, p), l, u, PermuteRows(a, n, q), m, v, n, k, r);
      ExchangeKeepsDominance(PermuteRows(a, n, p), l, u, PermuteRows(a, n, q), m, v, n, k, r);
    }
    FactoredStep(PermuteRows(a, n, q), m, v, n, k);
    StepKeepsDominance(u, l, n, k);
  }

  /** The scan at the start of LUSubDecomposition<OFFSET = k>::decompose(u,
      l, p). */
  method FindPivot(u: array<real>, n: nat, k: nat) returns (maxRow: nat)
    requires u.Length == n * n && k < n
    ensures maxRow == PivotRow(u[..], n, k)
  {
    ghost var s := u[..];
    RowStartBound(k, k, n, n);
    var max := Abs(u[RowStart(k, n) + k]);
    maxRow := k;
    var j := k + 1;
    while j < n
      invariant k + 1 <= j <= n && k <= maxRow < j
      invariant max == Abs(At(s, n, maxRow, k))
      invariant PivotScan(s, n, k, j, maxRow) == PivotRow(s, n, k)
    {
      RowStartBound(j, k, n, n);
      var v := Abs(u[RowStart(j, n) + k]);
      if v > max {
        max := v;
        maxRow := j;
      }
      j := j + 1;
    }
  }

  /** LUSubDecomposition<OFFSET = k>::decompose(u, l, p): the pivot row is
      exchanged with row k (u in columns k.., l in columns ..k-1, and the
      entries of p), then the unpivoted step runs. */
  method PivotedDecomposeStep(u: array<real>, l: array<real>, p: array<int>, n: nat, k: nat) returns (ok: bool)
    requires u != l && u.Length == n * n && l.Length == n * n && p.Length == n && k < n
    requires At(PivotU(u[..], n, k), n, k, k) != 0.0
    modifies u, l, p
    ensures ok
    ensures PivotRow(old(u[..]), n, k) < n
    ensures p[..] == PivotP(old(p[..]), k, PivotRow(old(u[..]), n, k))
    ensures u[..] == EliminateU(PivotU(old(u[..]), n, k), n, k)
    ensures l[..] == EliminateL(PivotU(old(u[..]), n, k), PivotL(old(u[..]), old(l[..]), n, k), n, k)
  {
    ghost var u0, l0, p0 := u[..], l[..], p[..];
    var maxRow := FindPivot(u, n, k);
    PivotRowIsFirstMaximum(u0, n, k);
    if maxRow != k {
      var temp := p[k];
      p[k] := p[maxRow];
      p[maxRow] := temp;
      RowStartMono(k, maxRow, n);
      RowEnd(maxRow, n);
      Swap(u, RowStart(maxRow, n) + k, RowStart(k, n) + k, n - k);
      Swap(l, RowStart(maxRow, n), RowStart(k, n), k);
    }
    assert u[..] == PivotU(u0, n, k);
    assert l[..] == PivotL(u0, l0, n, k);
    ok := DecomposeStep(u, l, n, k);
  }

  /** LUSubDecomposition<OFFSET = k>::decomposeRecur(u, l, p): the pivoted
      steps k .. n-1, one per template instance, the instance with OFFSET
      equal to the height ending the recursion. */
  method DecomposeRecurPivoted(u: array<real>, l: array<real>, p: array<int>, n: nat, k: nat, ghost a: seq<real>)
    returns (ok: bool)
    requires u != l && u.Length == n * n && l.Length == n * n && p.Length == n && k <= n
    requires PivotedFactored(a, l[..], u[..], p[..], n, k) && PivotedFactorable(u[..], n, k)
    modifies u, l, p
    ensures ok
    ensures PivotedFactored(a, l[..], u[..], p[..], n, n)
    decreases n - k
  {
    if k == n {
      return true;
    }
    ghost var lk, uk, pk := l[..], u[..], p[..];
    ok := PivotedDecomposeStep(u, l, p, n, k);
    PivotedFactoredStep(a, lk, uk, pk, n, k);
    ok := DecomposeRecurPivoted(u, l, p, n, k + 1, a);
  }

  /** LUDecomposition::decompose(matrix, l, u, p): p starts as the identity
      permutation, u as a copy of the matrix and l as the identity, and the
      pivoted steps run for k = 0 .. n-1.  The result is l * u == P * matrix
      with p a permutation, l lower triangular with nonzero diagonal
      entries that dominate their columns, and u unit upper triangular. */
  method DecomposePivoted(a: array<real>, n: nat, l: array<real>, u: array<real>, p: array<int>) returns (ok: bool)
    requires a.Length == n * n && l.Length == n * n && u.Length == n * n && p.Length == n && l != u
    requires PivotedFactorable(a[..], n, 0)
    modifies l, u, p
    ensures ok
    ensures IsPermutation(p[..], n)
    ensures MatMul(l[..], u[..], n, n, n) == PermuteRows(old(a[..]), n, p[..])
    ensures MatMul(l[..], u[..], n, n, n) == MatMul(PermutationMatrix(p[..], n), old(a[..]), n, n, n)
    ensures IsLower(l[..], n, n) && IsUpper(u[..], n, n)
    ensures forall i: nat :: i < n ==> At(u[..], n, i, i) == 1.0 && At(l[..], n, i, i) != 0.0
    ensures forall c: nat, j: nat :: c < j < n ==> Abs(At(l[..], n, j, c)) <= Abs(At(l[..], n, c, c))
  {
    var a0 := a[..];
    var i := 0;
    while i < n
      invariant i <= n
      invariant p[..i] == IdentityPermutation(n)[..i]
    {
      p[i] := i;
      i := i + 1;
    }
    assert p[..] == p[..n];
    ghost var p0 := p[..];
    assert p0 == IdentityPermutation(n);
    forall i | 0 <= i < n * n {
      u[i] := a0[i];
    }
    forall i | 0 <= i < n * n {
      l[i] := if i / n == i % n then 1.0 else 0.0;
    }
    assert u[..] == a0;
    assert l[..] == Identity(n, n);
    assert p[..] == p0;
    PivotedStart(a0, n);
    ok := DecomposeRecurPivoted(u, l, p, n, 0, a0);
    FactoredComplete(PermuteRows(a0, n, p[..]), l[..], u[..], n);
    PermuteRowsIsProduct(p[..], a0, n);
    ok := true;
  }
}
