/** Solving L*U*X = B after a decomposition: LUSubDecomposition's
    solveLyEqualsB (forward substitution), solveUxEqualsY (back
    substitution) and solve, and LUDecomposition::solve.  B and X are
    n x w matrices sharing one flat array, bx. */
module LUSolve {
  import opened MathUtil
  import opened MatrixAlgebra
  import opened LUDecomposition

  // ---------------------------------------------------------------------
  // The parts of l and u that the substitutions read
  // ---------------------------------------------------------------------

  function LowerPartAt(l: seq<real>, n: nat, i: nat): real
    requires i < n * n
  {
    IndexOf(i, n, n);
    if i % n <= i / n then At(l, n, i / n, i % n) else 0.0
  }

  /** l on and below the diagonal, 0 above it: forward substitution never
      reads the entries above the diagonal. */
  function LowerPart(l: seq<real>, n: nat): seq<real>
  {
    seq(n * n, i requires 0 <= i < n * n => LowerPartAt(l, n, i))
  }

  function UnitUpperPartAt(u: seq<real>, n: nat, i: nat): real
    requires i < n * n
  {
    IndexOf(i, n, n);
    if i / n == i % n then 1.0 else if i / n < i % n then At(u, n, i / n, i % n) else 0.0
  }

  /** u above the diagonal, 1 on it and 0 below it: back substitution
      never reads the entries on or below the diagonal and never divides,
      so it treats the diagonal as all ones. */
  function UnitUpperPart(u: seq<real>, n: nat): seq<real>
  {
    seq(n * n, i requires 0 <= i < n * n => UnitUpperPartAt(u, n, i))
  }

  lemma AtLowerPart(l: seq<real>, n: nat, r: nat, c: nat)
    requires r < n && c < n
    ensures At(LowerPart(l, n), n, r, c) == if c <= r then At(l, n, r, c) else 0.0
  {
    IndexBounds(r, c, n, n);
    IndexSplit(r, c, n);
    AtEntry(LowerPart(l, n), n, n, r, c);
  }

  lemma AtUnitUpperPart(u: seq<real>, n: nat, r: nat, c: nat)
    requires r < n && c < n
    ensures At(UnitUpperPart(u, n), n, r, c) == if r == c then 1.0 else if r < c then At(u, n, r, c) else 0.0
  {
    IndexBounds(r, c, n, n);
    IndexSplit(r, c, n);
    AtEntry(UnitUpperPart(u, n), n, n, r, c);
  }

  /** For the factors decompose produces, the parts are the factors
      themselves. */
  lemma PartsOfFactors(l: seq<real>, u: seq<real>, n: nat)
    requires |l| == n * n && |u| == n * n && IsLower(l, n, n) && IsUpper(u, n, n)
    requires forall i: nat :: i < n ==> At(u, n, i, i) == 1.0
    ensures LowerPart(l, n) == l && UnitUpperPart(u, n) == u
  {
    forall r: nat, c: nat | r < n && c < n
      ensures At(LowerPart(l, n), n, r, c) == At(l, n, r, c)
      ensures At(UnitUpperPart(u, n), n, r, c) == At(u, n, r, c)
    {
      AtLowerPart(l, n, r, c);
      AtUnitUpperPart(u, n, r, c);
    }
    SameMatrix(LowerPart(l, n), l, n, n);
    SameMatrix(UnitUpperPart(u, n), u, n, n);
  }

  // ---------------------------------------------------------------------
  // Forward substitution: solveLyEqualsB
  // ---------------------------------------------------------------------

  /** After the steps for rows 0 .. k-1: the rows before k of x hold the
      solution so far, and the remaining rows hold b minus what those
      finished rows contribute through lw, the lower part of l. */
  ghost predicate ForwardSolved(lw: seq<real>, b: seq<real>, x: seq<real>, n: nat, w: nat, k: nat)
  {
    && |lw| == n * n && |b| == n * w && |x| == n * w && k <= n
    && forall r: nat, c: nat :: r < n && c < w ==>
         RowColRange(lw, x, n, w, r, c, 0, k) + (if r >= k then At(x, w, r, c) else 0.0) == At(b, w, r, c)
  }

  lemma ForwardStart(lw: seq<real>, b: seq<real>, n: nat, w: nat)
    requires |lw| == n * n && |b| == n * w
    ensures ForwardSolved(lw, b, b, n, w, 0)
  {
  }

  /** All n steps done: lw * x == b. */
  lemma ForwardComplete(lw: seq<real>, b: seq<real>, x: seq<real>, n: nat, w: nat)
    requires ForwardSolved(lw, b, x, n, w, n)
    ensures MatMul(lw, x, n, n, w) == b
  {
    forall r: nat, c: nat | r < n && c < w
      ensures At(MatMul(lw, x, n, n, w), w, r, c) == At(b, w, r, c)
    {
      AtMatMul(lw, x, n, n, w, r, c);
    }
    SameMatrix(MatMul(lw, x, n, n, w), b, n, w);
  }

  /** Entry (r, c) of bx after the lower rows of the step for row k, from
      x1, bx once row k is divided by l(k, k): row k times -l(r, k) is
      added to every lower row r. */
  function ForwardEntry(x1: seq<real>, l: seq<real>, n: nat, w: nat, k: nat, r: nat, c: nat): real
  {
    if r > k then At(x1, w, r, c) + At(x1, w, k, c) * -At(l, n, r, k) else At(x1, w, r, c)
  }

  /** bx part way through the step for row k: rows before j are done. */
  ghost predicate ForwardRows(x: seq<real>, x1: seq<real>, l: seq<real>, n: nat, w: nat, k: nat, j: nat)
  {
    && |x| == n * w
    && forall r: nat, c: nat {:trigger At(x, w, r, c)} :: r < n && c < w ==>
         At(x, w, r, c) == if r < j then ForwardEntry(x1, l, n, w, k, r, c) else At(x1, w, r, c)
  }

  /** One entry of the forward invariant across the step for row k, over
      the values involved: s0 and s1 are the finished sums before and after
      (s1 has the term of row k), lwrk and lrk are lw(r, k) and l(r, k), p
      the diagonal l(k, k), xk, x1k and x0k entry (k, c) at the end, after
      the division and at the start, xr, x1r and x0r the same for entry
      (r, c), and f is 1 / p. */
  lemma ForwardArith(s0: real, s1: real, lwrk: real, lrk: real, p: real, xk: real, x1k: real, x0k: real,
                     xr: real, x1r: real, x0r: real, f: real, r: nat, k: nat)
    requires p != 0.0 && f == 1.0 / p && s1 == s0 + lwrk * xk
    requires xk == x1k && x1k == x0k * f
    requires lwrk == if k <= r then lrk else 0.0
    requires r == k ==> lrk == p && x0r == x0k
    requires r > k ==> x1r == x0r && xr == x1r + x1k * -lrk
    ensures s1 + (if r >= k + 1 then xr else 0.0) == s0 + (if r >= k then x0r else 0.0)
  {
    if r == k {
      assert lwrk * xk == x0k;
    }
  }

  /** Entry (r, c) of the forward invariant across the step for row k: x1
      is x0 with row k divided by l(k, k), x is x1 after the lower rows. */
  lemma ForwardStepEntry(lw: seq<real>, l: seq<real>, x0: seq<real>, x1: seq<real>, x: seq<real>,
                         n: nat, w: nat, k: nat, r: nat, c: nat, f: real)
    requires k < n && r < n && At(l, n, k, k) != 0.0 && f == 1.0 / At(l, n, k, k)
    requires At(lw, n, r, k) == if k <= r then At(l, n, r, k) else 0.0
    requires RowColRange(lw, x0, n, w, r, c, 0, k) == RowColRange(lw, x, n, w, r, c, 0, k)
    requires At(x1, w, k, c) == At(x0, w, k, c) * f
    requires At(x, w, k, c) == At(x1, w, k, c)
    requires r != k ==> At(x1, w, r, c) == At(x0, w, r, c)
    requires At(x, w, r, c) == ForwardEntry(x1, l, n, w, k, r, c)
    ensures RowColRange(lw, x, n, w, r, c, 0, k + 1) + (if r >= k + 1 then At(x, w, r, c) else 0.0)
            == RowColRange(lw, x0, n, w, r, c, 0, k) + (if r >= k then At(x0, w, r, c) else 0.0)
  {
    RowColRangeLast(lw, x, n, w, r, c, k);
    ForwardArith(RowColRange(lw, x0, n, w, r, c, 0, k), RowColRange(lw, x, n, w, r, c, 0, k + 1),
                 At(lw, n, r, k), At(l, n, r, k), At(l, n, k, k), At(x, w, k, c), At(x1, w, k, c), At(x0, w, k, c),
                 At(x, w, r, c), At(x1, w, r, c), At(x0, w, r, c), f, r, k);
  }

  /** Column k of lw is column k of l on and below the diagonal, 0 above. */
  ghost predicate LowerColumn(lw: seq<real>, l: seq<real>, n: nat, k: nat)
  {
    forall r: nat :: r < n ==> At(lw, n, r, k) == if k <= r then At(l, n, r, k) else 0.0
  }

  lemma LowerPartColumn(l: seq<real>, n: nat, k: nat)
    requires k < n
    ensures LowerColumn(LowerPart(l, n), l, n, k)
  {
    forall r: nat | r < n
      ensures At(LowerPart(l, n), n, r, k) == if k <= r then At(l, n, r, k) else 0.0
    {
      AtLowerPart(l, n, r, k);
    }
  }

  /** The step for row k keeps the forward invariant, one row further: x1
      is x0 with row k divided by l(k, k), and x is x1 after the lower rows. */
  lemma ForwardStep(lw: seq<real>, l: seq<real>, b: seq<real>, x0: seq<real>, x1: seq<real>, x: seq<real>,
                    n: nat, w: nat, k: nat)
    requires k < n && At(l, n, k, k) != 0.0 && LowerColumn(lw, l, n, k)
    requires ForwardSolved(lw, b, x0, n, w, k)
    requires RowMultiplication(x0, x1, n, w, k, 0, w, RowStart(k, w), 1.0 / At(l, n, k, k))
    requires ForwardRows(x, x1, l, n, w, k, n)
    ensures ForwardSolved(lw, b, x, n, w, k + 1)
  {
    var f := 1.0 / At(l, n, k, k);
    forall r: nat, c: nat | r < n && c < w
      ensures RowColRange(lw, x, n, w, r, c, 0, k + 1) + (if r >= k + 1 then At(x, w, r, c) else 0.0) == At(b, w, r, c)
    {
      forall t: nat | t < k
        ensures At(lw, n, r, t) == At(lw, n, r, t) && At(x0, w, t, c) == At(x, w, t, c)
      {
        MultiplyEntry(x0, x1, n, w, k, 0, w, RowStart(k, w), f, t, c);
      }
      RowColRangeFrame(lw, x0, lw, x, n, w, r, r, c, 0, k);
      MultiplyEntry(x0, x1, n, w, k, 0, w, RowStart(k, w), f, k, c);
      MultiplyEntry(x0, x1, n, w, k, 0, w, RowStart(k, w), f, r, c);
      ForwardStepEntry(lw, l, x0, x1, x, n, w, k, r, c, f);
    }
  }

  /** Row j below k: the finished row k times -l(j, k) added to it. */
  lemma ForwardLowerRow(x1: seq<real>, xa: seq<real>, xb: seq<real>, l: seq<real>, n: nat, w: nat, k: nat, j: nat)
    requires |x1| == n * w && k < j < n
    requires ForwardRows(xa, x1, l, n, w, k, j)
    requires RowStart(j, w) + w <= n * w && RowStart(k, w) + w <= n * w
    requires xb == RowAdded(xa, RowStart(j, w), RowStart(k, w), w, -At(l, n, j, k))
    ensures ForwardRows(xb, x1, l, n, w, k, j + 1)
  {
    var f := -At(l, n, j, k);
    assert RowAddition(xa, xb, n, w, j, k, 0, w, RowStart(j, w), RowStart(k, w), f);
    forall r: nat, c: nat | r < n && c < w
      ensures At(xb, w, r, c) == if r < j + 1 then ForwardEntry(x1, l, n, w, k, r, c) else At(x1, w, r, c)
    {
      AddRowEntry(xa, xb, n, w, j, k, 0, w, RowStart(j, w), RowStart(k, w), f, r, c);
      assert At(xa, w, k, c) == At(x1, w, k, c);
    }
  }

  /** The loop of solveLyEqualsB: every row j below k gets row k times
      -l(j, k) added. */
  method SubtractBelow(l: seq<real>, bx: array<real>, n: nat, w: nat, k: nat, ghost x1: seq<real>)
    requires |l| == n * n && bx.Length == n * w && k < n && bx[..] == x1
    modifies bx
    ensures ForwardRows(bx[..], x1, l, n, w, k, n)
  {
    RowInside(k, n, w);
    var j := k + 1;
    while j < n
      invariant k + 1 <= j <= n
      invariant ForwardRows(bx[..], x1, l, n, w, k, j)
    {
      RowStartBound(j, k, n, n);
      var f := l[RowStart(j, n) + k];
      RowInside(j, n, w);
      RowStartMono(k, j, w);
      ghost var xa := bx[..];
      AddRowTimesFactor(bx, RowStart(j, w), RowStart(k, w), w, -f);
      ForwardLowerRow(x1, xa, bx[..], l, n, w, k, j);
      j := j + 1;
    }
  }

  /** LUSubDecomposition<OFFSET = k>::solveLyEqualsB(l, bx): row k of bx
      is multiplied by 1 / l(k, k); unless k is the last row, every lower
      row j then gets row k times -l(j, k) added, and the instance for
      k + 1 runs.  The instance with OFFSET equal to the height returns at
      once.  Each instance succeeds. */
  method SolveLower(l: seq<real>, bx: array<real>, n: nat, w: nat, k: nat, ghost b: seq<real>) returns (ok: bool)
    requires |l| == n * n && bx.Length == n * w && k <= n
    requires forall i: nat :: i < n ==> At(l, n, i, i) != 0.0
    requires ForwardSolved(LowerPart(l, n), b, bx[..], n, w, k)
    modifies bx
    ensures ok
    ensures ForwardSolved(LowerPart(l, n), b, bx[..], n, w, n)
    decreases n - k
  {
    if k == n {
      return true;
    }
    ghost var x0 := bx[..];
    RowStartBound(k, k, n, n);
    var factor := l[RowStart(k, n) + k];
    RowInside(k, n, w);
    Multiply(bx, RowStart(k, w), w, 1.0 / factor);
    ghost var x1 := bx[..];
    assert RowMultiplication(x0, x1, n, w, k, 0, w, RowStart(k, w), 1.0 / factor);
    LowerPartColumn(l, n, k);
    if k + 1 >= n {
      ForwardStep(LowerPart(l, n), l, b, x0, x1, x1, n, w, k);
      return true;
    }
    SubtractBelow(l, bx, n, w, k, x1);
    ForwardStep(LowerPart(l, n), l, b, x0, x1, bx[..], n, w, k);
    ok := SolveLower(l, bx, n, w, k + 1, b);
  }

  // ---------------------------------------------------------------------
  // Back substitution: solveUxEqualsY
  // ---------------------------------------------------------------------

  /** After the steps for rows n-1 down to m: the rows from m on hold the
      solution, and each earlier row holds y minus what those finished rows
      contribute through uw, the unit upper part of u. */
  ghost predicate BackSolved(uw: seq<real>, y: seq<real>, x: seq<real>, n: nat, w: nat, m: nat)
  {
    && |uw| == n * n && |y| == n * w && |x| == n * w && m <= n
    && forall r: nat, c: nat :: r < n && c < w ==>
         RowColRange(uw, x, n, w, r, c, m, n) + (if r < m then At(x, w, r, c) else 0.0) == At(y, w, r, c)
  }

  lemma BackStart(uw: seq<real>, y: seq<real>, n: nat, w: nat)
    requires |uw| == n * n && |y| == n * w
    ensures BackSolved(uw, y, y, n, w, n)
  {
  }

  /** All rows done: uw * x == y. */
  lemma BackComplete(uw: seq<real>, y: seq<real>, x: seq<real>, n: nat, w: nat)
    requires BackSolved(uw, y, x, n, w, 0)
    ensures MatMul(uw, x, n, n, w) == y
  {
    forall r: nat, c: nat | r < n && c < w
      ensures At(MatMul(uw, x, n, n, w), w, r, c) == At(y, w, r, c)
    {
      AtMatMul(uw, x, n, n, w, r, c);
    }
    SameMatrix(MatMul(uw, x, n, n, w), y, n, w);
  }

  /** Entry (r, c) of bx after the step for row m: row m times -u(r, m)
      added to every earlier row r. */
  function BackEntry(x: seq<real>, u: seq<real>, n: nat, w: nat, m: nat, r: nat, c: nat): real
  {
    if r < m then At(x, w, r, c) + At(x, w, m, c) * -At(u, n, r, m) else At(x, w, r, c)
  }

  /** bx part way through the step for row m: rows before j are done. */
  ghost predicate BackRows(x: seq<real>, x0: seq<real>, u: seq<real>, n: nat, w: nat, m: nat, j: nat)
  {
    && |x| == n * w
    && forall r: nat, c: nat {:trigger At(x, w, r, c)} :: r < n && c < w ==>
         At(x, w, r, c) == if r < j then BackEntry(x0, u, n, w, m, r, c) else At(x0, w, r, c)
  }

  /** One entry of the back invariant across the step for row m, over the
      values involved: s is the sum from m on, q is uw(r, m) and urm is
      u(r, m), xm and x0m entry (m, c) after and before, rest the sum after m, x0r and xr entry (r, c) before and
      after. */
  lemma BackArith(s: real, q: real, urm: real, xm: real, x0m: real, rest: real, x0r: real, xr: real, r: nat, m: nat)
    requires s == q * xm + rest && xm == x0m
    requires r < m ==> q == urm && xr == x0r + x0m * -urm
    requires r == m ==> q == 1.0 && x0r == x0m
    requires r > m ==> q == 0.0
    ensures s + (if r < m then xr else 0.0) == rest + (if r < m + 1 then x0r else 0.0)
  {
  }

  /** Entry (r, c) of the back invariant across the step for row m. */
  lemma BackStepEntry(uw: seq<real>, u: seq<real>, x0: seq<real>, x: seq<real>, n: nat, w: nat, m: nat, r: nat, c: nat)
    requires m < n && r < n
    requires At(uw, n, r, m) == if r == m then 1.0 else if r < m then At(u, n, r, m) else 0.0
    requires RowColRange(uw, x0, n, w, r, c, m + 1, n) == RowColRange(uw, x, n, w, r, c, m + 1, n)
    requires At(x, w, m, c) == At(x0, w, m, c)
    requires At(x, w, r, c) == BackEntry(x0, u, n, w, m, r, c)
    ensures RowColRange(uw, x, n, w, r, c, m, n) + (if r < m then At(x, w, r, c) else 0.0)
            == RowColRange(uw, x0, n, w, r, c, m + 1, n) + (if r < m + 1 then At(x0, w, r, c) else 0.0)
  {
    RowColRangeFirst(uw, x, n, w, r, c, m, n);
    BackArith(RowColRange(uw, x, n, w, r, c, m, n), At(uw, n, r, m), At(u, n, r, m), At(x, w, m, c), At(x0, w, m, c),
              RowColRange(uw, x, n, w, r, c, m + 1, n), At(x0, w, r, c), At(x, w, r, c), r, m);
  }

  /** The step for row m keeps the back invariant, one row earlier. */
  lemma BackStep(uw: seq<real>, u: seq<real>, y: seq<real>, x0: seq<real>, x: seq<real>, n: nat, w: nat, m: nat)
    requires |u| == n * n && uw == UnitUpperPart(u, n) && m < n
    requires BackSolved(uw, y, x0, n, w, m + 1) && BackRows(x, x0, u, n, w, m, m)
    ensures BackSolved(uw, y, x, n, w, m)
  {
    forall r: nat, c: nat | r < n && c < w
      ensures RowColRange(uw, x, n, w, r, c, m, n) + (if r < m then At(x, w, r, c) else 0.0) == At(y, w, r, c)
    {
      forall t: nat | m + 1 <= t < n
        ensures At(uw, n, r, t) == At(uw, n, r, t) && At(x0, w, t, c) == At(x, w, t, c)
      {
      }
      RowColRangeFrame(uw, x0, uw, x, n, w, r, r, c, m + 1, n);
      AtUnitUpperPart(u, n, r, m);
      BackStepEntry(uw, u, x0, x, n, w, m, r, c);
    }
  }

  /** Row j above m: row m times -u(j, m) added to it. */
  lemma BackUpperRow(x0: seq<real>, xa: seq<real>, xb: seq<real>, u: seq<real>, n: nat, w: nat, m: nat, j: nat)
    requires |x0| == n * w && j < m < n
    requires BackRows(xa, x0, u, n, w, m, j)
    requires RowStart(j, w) + w <= n * w && RowStart(m, w) + w <= n * w
    requires xb == RowAdded(xa, RowStart(j, w), RowStart(m, w), w, -At(u, n, j, m))
    ensures BackRows(xb, x0, u, n, w, m, j + 1)
  {
    var f := -At(u, n, j, m);
    assert RowAddition(xa, xb, n, w, j, m, 0, w, RowStart(j, w), RowStart(m, w), f);
    forall r: nat, c: nat | r < n && c < w
      ensures At(xb, w, r, c) == if r < j + 1 then BackEntry(x0, u, n, w, m, r, c) else At(x0, w, r, c)
    {
      AddRowEntry(xa, xb, n, w, j, m, 0, w, RowStart(j, w), RowStart(m, w), f, r, c);
      assert At(xa, w, m, c) == At(x0, w, m, c);
    }
  }

  /** LUSubDecomposition<OFFSET = k>::solveUxEqualsY(u, bx): unless k is
      the last row (or the height itself), the instance for k + 1 runs
      first, and then every row j <= k gets row k + 1 times -u(j, k + 1)
      added.  It starts from y, and leaves the rows from k + 1 on solved. */
  method SolveUpper(u: seq<real>, bx: array<real>, n: nat, w: nat, k: nat, ghost y: seq<real>) returns (ok: bool)
    requires |u| == n * n && bx.Length == n * w && bx[..] == y
    modifies bx
    ensures ok
    ensures BackSolved(UnitUpperPart(u, n), y, bx[..], n, w, if k + 1 < n then k + 1 else n)
    decreases n - k
  {
    if k + 1 >= n {
      BackStart(UnitUpperPart(u, n), y, n, w);
      return true;
    }
    ok := SolveUpper(u, bx, n, w, k + 1, y);
    ghost var x0 := bx[..];
    var m := k + 1;
    RowInside(m, n, w);
    var j := 0;
    while j < k + 1
      invariant j <= k + 1
      invariant BackRows(bx[..], x0, u, n, w, m, j)
    {
      RowStartBound(j, m, n, n);
      var f := u[RowStart(j, n) + m];
      RowInside(j, n, w);
      RowStartMono(j, m, w);
      ghost var xa := bx[..];
      AddRowTimesFactor(bx, RowStart(j, w), RowStart(m, w), w, -f);
      BackUpperRow(x0, xa, bx[..], u, n, w, m, j);
      j := j + 1;
    }
    BackStep(UnitUpperPart(u, n), u, y, x0, bx[..], n, w, m);
  }

  /** The last back-substitution row, row 0, has no row above it. */
  lemma BackFirstRow(uw: seq<real>, u: seq<real>, y: seq<real>, x: seq<real>, n: nat, w: nat)
    requires |u| == n * n && uw == UnitUpperPart(u, n) && 0 < n
    requires BackSolved(uw, y, x, n, w, 1)
    ensures BackSolved(uw, y, x, n, w, 0)
  {
    BackStep(uw, u, y, x, x, n, w, 0);
  }

  // ---------------------------------------------------------------------
  // The whole solve
  // ---------------------------------------------------------------------

  /** LUDecomposition::solve(l, u, xb): forward substitution turns b into y
      with lower(l) * y == b, then back substitution turns y into x with
      unitUpper(u) * x == y, so lower(l) * unitUpper(u) * x == b.  l and u
      are passed by value, as the copies the source works on. */
  method Solve(l: seq<real>, u: seq<real>, bx: array<real>, n: nat, w: nat) returns (ok: bool)
    requires |l| == n * n && |u| == n * n && bx.Length == n * w
    requires forall i: nat :: i < n ==> At(l, n, i, i) != 0.0
    modifies bx
    ensures ok
    ensures MatMul(LowerPart(l, n), MatMul(UnitUpperPart(u, n), bx[..], n, n, w), n, n, w) == old(bx[..])
  {
    ghost var b := bx[..];
    ForwardStart(LowerPart(l, n), b, n, w);
    ok := SolveLower(l, bx, n, w, 0, b);
    ghost var y := bx[..];
    ForwardComplete(LowerPart(l, n), b, y, n, w);
    ok := SolveUpper(u, bx, n, w, 0, y);
    if n > 0 {
      BackFirstRow(UnitUpperPart(u, n), u, y, bx[..], n, w);
    }
    BackComplete(UnitUpperPart(u, n), y, bx[..], n, w);
    ok := true;
  }

  /** Solving with the factors of A = L*U solves A*X = B. */
  lemma SolveWithFactors(a: seq<real>, l: seq<real>, u: seq<real>, x: seq<real>, b: seq<real>, n: nat, w: nat)
    requires |l| == n * n && |u| == n * n && IsLower(l, n, n) && IsUpper(u, n, n)
    requires forall i: nat :: i < n ==> At(u, n, i, i) == 1.0
    requires MatMul(l, u, n, n, n) == a
    requires MatMul(LowerPart(l, n), MatMul(UnitUpperPart(u, n), x, n, n, w), n, n, w) == b
    ensures MatMul(a, x, n, n, w) == b
  {
    PartsOfFactors(l, u, n);
    MatMulAssociative(l, u, x, n, n, n, w);
  }
}
