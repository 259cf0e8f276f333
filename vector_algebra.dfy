/** Fixed-dimension vectors as values: the element-wise and scalar operations,
    the dot product, the orthogonal-vector construction, the component-wise
    orderings and the relative equality of geometry/Vector.h. The template
    parameter DIM is the length of the sequence. The Vector class and the
    geometry modules are specified in terms of these functions. */
module VectorAlgebra {
  import opened MathUtil

  type Vec = seq<real>

  // ---------------------------------------------------------------------
  // Element-wise and scalar arithmetic
  // ---------------------------------------------------------------------

  function Fill(n: nat, x: real): Vec
  {
    seq(n, _ => x)
  }

  /** A vector is Fill(|v|, x) exactly when every component is x. */
  lemma FillMeaning(v: Vec, x: real)
    ensures v == Fill(|v|, x) <==> forall i :: 0 <= i < |v| ==> v[i] == x
  {
  }

  function Neg(a: Vec): Vec
  {
    seq(|a|, i requires 0 <= i < |a| => -a[i])
  }

  function Add(a: Vec, b: Vec): Vec
    requires |a| == |b|
  {
    seq(|a|, i requires 0 <= i < |a| => a[i] + b[i])
  }

  function Sub(a: Vec, b: Vec): Vec
    requires |a| == |b|
  {
    seq(|a|, i requires 0 <= i < |a| => a[i] - b[i])
  }

  function Mul(a: Vec, b: Vec): Vec
    requires |a| == |b|
  {
    seq(|a|, i requires 0 <= i < |a| => a[i] * b[i])
  }

  predicate NoZeroComponent(b: Vec)
  {
    forall i :: 0 <= i < |b| ==> b[i] != 0.0
  }

  /** Element-wise division; a zero divisor (an IEEE infinity or NaN) is
      outside the model. */
  function Div(a: Vec, b: Vec): Vec
    requires |a| == |b| && NoZeroComponent(b)
  {
    seq(|a|, i requires 0 <= i < |a| => a[i] / b[i])
  }

  function AddScalar(a: Vec, s: real): Vec
  {
    seq(|a|, i requires 0 <= i < |a| => a[i] + s)
  }

  function SubScalar(a: Vec, s: real): Vec
  {
    seq(|a|, i requires 0 <= i < |a| => a[i] - s)
  }

  function Scale(a: Vec, s: real): Vec
  {
    seq(|a|, i requires 0 <= i < |a| => a[i] * s)
  }

  function DivScalar(a: Vec, s: real): Vec
    requires s != 0.0
  {
    seq(|a|, i requires 0 <= i < |a| => a[i] / s)
  }

  predicate IsZero(a: Vec)
  {
    forall i :: 0 <= i < |a| ==> a[i] == 0.0
  }

  /** operator+(Vec) accumulates into its argument (b[i] += a[i]); the
      order of the operands does not matter. */
  lemma AddCommutes(a: Vec, b: Vec)
    requires |a| == |b|
    ensures Add(a, b) == Add(b, a)
  {
  }

  lemma SubUndoesAdd(a: Vec, b: Vec)
    requires |a| == |b|
    ensures Sub(Add(a, b), b) == a
  {
  }

  lemma NegIsScaleByMinusOne(a: Vec)
    ensures Neg(a) == Scale(a, -1.0)
    ensures Neg(Neg(a)) == a
  {
  }

  lemma DivUndoesMul(a: Vec, b: Vec)
    requires |a| == |b| && NoZeroComponent(b)
    ensures Div(Mul(a, b), b) == a
  {
    forall i | 0 <= i < |a|
      ensures Div(Mul(a, b), b)[i] == a[i]
    {
      CancelFactor(a[i], b[i]);
    }
  }

  lemma CancelFactor(x: real, y: real)
    requires y != 0.0
    ensures (x * y) / y == x
  {
  }

  lemma ScalarOperationsUndo(a: Vec, s: real)
    ensures SubScalar(AddScalar(a, s), s) == a
    ensures s != 0.0 ==> DivScalar(Scale(a, s), s) == a
  {
    if s != 0.0 {
      forall i | 0 <= i < |a|
        ensures DivScalar(Scale(a, s), s)[i] == a[i]
      {
        CancelFactor(a[i], s);
      }
    }
  }

  // ---------------------------------------------------------------------
  // Dot product
  // ---------------------------------------------------------------------

  /** The running value of dot's accumulator after the first k terms. */
  function DotPrefix(a: Vec, b: Vec, k: nat): real
    requires |a| == |b| && k <= |a|
  {
    if k == 0 then 0.0 else DotPrefix(a, b, k - 1) + a[k - 1] * b[k - 1]
  }

  /** dot(v, w) = sum of v[i] * w[i], accumulated from index 0 upwards. */
  function Dot(a: Vec, b: Vec): real
    requires |a| == |b|
  {
    DotPrefix(a, b, |a|)
  }

  lemma {:induction false} DotPrefixSymmetric(a: Vec, b: Vec, k: nat)
    requires |a| == |b| && k <= |a|
    ensures DotPrefix(a, b, k) == DotPrefix(b, a, k)
  {
    if k > 0 {
      DotPrefixSymmetric(a, b, k - 1);
    }
  }

  lemma DotSymmetric(a: Vec, b: Vec)
    requires |a| == |b|
    ensures Dot(a, b) == Dot(b, a)
  {
    DotPrefixSymmetric(a, b, |a|);
  }

  /** The dot product is linear in its first argument. */
  lemma {:induction false} DotPrefixLinear(a: Vec, b: Vec, s: real, t: real, n: Vec, k: nat)
    requires |a| == |b| == |n| && k <= |a|
    ensures DotPrefix(Add(Scale(a, s), Scale(b, t)), n, k)
            == s * DotPrefix(a, n, k) + t * DotPrefix(b, n, k)
  {
    if k > 0 {
      DotPrefixLinear(a, b, s, t, n, k - 1);
      var c := Add(Scale(a, s), Scale(b, t));
      assert c[k - 1] * n[k - 1] == s * (a[k - 1] * n[k - 1]) + t * (b[k - 1] * n[k - 1]);
    }
  }

  lemma DotSub(a: Vec, b: Vec, n: Vec)
    requires |a| == |b| == |n|
    ensures Dot(Sub(a, b), n) == Dot(a, n) - Dot(b, n)
  {
    assert Sub(a, b) == Add(Scale(a, 1.0), Scale(b, -1.0));
    DotPrefixLinear(a, b, 1.0, -1.0, n, |a|);
  }

  lemma DotAdd(a: Vec, b: Vec, n: Vec)
    requires |a| == |b| == |n|
    ensures Dot(Add(a, b), n) == Dot(a, n) + Dot(b, n)
  {
    assert Add(a, b) == Add(Scale(a, 1.0), Scale(b, 1.0));
    DotPrefixLinear(a, b, 1.0, 1.0, n, |a|);
  }

  lemma DotScale(a: Vec, t: real, n: Vec)
    requires |a| == |n|
    ensures Dot(Scale(a, t), n) == t * Dot(a, n)
  {
    assert Scale(a, t) == Add(Scale(a, t), Scale(a, 0.0));
    DotPrefixLinear(a, a, t, 0.0, n, |a|);
  }

  /** The sum of squares accumulated by norm() is non-negative, and zero
      exactly for the zero vector. */
  lemma {:induction false} DotPrefixSelf(a: Vec, k: nat)
    requires k <= |a|
    ensures DotPrefix(a, a, k) >= 0.0
    ensures DotPrefix(a, a, k) == 0.0 <==> forall i :: 0 <= i < k ==> a[i] == 0.0
  {
    if k > 0 {
      DotPrefixSelf(a, k - 1);
      var x := a[k - 1];
      SquareNonNegative(x);
      assert DotPrefix(a, a, k) == DotPrefix(a, a, k - 1) + x * x;
      if DotPrefix(a, a, k) == 0.0 {
        SquareZero(x);
      }
    }
  }

  lemma SquareZero(x: real)
    requires x * x == 0.0
    ensures x == 0.0
  {
    if x != 0.0 {
      ZeroProduct(x, x);
    }
  }

  lemma DotSelf(a: Vec)
    ensures Dot(a, a) >= 0.0
    ensures Dot(a, a) == 0.0 <==> IsZero(a)
  {
    DotPrefixSelf(a, |a|);
  }

  // ---------------------------------------------------------------------
  // Orthogonal vectors
  // ---------------------------------------------------------------------

  /** orthogonal2d: (-v[1], v[0]). */
  function Orthogonal2d(v: Vec): Vec
    requires |v| == 2
  {
    [-v[1], v[0]]
  }

  lemma Dot2(a: Vec, b: Vec)
    requires |a| == |b| == 2
    ensures Dot(a, b) == a[0] * b[0] + a[1] * b[1]
  {
    assert DotPrefix(a, b, 1) == a[0] * b[0];
  }

  lemma Dot3(a: Vec, b: Vec)
    requires |a| == |b| == 3
    ensures Dot(a, b) == a[0] * b[0] + a[1] * b[1] + a[2] * b[2]
  {
    assert DotPrefix(a, b, 1) == a[0] * b[0];
    assert DotPrefix(a, b, 2) == a[0] * b[0] + a[1] * b[1];
  }

  lemma Orthogonal2dIsOrthogonal(v: Vec)
    requires |v| == 2
    ensures Dot(v, Orthogonal2d(v)) == 0.0
    ensures IsZero(Orthogonal2d(v)) <==> IsZero(v)
  {
    Dot2(v, Orthogonal2d(v));
  }

  /** The two candidate normals orthogonal3d builds. */
  function Normal3dFirst(v: Vec): Vec
    requires |v| == 3
  {
    [-v[1] - v[2], v[0], v[0]]
  }

  function Normal3dSecond(v: Vec): Vec
    requires |v| == 3
  {
    [-v[0] - v[2], v[1], v[1]]
  }

  /** orthogonal3d as written: the second candidate is selected when
      v[1] == 0 and v[0] == -v[2], which is exactly when it is zero. */
  function Orthogonal3dAsWritten(v: Vec): Vec
    requires |v| == 3
  {
    if v[1] == 0.0 && v[0] == -v[2] then Normal3dSecond(v) else Normal3dFirst(v)
  }

  /** orthogonal3d with the evidently intended selection: fall back to the
      second candidate exactly when the first one is zero. */
  function Orthogonal3d(v: Vec): Vec
    requires |v| == 3
  {
    if v[0] == 0.0 && v[1] == -v[2] then Normal3dSecond(v) else Normal3dFirst(v)
  }

  lemma Normal3dFirstIsOrthogonal(v: Vec)
    requires |v| == 3
    ensures Dot(v, Normal3dFirst(v)) == 0.0
    ensures IsZero(Normal3dFirst(v)) <==> v[0] == 0.0 && v[1] == -v[2]
  {
    var n := Normal3dFirst(v);
    Dot3(v, n);
    assert v[0] * (-v[1] - v[2]) + v[1] * v[0] + v[2] * v[0] == 0.0;
  }

  /** The second candidate is orthogonal only on the plane v[0]+v[1]+v[2] == 0
      or when v[0] == v[1]. */
  lemma Normal3dSecondDot(v: Vec)
    requires |v| == 3
    ensures Dot(v, Normal3dSecond(v)) == (v[1] - v[0]) * (v[0] + v[1] + v[2])
  {
    var n := Normal3dSecond(v);
    Dot3(v, n);
    assert v[0] * (-v[0] - v[2]) + v[1] * v[1] + v[2] * v[1]
           == (v[1] - v[0]) * (v[0] + v[1] + v[2]);
  }

  /** As written, the result is still orthogonal to v, because the candidate
      selected in the exceptional case is the zero vector. */
  lemma Orthogonal3dAsWrittenIsOrthogonal(v: Vec)
    requires |v| == 3
    ensures Dot(v, Orthogonal3dAsWritten(v)) == 0.0
    ensures v[1] == 0.0 && v[0] == -v[2] ==> IsZero(Orthogonal3dAsWritten(v))
  {
    Normal3dFirstIsOrthogonal(v);
    Normal3dSecondDot(v);
  }

  /** As written, (1, 0, -1) gets the zero vector although the first
      candidate (1, 1, 1) is a nonzero orthogonal vector. */
  lemma Orthogonal3dAsWrittenLosesNormal()
    ensures !IsZero([1.0, 0.0, -1.0])
    ensures IsZero(Orthogonal3dAsWritten([1.0, 0.0, -1.0]))
    ensures Normal3dFirst([1.0, 0.0, -1.0]) == [1.0, 1.0, 1.0]
    ensures Dot([1.0, 0.0, -1.0], Normal3dFirst([1.0, 0.0, -1.0])) == 0.0
  {
    var v := [1.0, 0.0, -1.0];
    assert v[0] != 0.0;
    Normal3dFirstIsOrthogonal(v);
  }

  lemma Orthogonal3dIsOrthogonal(v: Vec)
    requires |v| == 3
    ensures Dot(v, Orthogonal3d(v)) == 0.0
    ensures IsZero(Orthogonal3d(v)) <==> IsZero(v)
  {
    Normal3dFirstIsOrthogonal(v);
    Normal3dSecondDot(v);
    if v[0] == 0.0 && v[1] == -v[2] {
      assert Normal3dSecond(v) == [v[1], v[1], v[1]];
      assert IsZero(v) <==> v[1] == 0.0 by {
        assert IsZero(v) ==> v[1] == 0.0;
      }
    } else {
      assert !IsZero(v);
    }
  }

  /** Sum of v[i] over i < k, skipping index skip: the negation of the
      running `sum` of the general-dimension search. */
  function OthersSum(v: Vec, skip: nat, k: nat): real
    requires k <= |v|
  {
    if k == 0 then 0.0
    else OthersSum(v, skip, k - 1) + (if k - 1 == skip then 0.0 else v[k - 1])
  }

  function SumPrefix(v: Vec, k: nat): real
    requires k <= |v|
  {
    if k == 0 then 0.0 else SumPrefix(v, k - 1) + v[k - 1]
  }

  lemma {:induction false} OthersSumIsSumMinusSkipped(v: Vec, skip: nat, k: nat)
    requires k <= |v|
    ensures OthersSum(v, skip, k) == SumPrefix(v, k) - (if skip < k then v[skip] else 0.0)
  {
    if k > 0 {
      OthersSumIsSumMinusSkipped(v, skip, k - 1);
    }
  }

  /** The candidate built for a given skip: v[skip] everywhere except at
      skip, which holds minus the sum of the other components. */
  function Candidate(v: Vec, skip: nat): (c: Vec)
    requires skip < |v|
    ensures |c| == |v|
  {
    seq(|v|, i requires 0 <= i < |v| => if i == skip then -OthersSum(v, skip, |v|) else v[skip])
  }

  /** The loop's break condition: sum != 0 && v[skip] != 0. */
  predicate Accepts(v: Vec, skip: nat)
    requires skip < |v|
  {
    OthersSum(v, skip, |v|) != 0.0 && v[skip] != 0.0
  }

  /** The search from a given skip: the first accepted candidate, or the
      candidate of the last index when none is accepted. */
  function SearchFrom(v: Vec, skip: nat): (c: Vec)
    requires skip < |v|
    ensures |c| == |v|
    decreases |v| - skip
  {
    if Accepts(v, skip) || skip == |v| - 1 then Candidate(v, skip)
    else SearchFrom(v, skip + 1)
  }

  /** orthogonal(): the 2D and 3D closed forms, otherwise the search; the
      0-dimensional vector has the empty vector as its result. */
  function Orthogonal(v: Vec): (r: Vec)
    ensures |r| == |v|
  {
    if |v| == 2 then Orthogonal2d(v)
    else if |v| == 3 then Orthogonal3d(v)
    else if |v| == 0 then []
    else SearchFrom(v, 0)
  }

  /** The dot product with a candidate, term by term: the terms at i != skip
      add up to v[skip] times the others' sum. */
  lemma {:induction false} DotPrefixCandidate(v: Vec, c: Vec, skip: nat, k: nat)
    requires skip < |v| && k <= |v| && |c| == |v|
    requires forall i :: 0 <= i < |v| && i != skip ==> c[i] == v[skip]
    ensures DotPrefix(v, c, k)
            == v[skip] * OthersSum(v, skip, k) + (if skip < k then v[skip] * c[skip] else 0.0)
  {
    if k > 0 {
      DotPrefixCandidate(v, c, skip, k - 1);
      if k - 1 != skip {
        assert c[k - 1] == v[skip];
        assert v[skip] * OthersSum(v, skip, k)
               == v[skip] * OthersSum(v, skip, k - 1) + v[k - 1] * c[k - 1];
      }
    }
  }

  /** Every candidate the search builds has dot product zero with v. */
  lemma CandidateIsOrthogonal(v: Vec, skip: nat)
    requires skip < |v|
    ensures Dot(v, Candidate(v, skip)) == 0.0
  {
    var c := Candidate(v, skip);
    DotPrefixCandidate(v, c, skip, |v|);
  }

  /** An accepted candidate is nonzero: its skip entry is -sum != 0. */
  lemma AcceptedCandidateNonZero(v: Vec, skip: nat)
    requires skip < |v| && Accepts(v, skip)
    ensures !IsZero(Candidate(v, skip))
  {
    assert Candidate(v, skip)[skip] != 0.0;
  }

  lemma {:induction false} SearchFromIsCandidate(v: Vec, skip: nat) returns (found: nat)
    requires skip < |v|
    ensures skip <= found < |v|
    ensures SearchFrom(v, skip) == Candidate(v, found)
    ensures forall s :: skip <= s < found ==> !Accepts(v, s)
    ensures Accepts(v, found) || found == |v| - 1
    decreases |v| - skip
  {
    if Accepts(v, skip) || skip == |v| - 1 {
      found := skip;
    } else {
      found := SearchFromIsCandidate(v, skip + 1);
    }
  }

  /** The search stops at the first accepted skip. */
  lemma {:induction false} SearchStopsAtFirstAccepted(v: Vec, from: nat, skip: nat)
    requires from <= skip < |v|
    requires forall s :: from <= s < skip ==> !Accepts(v, s)
    requires Accepts(v, skip) || skip == |v| - 1
    ensures SearchFrom(v, from) == Candidate(v, skip)
    decreases skip - from
  {
    if from < skip {
      SearchStopsAtFirstAccepted(v, from + 1, skip);
    }
  }

  /** When no skip is accepted, the search gives the last candidate, which
      for a nonzero v of dimension at least 2 is still nonzero. */
  lemma FallbackCandidateNonZero(v: Vec)
    requires |v| >= 2 && !IsZero(v)
    requires forall s :: 0 <= s < |v| ==> !Accepts(v, s)
    ensures !IsZero(Candidate(v, |v| - 1))
  {
    var n := |v|;
    var j :| 0 <= j < n && v[j] != 0.0;
    assert !Accepts(v, j);
    OthersSumIsSumMinusSkipped(v, j, n);
    OthersSumIsSumMinusSkipped(v, n - 1, n);
    var c := Candidate(v, n - 1);
    if v[n - 1] != 0.0 {
      assert c[0] == v[n - 1];
    } else {
      assert c[n - 1] == -v[j];
    }
  }

  lemma SearchIsOrthogonal(v: Vec)
    requires |v| >= 1
    ensures Dot(v, SearchFrom(v, 0)) == 0.0
    ensures |v| >= 2 && !IsZero(v) ==> !IsZero(SearchFrom(v, 0))
  {
    var found := SearchFromIsCandidate(v, 0);
    CandidateIsOrthogonal(v, found);
    if |v| >= 2 && !IsZero(v) {
      if Accepts(v, found) {
        AcceptedCandidateNonZero(v, found);
      } else {
        FallbackCandidateNonZero(v);
      }
    }
  }

  /** orthogonal() is orthogonal to v in every dimension, and nonzero for a
      nonzero v of dimension at least 2. */
  lemma OrthogonalIsOrthogonal(v: Vec)
    ensures Dot(v, Orthogonal(v)) == 0.0
    ensures |v| >= 2 && !IsZero(v) ==> !IsZero(Orthogonal(v))
    ensures IsZero(v) ==> IsZero(Orthogonal(v))
  {
    if |v| == 2 {
      Orthogonal2dIsOrthogonal(v);
    } else if |v| == 3 {
      Orthogonal3dIsOrthogonal(v);
    } else if |v| >= 1 {
      SearchIsOrthogonal(v);
      if IsZero(v) {
        var found := SearchFromIsCandidate(v, 0);
        ZeroOthersSum(v, found, |v|);
      }
    }
  }

  lemma {:induction false} ZeroOthersSum(v: Vec, skip: nat, k: nat)
    requires k <= |v| && IsZero(v)
    ensures OthersSum(v, skip, k) == 0.0
  {
    if k > 0 {
      ZeroOthersSum(v, skip, k - 1);
    }
  }

  // ---------------------------------------------------------------------
  // Orderings: only components 1 .. DIM-1 are compared
  // ---------------------------------------------------------------------

  predicate Less(v: Vec, w: Vec)
    requires |v| == |w|
  {
    forall i :: 1 <= i < |v| ==> v[i] < w[i]
  }

  predicate LessEq(v: Vec, w: Vec)
    requires |v| == |w|
  {
    forall i :: 1 <= i < |v| ==> v[i] <= w[i]
  }

  predicate Greater(v: Vec, w: Vec)
    requires |v| == |w|
  {
    forall i :: 1 <= i < |v| ==> v[i] > w[i]
  }

  predicate GreaterEq(v: Vec, w: Vec)
    requires |v| == |w|
  {
    forall i :: 1 <= i < |v| ==> v[i] >= w[i]
  }

  /** Component 0 never takes part in a comparison. */
  lemma OrderingIgnoresComponentZero(v: Vec, w: Vec, a: real, b: real)
    requires |v| == |w| >= 1
    ensures Less(v, w) == Less(v[0 := a], w[0 := b])
    ensures LessEq(v, w) == LessEq(v[0 := a], w[0 := b])
    ensures Greater(v, w) == Greater(v[0 := a], w[0 := b])
    ensures GreaterEq(v, w) == GreaterEq(v[0 := a], w[0 := b])
  {
    assert forall i :: 1 <= i < |v| ==> v[0 := a][i] == v[i] && w[0 := b][i] == w[i];
  }

  /** With fewer than two components every comparison holds. */
  lemma OrderingVacuousBelowTwo(v: Vec, w: Vec)
    requires |v| == |w| <= 1
    ensures Less(v, w) && LessEq(v, w) && Greater(v, w) && GreaterEq(v, w)
  {
  }

  lemma OrderingConverse(v: Vec, w: Vec)
    requires |v| == |w|
    ensures Less(v, w) <==> Greater(w, v)
    ensures LessEq(v, w) <==> GreaterEq(w, v)
    ensures Less(v, w) ==> LessEq(v, w)
  {
  }

  // ---------------------------------------------------------------------
  // Relative equality
  // ---------------------------------------------------------------------

  /** Default percentageTolerance of equals. */
  const DEFAULT_PERCENTAGE_TOLERANCE: real := 0.00000001

  /** One component of equals as written: it fails when
      abs(a - b) / a > tolerance. With a == 0 the IEEE quotient is NaN when
      b == 0 (the comparison is false) and +infinity otherwise (it fails). */
  predicate ComponentCloseAsWritten(a: real, b: real, tolerance: real)
  {
    if a == 0.0 then b == 0.0 else !(Abs(a - b) / a > tolerance)
  }

  predicate EqualsAsWritten(v: Vec, w: Vec, tolerance: real)
    requires |v| == |w|
  {
    forall i :: 0 <= i < |v| ==> ComponentCloseAsWritten(v[i], w[i], tolerance)
  }

  /** The evidently intended component test: the relative difference
      abs(a - b) / abs(a) is at most the tolerance. */
  predicate ComponentClose(a: real, b: real, tolerance: real)
  {
    if a == 0.0 then b == 0.0 else Abs(a - b) / Abs(a) <= tolerance
  }

  predicate RelativelyEqual(v: Vec, w: Vec, tolerance: real)
    requires |v| == |w|
  {
    forall i :: 0 <= i < |v| ==> ComponentClose(v[i], w[i], tolerance)
  }

  /** As written, a negative component makes the quotient negative, so any
      other value is accepted: (-1) "equals" (100). */
  lemma EqualsAsWrittenAcceptsNegativeMismatch()
    ensures EqualsAsWritten([-1.0], [100.0], DEFAULT_PERCENTAGE_TOLERANCE)
    ensures !RelativelyEqual([-1.0], [100.0], DEFAULT_PERCENTAGE_TOLERANCE)
  {
    assert Abs(-1.0 - 100.0) / -1.0 == -101.0;
    assert Abs(-1.0 - 100.0) / Abs(-1.0) == 101.0;
    assert !ComponentClose([-1.0][0], [100.0][0], DEFAULT_PERCENTAGE_TOLERANCE);
  }

  lemma QuotientAtMost(x: real, y: real, t: real)
    requires y > 0.0
    ensures x / y <= t <==> x <= t * y
  {
    var q := x / y;
    assert q * y == x;
    if q <= t {
      assert (t - q) * y >= 0.0 by {
        if t - q > 0.0 {
          PositiveProduct(t - q, y);
        }
      }
    } else {
      PositiveProduct(q - t, y);
    }
  }

  /** The corrected test accepts exactly the vectors whose every component
      is within tolerance * abs(v[i]) of v[i]. */
  lemma RelativelyEqualMeaning(v: Vec, w: Vec, tolerance: real)
    requires |v| == |w|
    ensures RelativelyEqual(v, w, tolerance)
            <==> forall i :: 0 <= i < |v| ==> Abs(v[i] - w[i]) <= tolerance * Abs(v[i])
  {
    forall i | 0 <= i < |v|
      ensures ComponentClose(v[i], w[i], tolerance)
              <==> Abs(v[i] - w[i]) <= tolerance * Abs(v[i])
    {
      if v[i] != 0.0 {
        QuotientAtMost(Abs(v[i] - w[i]), Abs(v[i]), tolerance);
      }
    }
  }

  lemma RelativelyEqualReflexive(v: Vec, tolerance: real)
    requires tolerance >= 0.0
    ensures RelativelyEqual(v, v, tolerance)
  {
  }

  /** The tolerance is relative to the receiver, so the test is not
      symmetric: 1 is within 50% of 2, but 2 is not within 50% of 1. */
  lemma RelativelyEqualAsymmetric()
    ensures RelativelyEqual([2.0], [1.0], 0.5)
    ensures !RelativelyEqual([1.0], [2.0], 0.5)
  {
    assert Abs(2.0 - 1.0) / Abs(2.0) == 0.5;
    assert Abs(1.0 - 2.0) / Abs(1.0) == 1.0;
    assert !ComponentClose([1.0][0], [2.0][0], 0.5);
  }
}
