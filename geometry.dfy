/** The line-intersection family of geometry/GeometryCalculator.h (over
    Eigen column vectors) and geometry/GeometryCalculatorOld.h (over
    flabs::Vector).  Both headers run the same algorithm: take the normal
    n2 = orthogonal(v2) of the second line, compare the denominator
    dot(v1, n2) and the numerator dot(p2 - p1, n2) with a tolerance, and on
    INTERSECT walk num/den along the first line.  Out-parameters are passed
    in with their prior contents and come back unchanged where the source
    does not write them. */
module Geometry {
  import opened MathUtil
  import opened VectorAlgebra

  datatype IntersectionType = Intersect | Coincident | NoIntersection

  /** std::numeric_limits<double>::epsilon() * 4 == 2^-50, the default
      tolerance of every overload. */
  const DEFAULT_TOLERANCE: real := 0.00000000000000088817841970012523233890533447265625

  /** The three-way test every overload shares. */
  function Classify(denominator: real, numerator: real, tolerance: real): IntersectionType
  {
    if Abs(denominator) <= tolerance then
      if Abs(numerator) <= tolerance then Coincident else NoIntersection
    else Intersect
  }

  function Denominator(v1: Vec, v2: Vec): real
    requires |v1| == |v2|
  {
    Dot(v1, Orthogonal(v2))
  }

  function Numerator(p1: Vec, p2: Vec, v2: Vec): real
    requires |p1| == |p2| == |v2|
  {
    Dot(Sub(p2, p1), Orthogonal(v2))
  }

  /** The point at parameter t along the line through p with direction v. */
  function PointAt(p: Vec, v: Vec, t: real): (x: Vec)
    requires |p| == |v|
    ensures |x| == |p|
  {
    Add(p, Scale(v, t))
  }

  /** x lies on the second line in the sense the algorithm tests: x - p2
      has no component along the normal orthogonal(v2). */
  predicate OnNormalLine(x: Vec, p2: Vec, v2: Vec)
    requires |x| == |p2| == |v2|
  {
    Dot(Sub(x, p2), Orthogonal(v2)) == 0.0
  }

  // ---------------------------------------------------------------------
  // The normal of the second line
  // ---------------------------------------------------------------------

  /** orthogonal2d(v) of GeometryCalculator.h: v is a copy, v(0) and v(1) are
      swapped and v(0) is negated. */
  method Orthogonal2dBySwap(v: Vec) returns (r: Vec)
    requires |v| == 2
    ensures r == Orthogonal2d(v)
    ensures Dot(v, r) == 0.0
  {
    var a := new real[2];
    a[0], a[1] := v[0], v[1];
    a[0], a[1] := a[1], a[0];
    a[0] := -a[0];
    r := a[..];
    Orthogonal2dIsOrthogonal(v);
  }

  /** orthogonal(v) of GeometryCalculator.h: the closed forms for 2 and 3
      rows, otherwise the search over skip with the running sum and the
      break at the first skip with sum != 0 and v(skip) != 0. */
  method OrthogonalOf(v: Vec) returns (normal: Vec)
    ensures normal == Orthogonal(v)
    ensures Dot(v, normal) == 0.0
  {
    OrthogonalIsOrthogonal(v);
    var n := |v|;
    if n == 2 {
      normal := Orthogonal2dBySwap(v);
      return;
    } else if n == 3 {
      return Orthogonal3d(v);
    }
    var a := new real[n];
    var skip := 0;
    while skip < n
      invariant 0 <= skip <= n
      invariant forall s :: 0 <= s < skip ==> !Accepts(v, s)
      invariant 0 < skip ==> a[..] == Candidate(v, skip - 1)
    {
      var sum := 0.0;
      var i := 0;
      while i < n
        invariant 0 <= i <= n
        invariant sum == -OthersSum(v, skip, i)
        invariant forall j :: 0 <= j < i && j != skip ==> a[j] == v[skip]
      {
        if i != skip {
          a[i] := v[skip];
          sum := sum - v[i];
        }
        i := i + 1;
      }
      a[skip] := sum;
      assert a[..] == Candidate(v, skip);
      if sum != 0.0 && v[skip] != 0.0 {
        SearchStopsAtFirstAccepted(v, 0, skip);
        return a[..];
      }
      skip := skip + 1;
    }
    if n > 0 {
      SearchStopsAtFirstAccepted(v, 0, n - 1);
    }
    normal := a[..];
  }

  // ---------------------------------------------------------------------
  // Facts about lines and normals
  // ---------------------------------------------------------------------

  /** Along the first line, the quantity the algorithm tests is affine in
      the parameter: dot(p1 + v1*t - p2, n2) == t*den - num. */
  lemma AlongFirstLine(p1: Vec, v1: Vec, p2: Vec, v2: Vec, t: real)
    requires |p1| == |v1| == |p2| == |v2|
    ensures Dot(Sub(PointAt(p1, v1, t), p2), Orthogonal(v2)) == t * Denominator(v1, v2) - Numerator(p1, p2, v2)
  {
    var n := Orthogonal(v2);
    DotSub(PointAt(p1, v1, t), p2, n);
    DotAdd(p1, Scale(v1, t), n);
    DotScale(v1, t, n);
    DotSub(p2, p1, n);
  }

  lemma DotWithZero(a: Vec, n: Vec)
    requires |a| == |n| && IsZero(n)
    ensures Dot(a, n) == 0.0
  {
    assert n == Scale(n, 0.0);
    DotScale(n, 0.0, a);
    DotSymmetric(a, n);
  }

  /** A nonzero denominator needs a nonzero direction for the second line. */
  lemma NonZeroDenominatorDirection(v1: Vec, v2: Vec)
    requires |v1| == |v2| && Denominator(v1, v2) != 0.0
    ensures !IsZero(v2)
  {
    OrthogonalIsOrthogonal(v2);
    if IsZero(v2) {
      DotWithZero(v1, Orthogonal(v2));
    }
  }

  /** With an exact test (tolerance 0) the type describes how the first
      line meets the second: COINCIDENT when every point of it passes the
      test, NONE when no point does, and INTERSECT when exactly the point
      at num/den does. */
  lemma ExactClassification(p1: Vec, v1: Vec, p2: Vec, v2: Vec, t: real)
    requires |p1| == |v1| == |p2| == |v2|
    ensures var kind := Classify(Denominator(v1, v2), Numerator(p1, p2, v2), 0.0);
            var on := OnNormalLine(PointAt(p1, v1, t), p2, v2);
            && (kind == Coincident ==> on)
            && (kind == NoIntersection ==> !on)
            && (kind == Intersect ==> (on <==> t == Numerator(p1, p2, v2) / Denominator(v1, v2)))
  {
    AlongFirstLine(p1, v1, p2, v2, t);
    var den, num := Denominator(v1, v2), Numerator(p1, p2, v2);
    if den != 0.0 {
      QuotientRoot(t, den, num);
    }
  }

  lemma QuotientRoot(t: real, den: real, num: real)
    requires den != 0.0
    ensures t * den - num == 0.0 <==> t == num / den
  {
    if t == num / den {
      assert t * den == num;
    }
    if t * den == num {
      assert t == (t * den) / den;
    }
  }

  // ---------------------------------------------------------------------
  // intersection, intersectionDistance and distance for two lines
  // ---------------------------------------------------------------------

  /** intersection(p1, v1, p2, v2, tolerance): the type only. */
  function IntersectionKind(p1: Vec, v1: Vec, p2: Vec, v2: Vec, tolerance: real): (t: IntersectionType)
    requires |p1| == |v1| == |p2| == |v2|
    ensures t == Intersect <==> Abs(Denominator(v1, v2)) > tolerance
    ensures t == Coincident <==> Abs(Denominator(v1, v2)) <= tolerance && Abs(Numerator(p1, p2, v2)) <= tolerance
    ensures tolerance >= 0.0 && t == Intersect ==> Denominator(v1, v2) != 0.0
  {
    Classify(Denominator(v1, v2), Numerator(p1, p2, v2), tolerance)
  }

  datatype PointResult = PointResult(kind: IntersectionType, point: Vec)

  /** intersection(p1, v1, p2, v2, result, tolerance): result is written
      only on INTERSECT, with the point num/den along the first line, which
      then passes the test for the second line. */
  function Intersection(p1: Vec, v1: Vec, p2: Vec, v2: Vec, result: Vec, tolerance: real): (r: PointResult)
    requires |p1| == |v1| == |p2| == |v2| == |result| && tolerance >= 0.0
    ensures r.kind == IntersectionKind(p1, v1, p2, v2, tolerance)
    ensures r.kind != Intersect ==> r.point == result
    ensures r.kind == Intersect ==> r.point == PointAt(p1, v1, Numerator(p1, p2, v2) / Denominator(v1, v2))
    ensures r.kind == Intersect ==> OnNormalLine(r.point, p2, v2)
  {
    var den, num := Denominator(v1, v2), Numerator(p1, p2, v2);
    if Abs(den) <= tolerance then
      if Abs(num) <= tolerance then PointResult(Coincident, result) else PointResult(NoIntersection, result)
    else
      ExactClassification(p1, v1, p2, v2, num / den);
      PointResult(Intersect, PointAt(p1, v1, num / den))
  }

  datatype DistanceResult = DistanceResult(kind: IntersectionType, point: Vec, distance: real)

  /** intersection(p1, v1, p2, v2, result, distance, tolerance): distance is
      0 on COINCIDENT and num/den on INTERSECT, with result at that
      distance along the first line. */
  function IntersectionWithDistance(p1: Vec, v1: Vec, p2: Vec, v2: Vec, result: Vec, distance: real, tolerance: real): (r: DistanceResult)
    requires |p1| == |v1| == |p2| == |v2| == |result| && tolerance >= 0.0
    ensures r.kind == IntersectionKind(p1, v1, p2, v2, tolerance)
    ensures r.kind != Intersect ==> r.point == result
    ensures r.kind == Coincident ==> r.distance == 0.0
    ensures r.kind == NoIntersection ==> r.distance == distance
    ensures r.kind == Intersect ==> r.distance == Numerator(p1, p2, v2) / Denominator(v1, v2)
                                    && r.point == PointAt(p1, v1, r.distance)
                                    && OnNormalLine(r.point, p2, v2)
  {
    var den, num := Denominator(v1, v2), Numerator(p1, p2, v2);
    if Abs(den) <= tolerance then
      if Abs(num) <= tolerance then DistanceResult(Coincident, result, 0.0)
      else DistanceResult(NoIntersection, result, distance)
    else
      ExactClassification(p1, v1, p2, v2, num / den);
      DistanceResult(Intersect, PointAt(p1, v1, num / den), num / den)
  }

  datatype ValueResult = ValueResult(kind: IntersectionType, value: real)

  /** distance(p1, v1, p2, v2, result, tolerance): only the distance. */
  function Distance(p1: Vec, v1: Vec, p2: Vec, v2: Vec, result: real, tolerance: real): (r: ValueResult)
    requires |p1| == |v1| == |p2| == |v2| && tolerance >= 0.0
    ensures r.kind == IntersectionKind(p1, v1, p2, v2, tolerance)
    ensures r.kind == Coincident ==> r.value == 0.0
    ensures r.kind == NoIntersection ==> r.value == result
    ensures r.kind == Intersect ==> r.value == Numerator(p1, p2, v2) / Denominator(v1, v2)
                                    && OnNormalLine(PointAt(p1, v1, r.value), p2, v2)
  {
    var den, num := Denominator(v1, v2), Numerator(p1, p2, v2);
    if Abs(den) <= tolerance then
      if Abs(num) <= tolerance then ValueResult(Coincident, 0.0) else ValueResult(NoIntersection, result)
    else
      ExactClassification(p1, v1, p2, v2, num / den);
      ValueResult(Intersect, num / den)
  }

  /** The overloads agree: the point of the distance overload is the point
      of intersection(), and its distance is the value of distance(). */
  lemma OverloadsAgree(p1: Vec, v1: Vec, p2: Vec, v2: Vec, result: Vec, distance: real, tolerance: real)
    requires |p1| == |v1| == |p2| == |v2| == |result| && tolerance >= 0.0
    ensures IntersectionWithDistance(p1, v1, p2, v2, result, distance, tolerance).point
            == Intersection(p1, v1, p2, v2, result, tolerance).point
    ensures IntersectionWithDistance(p1, v1, p2, v2, result, distance, tolerance).distance
            == Distance(p1, v1, p2, v2, distance, tolerance).value
  {
  }

  /** The same position with the same or the opposite direction is
      COINCIDENT for every non-negative tolerance. */
  lemma SameLineIsCoincident(p: Vec, v: Vec, tolerance: real)
    requires |p| == |v| && tolerance >= 0.0
    ensures IntersectionKind(p, v, p, v, tolerance) == Coincident
    ensures IntersectionKind(p, v, p, Neg(v), tolerance) == Coincident
  {
    OrthogonalIsOrthogonal(v);
    OrthogonalIsOrthogonal(Neg(v));
    NegIsScaleByMinusOne(v);
    DotScale(v, -1.0, Orthogonal(Neg(v)));
    DotSub(p, p, Orthogonal(v));
    DotSub(p, p, Orthogonal(Neg(v)));
  }

  /** In three dimensions both headers take n2 from orthogonal3d, whose
      selection as written picks the zero candidate for every v2 of the
      form (a, 0, -a).  With that normal the denominator and the numerator
      both vanish, so every pair of lines with such a second direction is
      classified COINCIDENT. */
  lemma IntersectionKindAsWritten3d(p1: Vec, v1: Vec, p2: Vec, a: real, tolerance: real)
    requires |p1| == |v1| == |p2| == 3 && tolerance >= 0.0
    ensures var n2 := Orthogonal3dAsWritten([a, 0.0, -a]);
            Classify(Dot(v1, n2), Dot(Sub(p2, p1), n2), tolerance) == Coincident
  {
    var n2 := Orthogonal3dAsWritten([a, 0.0, -a]);
    assert IsZero(n2);
    DotWithZero(v1, n2);
    DotWithZero(Sub(p2, p1), n2);
  }

  /** With the corrected normal the same kind of second line is told
      apart: the x axis and the line through (0, 0, 5) along (1, 0, -1)
      meet at (5, 0, 0), which the as-written normal reports as
      COINCIDENT. */
  lemma CorrectedNormalIntersects3d(result: Vec, tolerance: real)
    requires |result| == 3 && 0.0 <= tolerance < 1.0
    ensures Orthogonal([1.0, 0.0, -1.0]) == [1.0, 1.0, 1.0]
    ensures IntersectionKind([0.0, 0.0, 0.0], [1.0, 0.0, 0.0], [0.0, 0.0, 5.0], [1.0, 0.0, -1.0], tolerance) == Intersect
    ensures Intersection([0.0, 0.0, 0.0], [1.0, 0.0, 0.0], [0.0, 0.0, 5.0], [1.0, 0.0, -1.0], result, tolerance).point == [5.0, 0.0, 0.0]
  {
    var n := [1.0, 1.0, 1.0];
    assert Orthogonal([1.0, 0.0, -1.0]) == n;
    Dot3([1.0, 0.0, 0.0], n);
    assert Sub([0.0, 0.0, 5.0], [0.0, 0.0, 0.0]) == [0.0, 0.0, 5.0];
    Dot3([0.0, 0.0, 5.0], n);
    assert PointAt([0.0, 0.0, 0.0], [1.0, 0.0, 0.0], 5.0) == [5.0, 0.0, 0.0];
  }

  /** The index of the first nonzero component, or |v| when there is none. */
  function FirstNonZero(v: Vec): (i: nat)
    ensures i <= |v|
    ensures forall j :: 0 <= j < i ==> v[j] == 0.0
    ensures i < |v| ==> v[i] != 0.0
  {
    FirstNonZeroFrom(v, 0)
  }

  function FirstNonZeroFrom(v: Vec, k: nat): (i: nat)
    requires k <= |v|
    requires forall j :: 0 <= j < k ==> v[j] == 0.0
    ensures k <= i <= |v|
    ensures forall j :: 0 <= j < i ==> v[j] == 0.0
    ensures i < |v| ==> v[i] != 0.0
    decreases |v| - k
  {
    if k == |v| || v[k] != 0.0 then k else FirstNonZeroFrom(v, k + 1)
  }

  /** intersectionDistance(p1, v1, p2, v2, result, d1, d2, tolerance): d1
      and result as in the distance overload; d2 is 0 on COINCIDENT and,
      on INTERSECT, is read off the first component i with v2(i) != 0 as
      (result(i) - p2(i)) / v2(i).  In two dimensions the point is then
      exactly p2 + v2*d2. */
  method IntersectionDistance(p1: Vec, v1: Vec, p2: Vec, v2: Vec, result: Vec, d1: real, d2: real, tolerance: real)
    returns (kind: IntersectionType, point: Vec, e1: real, e2: real)
    requires |p1| == |v1| == |p2| == |v2| == |result| && tolerance >= 0.0
    ensures kind == IntersectionKind(p1, v1, p2, v2, tolerance)
    ensures point == IntersectionWithDistance(p1, v1, p2, v2, result, d1, tolerance).point
    ensures e1 == IntersectionWithDistance(p1, v1, p2, v2, result, d1, tolerance).distance
    ensures kind == Coincident ==> e2 == 0.0
    ensures kind == NoIntersection ==> e2 == d2
    ensures kind == Intersect ==> FirstNonZero(v2) < |v2|
                                  && e2 == (point[FirstNonZero(v2)] - p2[FirstNonZero(v2)]) / v2[FirstNonZero(v2)]
    ensures kind == Intersect && |v2| == 2 ==> point == PointAt(p2, v2, e2)
  {
    var n2 := OrthogonalOf(v2);
    var den := Dot(v1, n2);
    var num := Dot(Sub(p2, p1), n2);
    if Abs(den) <= tolerance {
      if Abs(num) <= tolerance {
        return Coincident, result, 0.0, 0.0;
      }
      return NoIntersection, result, d1, d2;
    }
    kind, e1, e2 := Intersect, num / den, d2;
    point := PointAt(p1, v1, e1);
    NonZeroDenominatorDirection(v1, v2);
    var i := 0;
    while i < |v2|
      invariant i <= |v2| && i <= FirstNonZero(v2)
    {
      if v2[i] != 0.0 {
        e2 := (point[i] - p2[i]) / v2[i];
        break;
      }
      i := i + 1;
    }
    if |v2| == 2 {
      ExactClassification(p1, v1, p2, v2, e1);
      OnSecondLine2d(point, p2, v2, e2);
    }
  }

  /** When the lines meet at x = p1 + v1*t = p2 + v2*s and the test says
      INTERSECT, d1 is t and d2 is s: the distances are the parameters of
      the meeting point along each line. */
  lemma MeetingParameters(p1: Vec, v1: Vec, p2: Vec, v2: Vec, t: real, s: real, tolerance: real)
    requires |p1| == |v1| == |p2| == |v2| == 2 && tolerance >= 0.0
    requires IntersectionKind(p1, v1, p2, v2, tolerance) == Intersect
    requires PointAt(p1, v1, t) == PointAt(p2, v2, s)
    ensures t == Numerator(p1, p2, v2) / Denominator(v1, v2)
    ensures FirstNonZero(v2) < 2
    ensures s == (PointAt(p1, v1, t)[FirstNonZero(v2)] - p2[FirstNonZero(v2)]) / v2[FirstNonZero(v2)]
  {
    OrthogonalIsOrthogonal(v2);
    AlongFirstLine(p2, v2, p2, v2, s);
    DotSub(p2, p2, Orthogonal(v2));
    ExactClassification(p1, v1, p2, v2, t);
    NonZeroDenominatorDirection(v1, v2);
    var i := FirstNonZero(v2);
    assert PointAt(p2, v2, s)[i] == p2[i] + v2[i] * s;
  }

  /** The ray-segment scenarios: a line through x = p1 + v1*t against the
      segment from p2 (or from p2 + v2 when shifted) with v2 = (x - p2)*k.
      Stretched by 1.01 the meeting point lies inside the segment, by 0.99
      beyond its end, and with the shifted start before it. */
  method StretchedSegment(p1: Vec, v1: Vec, t: real, p2: Vec, k: real, shifted: bool) returns (kind: IntersectionType, d1: real, d2: real)
    requires |p1| == |v1| == |p2| == 2 && k != 0.0
    ensures kind == Intersect ==> d1 == t && d2 == 1.0 / k - (if shifted then 1.0 else 0.0)
    ensures kind == Intersect && k == 1.01 && !shifted ==> 0.0 < d2 < 1.0
    ensures kind == Intersect && k == 0.99 && !shifted ==> d2 > 1.0
    ensures kind == Intersect && k == 1.01 && shifted ==> d2 < 0.0
  {
    var x := PointAt(p1, v1, t);
    var v2 := Scale(Sub(x, p2), k);
    var start := if shifted then Add(p2, v2) else p2;
    var s := 1.0 / k - (if shifted then 1.0 else 0.0);
    assert PointAt(start, v2, s) == x by {
      forall i | 0 <= i < 2
        ensures PointAt(start, v2, s)[i] == x[i]
      {
        InverseScale(x[i], p2[i], k, shifted);
      }
    }
    var point;
    kind, point, d1, d2 := IntersectionDistance(p1, v1, start, v2, p1, 0.0, 0.0, DEFAULT_TOLERANCE);
    if kind == Intersect {
      MeetingParameters(p1, v1, start, v2, t, s, DEFAULT_TOLERANCE);
    }
  }

  lemma InverseScale(x: real, p: real, k: real, shifted: bool)
    requires k != 0.0
    ensures var w := (x - p) * k;
            (if shifted then p + w else p) + w * (1.0 / k - (if shifted then 1.0 else 0.0)) == x
  {
    var w := (x - p) * k;
    assert w * (1.0 / k) == x - p;
  }

  /** In two dimensions, a point that passes the test for the second line
      lies on it at the parameter read off its first nonzero component. */
  lemma OnSecondLine2d(x: Vec, p2: Vec, v2: Vec, d2: real)
    requires |x| == |p2| == |v2| == 2 && !IsZero(v2)
    requires OnNormalLine(x, p2, v2)
    requires d2 == (x[FirstNonZero(v2)] - p2[FirstNonZero(v2)]) / v2[FirstNonZero(v2)]
    ensures x == PointAt(p2, v2, d2)
  {
    var w := Sub(x, p2);
    Dot2(w, Orthogonal2d(v2));
    var i := FirstNonZero(v2);
    if i == 0 {
      assert i < 2;
      Solve2dFirst(w[0], w[1], v2[0], v2[1], d2);
    } else {
      assert i == 1;
      Solve2dSecond(w[0], w[1], v2[1], d2);
    }
    assert PointAt(p2, v2, d2)[0] == x[0];
    assert PointAt(p2, v2, d2)[1] == x[1];
  }

  lemma Solve2dFirst(w0: real, w1: real, a: real, b: real, d: real)
    requires a != 0.0 && w0 * -b + w1 * a == 0.0 && d == w0 / a
    ensures w0 == a * d && w1 == b * d
  {
    assert w0 == a * d;
    assert w1 * a == (b * d) * a;
  }

  lemma Solve2dSecond(w0: real, w1: real, b: real, d: real)
    requires b != 0.0 && w0 * -b + w1 * 0.0 == 0.0 && d == w1 / b
    ensures w0 == 0.0 * d && w1 == b * d
  {
    ZeroFactor(w0, b);
  }

  lemma ZeroFactor(x: real, b: real)
    requires b != 0.0 && x * -b == 0.0
    ensures x == 0.0
  {
    if x != 0.0 {
      ZeroProduct(x, -b);
    }
  }

  // ---------------------------------------------------------------------
  // Axis-aligned slices: the hyperplane x[dimension] == value
  // ---------------------------------------------------------------------

  /** intersection(p, v, dimension, value, result, tolerance): den is
      v[dimension] and num is value - p[dimension]; on INTERSECT the
      result lies on the slice. */
  function SliceIntersection(p: Vec, v: Vec, dimension: nat, value: real, result: Vec, tolerance: real): (r: PointResult)
    requires |p| == |v| == |result| && dimension < |p| && tolerance >= 0.0
    ensures r.kind == Classify(v[dimension], value - p[dimension], tolerance)
    ensures r.kind != Intersect ==> r.point == result
    ensures r.kind == Intersect ==> v[dimension] != 0.0
                                    && r.point == PointAt(p, v, (value - p[dimension]) / v[dimension])
                                    && r.point[dimension] == value
  {
    var den, num := v[dimension], value - p[dimension];
    if Abs(den) <= tolerance then
      if Abs(num) <= tolerance then PointResult(Coincident, result) else PointResult(NoIntersection, result)
    else
      SliceHit(p[dimension], den, value);
      PointResult(Intersect, PointAt(p, v, num / den))
  }

  lemma SliceHit(p: real, den: real, value: real)
    requires den != 0.0
    ensures p + den * ((value - p) / den) == value
  {
  }

  /** intersection(p, v, dimension, value, result, distance, tolerance). */
  function SliceIntersectionWithDistance(p: Vec, v: Vec, dimension: nat, value: real, result: Vec, distance: real, tolerance: real): (r: DistanceResult)
    requires |p| == |v| == |result| && dimension < |p| && tolerance >= 0.0
    ensures r.kind == Classify(v[dimension], value - p[dimension], tolerance)
    ensures r.kind != Intersect ==> r.point == result
    ensures r.kind == Coincident ==> r.distance == 0.0
    ensures r.kind == NoIntersection ==> r.distance == distance
    ensures r.kind == Intersect ==> v[dimension] != 0.0
                                    && r.distance == (value - p[dimension]) / v[dimension]
                                    && r.point == PointAt(p, v, r.distance)
                                    && r.point[dimension] == value
  {
    var den, num := v[dimension], value - p[dimension];
    if Abs(den) <= tolerance then
      if Abs(num) <= tolerance then DistanceResult(Coincident, result, 0.0)
      else DistanceResult(NoIntersection, result, distance)
    else
      SliceHit(p[dimension], den, value);
      DistanceResult(Intersect, PointAt(p, v, num / den), num / den)
  }

  /** distance(p, v, dimension, value, result, tolerance). */
  function SliceDistance(p: Vec, v: Vec, dimension: nat, value: real, result: real, tolerance: real): (r: ValueResult)
    requires |p| == |v| && dimension < |p| && tolerance >= 0.0
    ensures r.kind == Classify(v[dimension], value - p[dimension], tolerance)
    ensures r.kind == Coincident ==> r.value == 0.0
    ensures r.kind == NoIntersection ==> r.value == result
    ensures r.kind == Intersect ==> v[dimension] != 0.0 && PointAt(p, v, r.value)[dimension] == value
  {
    var den, num := v[dimension], value - p[dimension];
    if Abs(den) <= tolerance then
      if Abs(num) <= tolerance then ValueResult(Coincident, 0.0) else ValueResult(NoIntersection, result)
    else
      SliceHit(p[dimension], den, value);
      ValueResult(Intersect, num / den)
  }

  /** In two dimensions the slice x[d] == value is the line through the
      point with value in component d along the other axis, and the slice
      overload gives the same type and point as the general one. */
  lemma SliceIsLine2d(p: Vec, v: Vec, dimension: nat, value: real, result: Vec, tolerance: real)
    requires |p| == |v| == |result| == 2 && dimension < 2 && tolerance >= 0.0
    ensures var q := if dimension == 0 then [value, 0.0] else [0.0, value];
            var axis := if dimension == 0 then [0.0, 1.0] else [1.0, 0.0];
            SliceIntersection(p, v, dimension, value, result, tolerance) == Intersection(p, v, q, axis, result, tolerance)
  {
    var q := if dimension == 0 then [value, 0.0] else [0.0, value];
    var axis := if dimension == 0 then [0.0, 1.0] else [1.0, 0.0];
    var den, num := SliceTerms2d(p, v, dimension, value);
    assert Abs(den) == Abs(v[dimension]) && Abs(num) == Abs(value - p[dimension]);
    if Abs(den) > tolerance {
      assert num / den == (value - p[dimension]) / v[dimension];
    }
  }

  /** The denominator and numerator of the general test against the axis
      line: the slice's own terms, negated for dimension 0. */
  lemma SliceTerms2d(p: Vec, v: Vec, dimension: nat, value: real) returns (den: real, num: real)
    requires |p| == |v| == 2 && dimension < 2
    ensures var q := if dimension == 0 then [value, 0.0] else [0.0, value];
            var axis := if dimension == 0 then [0.0, 1.0] else [1.0, 0.0];
            den == Denominator(v, axis) && num == Numerator(p, q, axis)
    ensures dimension == 0 ==> den == -v[0] && num == p[0] - value
    ensures dimension == 1 ==> den == v[1] && num == value - p[1]
  {
    var q := if dimension == 0 then [value, 0.0] else [0.0, value];
    var axis := if dimension == 0 then [0.0, 1.0] else [1.0, 0.0];
    var n := Orthogonal(axis);
    assert n == Orthogonal2d(axis);
    assert n == if dimension == 0 then [-1.0, 0.0] else [0.0, 1.0];
    Dot2(v, n);
    Dot2(Sub(q, p), n);
    den, num := Denominator(v, axis), Numerator(p, q, axis);
  }

  // ---------------------------------------------------------------------
  // Ray, Line and LineSegment
  // ---------------------------------------------------------------------

  /** LineSegment(start, finish): start and the offset to finish. */
  datatype LineSegment = LineSegment(start: Vec, extent: Vec)

  function SegmentBetween(start: Vec, finish: Vec): (s: LineSegment)
    requires |start| == |finish|
    ensures |s.start| == |s.extent| == |start|
    ensures s.start == start && Add(s.start, s.extent) == finish
  {
    LineSegment(start, Sub(finish, start))
  }

  datatype Ray = Ray(start: Vec, normalizedDirection: Vec)

  /** The d2 that intersectionDistance computes for a ray against a
      segment that it meets: the meeting point's offset from the segment
      start, read at the first nonzero component i of the extent, divided
      by extent(i).  It is 0 where the lines do not meet in a single point. */
  function SegmentParameter(ray: Ray, segment: LineSegment): real
    requires |ray.start| == |ray.normalizedDirection| == |segment.start| == |segment.extent|
  {
    var den := Denominator(ray.normalizedDirection, segment.extent);
    var f := FirstNonZero(segment.extent);
    if den == 0.0 || f == |segment.extent| then 0.0
    else
      var hit := PointAt(ray.start, ray.normalizedDirection, Numerator(ray.start, segment.start, segment.extent) / den);
      (hit[f] - segment.start[f]) / segment.extent[f]
  }

  /** Ray::distance(segment, distance): intersectionDistance with the
      segment as (start, extent) at the default tolerance, re-tagged NONE
      when d2 < 0, d2 > 1 or distance < 0.  distance is the caller's
      variable; d2 and the intersection point are locals the source leaves
      uninitialised, passed here as d2Initial and pointInitial. */
  method RayDistance(ray: Ray, segment: LineSegment, distance: real, d2Initial: real, pointInitial: Vec)
    returns (kind: IntersectionType, newDistance: real)
    requires |ray.start| == |ray.normalizedDirection| == |segment.start| == |segment.extent| == |pointInitial|
    ensures var line := IntersectionKind(ray.start, ray.normalizedDirection, segment.start, segment.extent, DEFAULT_TOLERANCE);
            && (line == NoIntersection ==> kind == NoIntersection && newDistance == distance)
            && (line == Coincident ==> kind == Coincident && newDistance == 0.0)
            && (line == Intersect ==> newDistance == Numerator(ray.start, segment.start, segment.extent) / Denominator(ray.normalizedDirection, segment.extent))
            && (kind == Intersect <==> line == Intersect && 0.0 <= SegmentParameter(ray, segment) <= 1.0 && newDistance >= 0.0)
    ensures kind == Intersect && |segment.start| == 2 ==>
              PointAt(ray.start, ray.normalizedDirection, newDistance) == PointAt(segment.start, segment.extent, SegmentParameter(ray, segment))
  {
    var t, point, e1, d2 := IntersectionDistance(ray.start, ray.normalizedDirection, segment.start, segment.extent,
                                                 pointInitial, distance, d2Initial, DEFAULT_TOLERANCE);
    newDistance := e1;
    if d2 < 0.0 || d2 > 1.0 || e1 < 0.0 {
      kind := NoIntersection;
    } else {
      kind := t;
    }
  }

  datatype Line = Line(point: Vec, vector: Vec)

  /** Line::intersect(line, result): intersection() with the other line. */
  function LineIntersect(self: Line, other: Line, result: Vec, tolerance: real): (r: PointResult)
    requires |self.point| == |self.vector| == |other.point| == |other.vector| == |result| && tolerance >= 0.0
    ensures r == Intersection(self.point, self.vector, other.point, other.vector, result, tolerance)
    ensures r.kind == Intersect ==> OnNormalLine(r.point, other.point, other.vector)
  {
    Intersection(self.point, self.vector, other.point, other.vector, result, tolerance)
  }

  /** A distance that may be +infinity. */
  datatype Extended = Finite(value: real) | Infinity

  /** Line::distance(line): distance() with the other line, +infinity on
      NONE. */
  function LineDistance(self: Line, other: Line, tolerance: real): (d: Extended)
    requires |self.point| == |self.vector| == |other.point| == |other.vector| && tolerance >= 0.0
    ensures var kind := IntersectionKind(self.point, self.vector, other.point, other.vector, tolerance);
            && (d == Infinity <==> kind == NoIntersection)
            && (kind == Coincident ==> d == Finite(0.0))
            && (kind == Intersect ==> d == Finite(Numerator(self.point, other.point, other.vector) / Denominator(self.vector, other.vector)))
  {
    var r := Distance(self.point, self.vector, other.point, other.vector, 0.0, tolerance);
    if r.kind == NoIntersection then Infinity else Finite(r.value)
  }
}
