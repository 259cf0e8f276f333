/** The flabs::Vector class of geometry/Vector.h: DIM components in a
    fixed-size array that the constructors and operators write in place.
    Each operation is specified by the value-level function of
    VectorAlgebra that it computes. */
module Vectors {
  import opened MathUtil
  import opened VectorAlgebra

  class Vector {
    /** values[DIM]; the dimension DIM is values.Length. */
    const values: array<real>

    /** Default constructor: DIM components with no particular value. */
    constructor (dim: nat)
      ensures values.Length == dim && fresh(values)
    {
      values := new real[dim];
    }

    /** Copy constructor. */
    constructor Copy(other: Vector)
      ensures values.Length == other.values.Length && fresh(values)
      ensures values[..] == other.values[..]
    {
      var n := other.values.Length;
      var a := new real[n];
      var i := 0;
      while i < n
        invariant 0 <= i <= n
        invariant forall j :: 0 <= j < i ==> a[j] == other.values[j]
      {
        a[i] := other.values[i];
        i := i + 1;
      }
      values := a;
    }

    /** Vector(ValueType value): every component set to value. */
    constructor Filled(dim: nat, value: real)
      ensures values.Length == dim && fresh(values)
      ensures values[..] == Fill(dim, value)
    {
      var a := new real[dim];
      var i := 0;
      while i < dim
        invariant 0 <= i <= dim
        invariant forall j :: 0 <= j < i ==> a[j] == value
      {
        a[i] := value;
        i := i + 1;
      }
      values := a;
    }

    /** Vector(const ValueType values[DIM]) and the initializer-list
        constructor: the components in order. */
    constructor FromSeq(s: seq<real>)
      ensures values.Length == |s| && fresh(values)
      ensures values[..] == s
    {
      var a := new real[|s|];
      var i := 0;
      while i < |s|
        invariant 0 <= i <= |s|
        invariant forall j :: 0 <= j < i ==> a[j] == s[j]
      {
        a[i] := s[i];
        i := i + 1;
      }
      values := a;
    }

    /** operator=(const Vec&). */
    method Assign(other: Vector)
      requires other.values.Length == values.Length
      modifies values
      ensures values[..] == old(other.values[..])
    {
      var n := values.Length;
      var i := 0;
      while i < n
        invariant 0 <= i <= n
        invariant forall j :: 0 <= j < i ==> values[j] == old(other.values[j])
        invariant forall j :: i <= j < n ==> other.values[j] == old(other.values[j])
      {
        values[i] := other.values[i];
        i := i + 1;
      }
    }

    /** operator=(std::initializer_list): a list of exactly DIM values. */
    method AssignSeq(s: seq<real>)
      requires |s| == values.Length
      modifies values
      ensures values[..] == s
    {
      var i := 0;
      while i < |s|
        invariant 0 <= i <= |s|
        invariant forall j :: 0 <= j < i ==> values[j] == s[j]
      {
        values[i] := s[i];
        i := i + 1;
      }
    }

    /** dot: the accumulated sum of values[i] * vector.values[i]. */
    method Dot(other: Vector) returns (r: real)
      requires other.values.Length == values.Length
      ensures r == VectorAlgebra.Dot(values[..], other.values[..])
    {
      r := 0.0;
      var i := 0;
      while i < values.Length
        invariant 0 <= i <= values.Length
        invariant r == DotPrefix(values[..], other.values[..], i)
      {
        r := r + values[i] * other.values[i];
        i := i + 1;
      }
    }

    /** norm: the square root of the accumulated sum of squares; sqrt stands
        for std::sqrt and is only required to be a square root there. */
    method Norm(sqrt: real -> real) returns (r: real)
      requires IsSqrtAt(sqrt, VectorAlgebra.Dot(values[..], values[..]))
      ensures r >= 0.0 && r * r == VectorAlgebra.Dot(values[..], values[..])
      ensures r == sqrt(VectorAlgebra.Dot(values[..], values[..]))
    {
      var sum := 0.0;
      var i := 0;
      while i < values.Length
        invariant 0 <= i <= values.Length
        invariant sum == DotPrefix(values[..], values[..], i)
      {
        sum := sum + values[i] * values[i];
        i := i + 1;
      }
      r := sqrt(sum);
    }

    /** normalize: divide by the norm, which must not be zero. */
    method Normalize(sqrt: real -> real)
      requires IsSqrtAt(sqrt, VectorAlgebra.Dot(values[..], values[..]))
      requires VectorAlgebra.Dot(values[..], values[..]) != 0.0
      modifies values
      ensures old(sqrt(VectorAlgebra.Dot(values[..], values[..]))) != 0.0
      ensures values[..] == DivScalar(old(values[..]), old(sqrt(VectorAlgebra.Dot(values[..], values[..]))))
      ensures VectorAlgebra.Dot(values[..], values[..]) == 1.0
    {
      var n := Norm(sqrt);
      ghost var was := values[..];
      DivScalarAssign(n);
      NormalizedIsUnit(was, n);
    }

    /** operator+=(const Vec&). */
    method AddAssign(other: Vector)
      requires other.values.Length == values.Length
      modifies values
      ensures values[..] == Add(old(values[..]), old(other.values[..]))
    {
      var n := values.Length;
      var i := 0;
      while i < n
        invariant 0 <= i <= n
        invariant forall j :: 0 <= j < i ==> values[j] == old(values[j]) + old(other.values[j])
        invariant forall j :: i <= j < n ==> values[j] == old(values[j]) && other.values[j] == old(other.values[j])
      {
        values[i] := values[i] + other.values[i];
        i := i + 1;
      }
    }

    /** operator-=(const Vec&). */
    method SubAssign(other: Vector)
      requires other.values.Length == values.Length
      modifies values
      ensures values[..] == Sub(old(values[..]), old(other.values[..]))
    {
      var n := values.Length;
      var i := 0;
      while i < n
        invariant 0 <= i <= n
        invariant forall j :: 0 <= j < i ==> values[j] == old(values[j]) - old(other.values[j])
        invariant forall j :: i <= j < n ==> values[j] == old(values[j]) && other.values[j] == old(other.values[j])
      {
        values[i] := values[i] - other.values[i];
        i := i + 1;
      }
    }

    /** operator*=(const Vec&): element-wise product. */
    method MulAssign(other: Vector)
      requires other.values.Length == values.Length
      modifies values
      ensures values[..] == Mul(old(values[..]), old(other.values[..]))
    {
      var n := values.Length;
      var i := 0;
      while i < n
        invariant 0 <= i <= n
        invariant forall j :: 0 <= j < i ==> values[j] == old(values[j]) * old(other.values[j])
        invariant forall j :: i <= j < n ==> values[j] == old(values[j]) && other.values[j] == old(other.values[j])
      {
        values[i] := values[i] * other.values[i];
        i := i + 1;
      }
      assert forall j :: 0 <= j < n ==> values[..][j] == Mul(old(values[..]), old(other.values[..]))[j];
    }

    /** operator/=(const Vec&): element-wise quotient. */
    method DivAssign(other: Vector)
      requires other.values.Length == values.Length
      requires NoZeroComponent(other.values[..])
      modifies values
      ensures values[..] == Div(old(values[..]), old(other.values[..]))
    {
      var n := values.Length;
      var i := 0;
      while i < n
        invariant 0 <= i <= n
        invariant forall j :: 0 <= j < i ==> values[j] == old(values[j]) / old(other.values[j])
        invariant forall j :: i <= j < n ==> values[j] == old(values[j]) && other.values[j] == old(other.values[j])
      {
        values[i] := values[i] / other.values[i];
        i := i + 1;
      }
      assert forall j :: 0 <= j < n ==> values[..][j] == Div(old(values[..]), old(other.values[..]))[j];
    }

    /** operator+=(scaler). */
    method AddScalarAssign(s: real)
      modifies values
      ensures values[..] == AddScalar(old(values[..]), s)
    {
      var i := 0;
      while i < values.Length
        invariant 0 <= i <= values.Length
        invariant forall j :: 0 <= j < i ==> values[j] == old(values[j]) + s
        invariant forall j :: i <= j < values.Length ==> values[j] == old(values[j])
      {
        values[i] := values[i] + s;
        i := i + 1;
      }
    }

    /** operator-=(scaler). */
    method SubScalarAssign(s: real)
      modifies values
      ensures values[..] == SubScalar(old(values[..]), s)
    {
      var i := 0;
      while i < values.Length
        invariant 0 <= i <= values.Length
        invariant forall j :: 0 <= j < i ==> values[j] == old(values[j]) - s
        invariant forall j :: i <= j < values.Length ==> values[j] == old(values[j])
      {
        values[i] := values[i] - s;
        i := i + 1;
      }
    }

    /** operator*=(scaler). */
    method MulScalarAssign(s: real)
      modifies values
      ensures values[..] == Scale(old(values[..]), s)
    {
      var i := 0;
      while i < values.Length
        invariant 0 <= i <= values.Length
        invariant forall j :: 0 <= j < i ==> values[j] == old(values[j]) * s
        invariant forall j :: i <= j < values.Length ==> values[j] == old(values[j])
      {
        values[i] := values[i] * s;
        i := i + 1;
      }
      assert forall j :: 0 <= j < values.Length ==> values[..][j] == Scale(old(values[..]), s)[j];
    }

    /** operator/=(scaler); a zero scaler is outside the model. */
    method DivScalarAssign(s: real)
      requires s != 0.0
      modifies values
      ensures values[..] == DivScalar(old(values[..]), s)
    {
      var i := 0;
      while i < values.Length
        invariant 0 <= i <= values.Length
        invariant forall j :: 0 <= j < i ==> values[j] == old(values[j]) / s
        invariant forall j :: i <= j < values.Length ==> values[j] == old(values[j])
      {
        values[i] := values[i] / s;
        i := i + 1;
      }
      assert forall j :: 0 <= j < values.Length ==> values[..][j] == DivScalar(old(values[..]), s)[j];
    }

    /** operator+(Vec vector): the argument is a copy, accumulated into. */
    method Plus(other: Vector) returns (r: Vector)
      requires other.values.Length == values.Length
      ensures fresh(r) && fresh(r.values)
      ensures r.values[..] == Add(values[..], other.values[..])
    {
      r := new Vector.Copy(other);
      var i := 0;
      while i < r.values.Length
        invariant 0 <= i <= r.values.Length
        invariant forall j :: 0 <= j < i ==> r.values[j] == other.values[j] + values[j]
        invariant forall j :: i <= j < r.values.Length ==> r.values[j] == other.values[j]
      {
        r.values[i] := r.values[i] + values[i];
        i := i + 1;
      }
    }

    /** operator-(Vec vector). */
    method Minus(other: Vector) returns (r: Vector)
      requires other.values.Length == values.Length
      ensures fresh(r) && fresh(r.values)
      ensures r.values[..] == Sub(values[..], other.values[..])
    {
      r := new Vector.Copy(other);
      var i := 0;
      while i < r.values.Length
        invariant 0 <= i <= r.values.Length
        invariant forall j :: 0 <= j < i ==> r.values[j] == values[j] - other.values[j]
        invariant forall j :: i <= j < r.values.Length ==> r.values[j] == other.values[j]
      {
        r.values[i] := values[i] - r.values[i];
        i := i + 1;
      }
    }

    /** operator*(Vec vector): element-wise product. */
    method Times(other: Vector) returns (r: Vector)
      requires other.values.Length == values.Length
      ensures fresh(r) && fresh(r.values)
      ensures r.values[..] == Mul(values[..], other.values[..])
    {
      r := new Vector.Copy(other);
      var i := 0;
      while i < r.values.Length
        invariant 0 <= i <= r.values.Length
        invariant forall j :: 0 <= j < i ==> r.values[j] == values[j] * other.values[j]
        invariant forall j :: i <= j < r.values.Length ==> r.values[j] == other.values[j]
      {
        r.values[i] := values[i] * r.values[i];
        i := i + 1;
      }
      assert forall j :: 0 <= j < r.values.Length ==> r.values[..][j] == Mul(values[..], other.values[..])[j];
    }

    /** operator/(Vec vector): element-wise quotient. */
    method Over(other: Vector) returns (r: Vector)
      requires other.values.Length == values.Length
      requires NoZeroComponent(other.values[..])
      ensures fresh(r) && fresh(r.values)
      ensures r.values[..] == Div(values[..], other.values[..])
    {
      r := new Vector.Copy(other);
      var i := 0;
      while i < r.values.Length
        invariant 0 <= i <= r.values.Length
        invariant forall j :: 0 <= j < i ==> r.values[j] == values[j] / other.values[j]
        invariant forall j :: i <= j < r.values.Length ==> r.values[j] == other.values[j]
      {
        r.values[i] := values[i] / r.values[i];
        i := i + 1;
      }
    }

    /** The friend operators vector + scaler and scaler + vector. */
    method PlusScalar(s: real) returns (r: Vector)
      ensures fresh(r) && fresh(r.values)
      ensures r.values[..] == AddScalar(values[..], s)
    {
      r := new Vector.Copy(this);
      r.AddScalarAssign(s);
    }

    /** The friend operator vector - scaler. */
    method MinusScalar(s: real) returns (r: Vector)
      ensures fresh(r) && fresh(r.values)
      ensures r.values[..] == SubScalar(values[..], s)
    {
      r := new Vector.Copy(this);
      r.SubScalarAssign(s);
    }

    /** The friend operators vector * scaler and scaler * vector. */
    method TimesScalar(s: real) returns (r: Vector)
      ensures fresh(r) && fresh(r.values)
      ensures r.values[..] == Scale(values[..], s)
    {
      r := new Vector.Copy(this);
      r.MulScalarAssign(s);
    }

    /** The friend operator vector / scaler. */
    method OverScalar(s: real) returns (r: Vector)
      requires s != 0.0
      ensures fresh(r) && fresh(r.values)
      ensures r.values[..] == DivScalar(values[..], s)
    {
      r := new Vector.Copy(this);
      r.DivScalarAssign(s);
    }

    /** Unary operator-. */
    method Negated() returns (r: Vector)
      ensures fresh(r) && fresh(r.values)
      ensures r.values[..] == Neg(values[..])
    {
      r := new Vector(values.Length);
      var i := 0;
      while i < values.Length
        invariant 0 <= i <= values.Length
        invariant forall j :: 0 <= j < i ==> r.values[j] == -values[j]
      {
        r.values[i] := -values[i];
        i := i + 1;
      }
    }

    /** operator==: every component exactly equal. */
    method Eq(other: Vector) returns (r: bool)
      requires other.values.Length == values.Length
      ensures r <==> values[..] == other.values[..]
    {
      var i := 0;
      while i < values.Length
        invariant 0 <= i <= values.Length
        invariant forall j :: 0 <= j < i ==> values[j] == other.values[j]
      {
        if values[i] != other.values[i] {
          assert values[..][i] != other.values[..][i];
          return false;
        }
        i := i + 1;
      }
      assert values[..] == other.values[..];
      return true;
    }

    /** equals(vector, percentageTolerance), with the relative difference
        taken against abs(values[i]) (see RelativelyEqual). */
    method Equals(other: Vector, tolerance: real) returns (r: bool)
      requires other.values.Length == values.Length
      ensures r == RelativelyEqual(values[..], other.values[..], tolerance)
    {
      var i := 0;
      while i < values.Length
        invariant 0 <= i <= values.Length
        invariant forall j :: 0 <= j < i ==> ComponentClose(values[j], other.values[j], tolerance)
      {
        if values[i] == 0.0 {
          if other.values[i] != 0.0 {
            assert !ComponentClose(values[..][i], other.values[..][i], tolerance);
            return false;
          }
        } else if Abs(values[i] - other.values[i]) / Abs(values[i]) > tolerance {
          assert !ComponentClose(values[..][i], other.values[..][i], tolerance);
          return false;
        }
        i := i + 1;
      }
      return true;
    }

    /** operator<: every component from index 1 on is smaller. */
    method Less(other: Vector) returns (r: bool)
      requires other.values.Length == values.Length
      ensures r == VectorAlgebra.Less(values[..], other.values[..])
    {
      var i := 1;
      while i < values.Length
        invariant 1 <= i <= values.Length || values.Length == 0
        invariant forall j :: 1 <= j < i && j < values.Length ==> values[j] < other.values[j]
      {
        if values[i] >= other.values[i] {
          return false;
        }
        i := i + 1;
      }
      return true;
    }

    /** operator<=. */
    method LessEq(other: Vector) returns (r: bool)
      requires other.values.Length == values.Length
      ensures r == VectorAlgebra.LessEq(values[..], other.values[..])
    {
      var i := 1;
      while i < values.Length
        invariant 1 <= i <= values.Length || values.Length == 0
        invariant forall j :: 1 <= j < i && j < values.Length ==> values[j] <= other.values[j]
      {
        if values[i] > other.values[i] {
          return false;
        }
        i := i + 1;
      }
      return true;
    }

    /** operator>. */
    method Greater(other: Vector) returns (r: bool)
      requires other.values.Length == values.Length
      ensures r == VectorAlgebra.Greater(values[..], other.values[..])
    {
      var i := 1;
      while i < values.Length
        invariant 1 <= i <= values.Length || values.Length == 0
        invariant forall j :: 1 <= j < i && j < values.Length ==> values[j] > other.values[j]
      {
        if values[i] <= other.values[i] {
          return false;
        }
        i := i + 1;
      }
      return true;
    }

    /** operator>=. */
    method GreaterEq(other: Vector) returns (r: bool)
      requires other.values.Length == values.Length
      ensures r == VectorAlgebra.GreaterEq(values[..], other.values[..])
    {
      var i := 1;
      while i < values.Length
        invariant 1 <= i <= values.Length || values.Length == 0
        invariant forall j :: 1 <= j < i && j < values.Length ==> values[j] >= other.values[j]
      {
        if values[i] < other.values[i] {
          return false;
        }
        i := i + 1;
      }
      return true;
    }

    /** orthogonal2d (private; used for DIM == 2). */
    method Orthogonal2d() returns (normal: Vector)
      requires values.Length == 2
      ensures fresh(normal) && fresh(normal.values)
      ensures normal.values[..] == VectorAlgebra.Orthogonal2d(values[..])
    {
      normal := new Vector(2);
      normal.values[0] := -values[0 + 1];
      normal.values[1] := values[0];
    }

    /** orthogonal3d (private; used for DIM == 3): both candidates are
        built, and the first is replaced by the second when it is zero. */
    method Orthogonal3d() returns (normal: Vector)
      requires values.Length == 3
      ensures fresh(normal) && fresh(normal.values)
      ensures normal.values[..] == VectorAlgebra.Orthogonal3d(values[..])
    {
      var first := new Vector(3);
      first.values[0] := -values[1] - values[2];
      first.values[1] := values[0];
      first.values[2] := values[0];
      var second := new Vector(3);
      second.values[0] := -values[0] - values[2];
      second.values[1] := values[1];
      second.values[2] := values[1];
      var select := values[0] == 0.0 && values[1] == -values[2];
      normal := if select then second else first;
    }

    /** orthogonal(): the closed forms for DIM 2 and 3; otherwise, for each
        skip, fill the candidate while summing the other components, and
        stop at the first skip with sum != 0 and values[skip] != 0. */
    method Orthogonal() returns (normal: Vector)
      ensures fresh(normal) && fresh(normal.values)
      ensures normal.values[..] == VectorAlgebra.Orthogonal(values[..])
    {
      var n := values.Length;
      if n == 2 {
        normal := Orthogonal2d();
      } else if n == 3 {
        normal := Orthogonal3d();
      } else {
        ghost var v := values[..];
        normal := new Vector(n);
        var skip := 0;
        while skip < n
          invariant 0 <= skip <= n
          invariant fresh(normal) && fresh(normal.values) && normal.values.Length == n
          invariant values[..] == v
          invariant forall s :: 0 <= s < skip ==> !Accepts(v, s)
          invariant 0 < skip ==> normal.values[..] == Candidate(v, skip - 1)
        {
          var sum := 0.0;
          var i := 0;
          while i < n
            invariant 0 <= i <= n
            invariant values[..] == v
            invariant sum == -OthersSum(v, skip, i)
            invariant forall j :: 0 <= j < i && j != skip ==> normal.values[j] == v[skip]
          {
            if i != skip {
              normal.values[i] := values[skip];
              sum := sum - values[i];
            }
            i := i + 1;
          }
          normal.values[skip] := sum;
          assert normal.values[..] == Candidate(v, skip);
          if sum != 0.0 && values[skip] != 0.0 {
            SearchStopsAtFirstAccepted(v, 0, skip);
            break;
          }
          skip := skip + 1;
        }
        if skip == n && n > 0 {
          SearchStopsAtFirstAccepted(v, 0, n - 1);
        }
      }
    }
  }

  /** normalize leaves a vector of unit length. */
  lemma NormalizedIsUnit(v: Vec, n: real)
    requires n != 0.0 && n * n == VectorAlgebra.Dot(v, v)
    ensures VectorAlgebra.Dot(DivScalar(v, n), DivScalar(v, n)) == 1.0
  {
    var t := 1.0 / n;
    var u := DivScalar(v, n);
    forall i | 0 <= i < |v|
      ensures u[i] == Scale(v, t)[i]
    {
      assert v[i] / n == v[i] * (1.0 / n);
    }
    assert u == Scale(v, t);
    DotScale(v, t, u);
    DotSymmetric(v, u);
    DotScale(v, t, v);
    assert VectorAlgebra.Dot(u, u) == t * (t * VectorAlgebra.Dot(v, v));
    assert t * (t * (n * n)) == (t * n) * (t * n);
  }
}
