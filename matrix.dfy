/** The flabs::Matrix class of matrix/Matrix.h: a ROWS x COLS matrix whose
    entries live row-major in a fixed-size array that the constructors and
    operators write in place.  Each operation is proved against the
    value-level specification in MatrixAlgebra (and, for the element-wise
    operators, VectorAlgebra on the flat data). */
module Matrices {
  import opened MathUtil
  import VectorAlgebra
  import opened MatrixAlgebra
  import opened LUDecomposition
  import opened LUSolve

  class Matrix {
    const rows: nat
    const cols: nat
    /** TYPE data[ROWS * COLS]; entry (r, c) is data[r * COLS + c]. */
    const data: array<real>

    ghost predicate Valid()
    {
      data.Length == rows * cols
    }

    /** Matrix(): the entries have no particular value. */
    constructor (rows: nat, cols: nat)
      ensures this.rows == rows && this.cols == cols && Valid() && fresh(data)
    {
      this.rows := rows;
      this.cols := cols;
      data := new real[rows * cols];
    }

    /** Matrix(initializer_list<initializer_list<TYPE>>): row r of the list
        fills row r from column 0; entries the lists do not reach keep no
        particular value.  Longer lists would write outside data. */
    constructor FromLists(rows: nat, cols: nat, init: seq<seq<real>>)
      requires |init| <= rows && forall r :: 0 <= r < |init| ==> |init[r]| <= cols
      ensures this.rows == rows && this.cols == cols && Valid() && fresh(data)
      ensures forall r: nat, c: nat :: r < |init| && c < |init[r]| ==> At(data[..], cols, r, c) == init[r][c]
    {
      var a := new real[rows * cols];
      var r := 0;
      while r < |init|
        invariant r <= |init|
        invariant forall r': nat, c': nat :: r' < r && c' < |init[r']| ==> At(a[..], cols, r', c') == init[r'][c']
      {
        var c := 0;
        while c < |init[r]|
          invariant c <= |init[r]|
          invariant forall r': nat, c': nat :: (r' < r || (r' == r && c' < c)) && r' < |init| && c' < |init[r']|
                      ==> At(a[..], cols, r', c') == init[r'][c']
        {
          RowStartBound(r, c, rows, cols);
          ghost var before := a[..];
          AtUpdateAll(before, cols, r, c, init[r][c]);
          a[RowStart(r, cols) + c] := init[r][c];
          assert a[..] == before[RowStart(r, cols) + c := init[r][c]];
          c := c + 1;
        }
        r := r + 1;
      }
      this.rows := rows;
      this.cols := cols;
      data := a;
    }

    /** Matrix(const Vector<ROWS>& vector, const Vectors&... vectors): the
        k-th vector becomes column k; there is one vector per column. */
    constructor FromColumns(rows: nat, columns: seq<seq<real>>)
      requires |columns| >= 1 && forall k :: 0 <= k < |columns| ==> |columns[k]| == rows
      ensures this.rows == rows && cols == |columns| && Valid() && fresh(data)
      ensures forall r: nat, c: nat :: r < rows && c < cols ==> At(data[..], cols, r, c) == columns[c][r]
    {
      var n := |columns|;
      var a := new real[rows * n];
      var k := 0;
      while k < n
        invariant k <= n
        invariant forall r: nat, c: nat :: r < rows && c < k ==> At(a[..], n, r, c) == columns[c][r]
      {
        var r := 0;
        while r < rows
          invariant r <= rows
          invariant forall r': nat, c: nat :: r' < rows && (c < k || (c == k && r' < r))
                      ==> At(a[..], n, r', c) == columns[c][r']
        {
          RowStartBound(r, k, rows, n);
          ghost var before := a[..];
          AtUpdateAll(before, n, r, k, columns[k][r]);
          a[RowStart(r, n) + k] := columns[k][r];
          assert a[..] == before[RowStart(r, n) + k := columns[k][r]];
          r := r + 1;
        }
        k := k + 1;
      }
      this.rows := rows;
      cols := n;
      data := a;
    }

    /** Matrix(const std::array<std::array<TYPE, COLS>, ROWS>&): entry (r, c)
        is values[r][c]. */
    constructor FromArray(rows: nat, cols: nat, values: seq<seq<real>>)
      requires |values| == rows && forall r :: 0 <= r < rows ==> |values[r]| == cols
      ensures this.rows == rows && this.cols == cols && Valid() && fresh(data)
      ensures forall r: nat, c: nat :: r < rows && c < cols ==> At(data[..], cols, r, c) == values[r][c]
    {
      var a := new real[rows * cols];
      var r := 0;
      while r < rows
        invariant r <= rows
        invariant forall r': nat, c': nat :: r' < r && c' < cols ==> At(a[..], cols, r', c') == values[r'][c']
      {
        var c := 0;
        while c < cols
          invariant c <= cols
          invariant forall r': nat, c': nat :: (r' < r || (r' == r && c' < c)) && c' < cols
                      ==> At(a[..], cols, r', c') == values[r'][c']
        {
          RowStartBound(r, c, rows, cols);
          ghost var before := a[..];
          AtUpdateAll(before, cols, r, c, values[r][c]);
          a[RowStart(r, cols) + c] := values[r][c];
          assert a[..] == before[RowStart(r, cols) + c := values[r][c]];
          c := c + 1;
        }
        r := r + 1;
      }
      this.rows := rows;
      this.cols := cols;
      data := a;
    }

    /** Matrix(TYPE fill): every entry is fill. */
    constructor Filled(rows: nat, cols: nat, fill: real)
      ensures this.rows == rows && this.cols == cols && Valid() && fresh(data)
      ensures data[..] == VectorAlgebra.Fill(rows * cols, fill)
    {
      var a := new real[rows * cols];
      var r := 0;
      while r < rows
        invariant r <= rows
        invariant RowStart(r, cols) <= a.Length
        invariant forall j :: 0 <= j < RowStart(r, cols) ==> a[j] == fill
      {
        RowInside(r, rows, cols);
        FillRow(a, RowStart(r, cols), cols, fill);
        r := r + 1;
      }
      RowStartIsProduct(rows, cols);
      VectorAlgebra.FillMeaning(a[..], fill);
      this.rows := rows;
      this.cols := cols;
      data := a;
    }

    /** The inner loop of Matrix(TYPE fill): one row of cols entries, from
        flat position start, becomes fill. */
    static method FillRow(a: array<real>, start: nat, cols: nat, fill: real)
      requires start + cols <= a.Length
      modifies a
      ensures forall j :: 0 <= j < a.Length ==> a[j] == if start <= j < start + cols then fill else old(a[j])
    {
      var c := 0;
      while c < cols
        invariant c <= cols
        invariant forall j :: 0 <= j < a.Length ==> a[j] == if start <= j < start + c then fill else old(a[j])
      {
        a[start + c] := fill;
        c := c + 1;
      }
    }

    /** identity(): 1 where the row equals the column, 0 elsewhere. */
    static method Identity(rows: nat, cols: nat) returns (m: Matrix)
      ensures fresh(m) && fresh(m.data) && m.rows == rows && m.cols == cols && m.Valid()
      ensures m.data[..] == MatrixAlgebra.Identity(rows, cols)
    {
      m := new Matrix(rows, cols);
      var r := 0;
      while r < rows
        invariant r <= rows
        invariant forall r': nat, c': nat :: r' < r && c' < cols ==> At(m.data[..], cols, r', c') == if r' == c' then 1.0 else 0.0
      {
        var c := 0;
        while c < cols
          invariant c <= cols
          invariant forall r': nat, c': nat :: (r' < r || (r' == r && c' < c)) && c' < cols
                      ==> At(m.data[..], cols, r', c') == if r' == c' then 1.0 else 0.0
        {
          RowStartBound(r, c, rows, cols);
          var v := if c == r then 1.0 else 0.0;
          ghost var before := m.data[..];
          AtUpdateAll(before, cols, r, c, v);
          m.data[RowStart(r, cols) + c] := v;
          assert m.data[..] == before[RowStart(r, cols) + c := v];
          c := c + 1;
        }
        r := r + 1;
      }
      forall r: nat, c: nat | r < rows && c < cols
        ensures At(m.data[..], cols, r, c) == At(MatrixAlgebra.Identity(rows, cols), cols, r, c)
      {
        AtIdentity(rows, cols, r, c);
      }
      SameMatrix(m.data[..], MatrixAlgebra.Identity(rows, cols), rows, cols);
    }

    /** operator()(row, col), read: data[row * COLS + col]. */
    function Get(r: nat, c: nat): (v: real)
      requires Valid() && r < rows && c < cols
      reads data
      ensures r * cols + c < data.Length && v == data[r * cols + c]
      ensures v == At(data[..], cols, r, c)
    {
      RowStartBound(r, c, rows, cols);
      RowStartIsProduct(r, cols);
      data[RowStart(r, cols) + c]
    }

    /** operator()(row, col), written: data[row * COLS + col] becomes v,
        so entry (r, c) is v and every other entry is unchanged. */
    method Set(r: nat, c: nat, v: real)
      requires Valid() && r < rows && c < cols
      modifies data
      ensures r * cols + c < data.Length && data[..] == old(data[..])[r * cols + c := v]
      ensures Get(r, c) == v
      ensures forall r': nat, c': nat :: r' < rows && c' < cols && (r' != r || c' != c)
                ==> At(data[..], cols, r', c') == At(old(data[..]), cols, r', c')
    {
      RowStartBound(r, c, rows, cols);
      RowStartIsProduct(r, cols);
      ghost var before := data[..];
      AtUpdateAll(before, cols, r, c, v);
      data[RowStart(r, cols) + c] := v;
      assert data[..] == before[RowStart(r, cols) + c := v];
    }

    /** operator*(matrix): result(r, c) starts at 0 and accumulates
        this(r, i) * matrix(i, c) for i = 0 .. COLS-1. */
    method Mul(other: Matrix) returns (result: Matrix)
      requires Valid() && other.Valid() && other.rows == cols
      ensures fresh(result) && fresh(result.data) && result.Valid()
      ensures result.rows == rows && result.cols == other.cols
      ensures result.data[..] == MatMul(data[..], other.data[..], rows, cols, other.cols)
    {
      ghost var a, b := data[..], other.data[..];
      var p := other.cols;
      result := new Matrix(rows, p);
      var r := 0;
      while r < rows
        invariant r <= rows && a == data[..] && b == other.data[..]
        invariant forall r': nat, c': nat :: r' < r && c' < p ==> At(result.data[..], p, r', c') == RowColRange(a, b, cols, p, r', c', 0, cols)
      {
        var c := 0;
        while c < p
          invariant c <= p && a == data[..] && b == other.data[..]
          invariant forall r': nat, c': nat :: (r' < r || (r' == r && c' < c)) && c' < p
                      ==> At(result.data[..], p, r', c') == RowColRange(a, b, cols, p, r', c', 0, cols)
        {
          RowStartBound(r, c, rows, p);
          ghost var before := result.data[..];
          MulCell(other, result, r, c);
          forall r': nat, c': nat | (r' < r || (r' == r && c' <= c)) && c' < p
            ensures At(result.data[..], p, r', c') == RowColRange(a, b, cols, p, r', c', 0, cols)
          {
            AtUpdate(before, p, r, c, RowColRange(a, b, cols, p, r, c, 0, cols), r', c');
          }
          c := c + 1;
        }
        r := r + 1;
      }
      forall r: nat, c: nat | r < rows && c < p
        ensures At(result.data[..], p, r, c) == At(MatMul(a, b, rows, cols, p), p, r, c)
      {
        AtMatMul(a, b, rows, cols, p, r, c);
      }
      SameMatrix(result.data[..], MatMul(a, b, rows, cols, p), rows, p);
    }

    /** The body of operator* for one cell: result(r, c) = 0, then
        result(r, c) += this(r, i) * matrix(i, c) for i = 0 .. COLS-1. */
    method MulCell(other: Matrix, result: Matrix, r: nat, c: nat)
      requires Valid() && other.Valid() && result.Valid() && other.rows == cols
      requires result.rows == rows && result.cols == other.cols && r < rows && c < other.cols
      requires result.data != data && result.data != other.data
      modifies result.data
      ensures RowStart(r, other.cols) + c < result.data.Length
      ensures result.data[..] == old(result.data[..])[RowStart(r, other.cols) + c := RowColRange(data[..], other.data[..], cols, other.cols, r, c, 0, cols)]
    {
      var p := other.cols;
      ghost var a, b := data[..], other.data[..];
      RowStartBound(r, c, rows, p);
      var cell := RowStart(r, p) + c;
      result.data[cell] := 0.0;
      var i := 0;
      while i < cols
        invariant i <= cols && a == data[..] && b == other.data[..]
        invariant result.data[..] == old(result.data[..])[cell := RowColRange(a, b, cols, p, r, c, 0, i)]
      {
        AtRowStart(a, rows, cols, r, i);
        AtRowStart(b, cols, p, i, c);
        var v := result.data[cell] + data[RowStart(r, cols) + i] * other.data[RowStart(i, p) + c];
        assert v == RowColRange(a, b, cols, p, r, c, 0, i + 1);
        result.data[cell] := v;
        i := i + 1;
      }
    }

    /** det() of a square matrix with at least one row. */
    function Det(): (d: real)
      requires Valid() && rows == cols && rows >= 1
      reads data
      ensures rows == 1 ==> d == data[0]
      ensures MatrixAlgebra.IsLower(data[..], rows, rows) || MatrixAlgebra.IsUpper(data[..], rows, rows) ==>
                d == MatrixAlgebra.Diagonal(data[..], rows, 0)
    {
      if rows == 1 then
        MatrixAlgebra.DetOfOne(data[..]);
        MatrixAlgebra.Det(data[..], rows)
      else if MatrixAlgebra.IsLower(data[..], rows, rows) || MatrixAlgebra.IsUpper(data[..], rows, rows) then
        MatrixAlgebra.DetOfTriangular(data[..], rows);
        MatrixAlgebra.Det(data[..], rows)
      else
        MatrixAlgebra.Det(data[..], rows)
    }

    /** inv(): the unpivoted decomposition of *this into l and u, then the
        identity solved in place against them.  When every pivot of that
        decomposition is nonzero (the source divides by each), the result
        is a right inverse. */
    method Inv() returns (inverse: Matrix)
      requires Valid() && rows == cols && Factorable(data[..], rows, 0)
      ensures fresh(inverse) && inverse.Valid() && inverse.rows == rows && inverse.cols == cols
      ensures MatMul(data[..], inverse.data[..], rows, rows, rows) == MatrixAlgebra.Identity(rows, rows)
    {
      var n := rows;
      var l := new Matrix(n, n);
      var u := new Matrix(n, n);
      var ok := Decompose(data, n, l.data, u.data);
      inverse := Identity(n, n);
      ok := Solve(l.data[..], u.data[..], inverse.data, n, n);
      SolveWithFactors(data[..], l.data[..], u.data[..], inverse.data[..], MatrixAlgebra.Identity(n, n), n, n);
    }

    /** equals(matrix, percentageTolerance), with the relative difference
        taken against abs(this(r, c)) (see VectorAlgebra.RelativelyEqual). */
    method Equals(other: Matrix, tolerance: real) returns (b: bool)
      requires Valid() && other.Valid() && other.rows == rows && other.cols == cols
      ensures b == VectorAlgebra.RelativelyEqual(data[..], other.data[..], tolerance)
    {
      RowStartIsProduct(rows, cols);
      var r := 0;
      while r < rows
        invariant r <= rows
        invariant RowStart(r, cols) <= rows * cols
        invariant forall j :: 0 <= j < RowStart(r, cols) ==> VectorAlgebra.ComponentClose(data[j], other.data[j], tolerance)
      {
        RowInside(r, rows, cols);
        var c := 0;
        while c < cols
          invariant c <= cols
          invariant forall j :: 0 <= j < RowStart(r, cols) + c ==> VectorAlgebra.ComponentClose(data[j], other.data[j], tolerance)
        {
          var x, y := data[RowStart(r, cols) + c], other.data[RowStart(r, cols) + c];
          if x == 0.0 {
            if y != 0.0 {
              assert !VectorAlgebra.ComponentClose(data[..][RowStart(r, cols) + c], other.data[..][RowStart(r, cols) + c], tolerance);
              return false;
            }
          } else if Abs(x - y) / Abs(x) > tolerance {
            assert !VectorAlgebra.ComponentClose(data[..][RowStart(r, cols) + c], other.data[..][RowStart(r, cols) + c], tolerance);
            return false;
          }
          c := c + 1;
        }
        r := r + 1;
      }
      return true;
    }

    /** operator*=(scaler). */
    method MulScalarAssign(s: real)
      requires Valid()
      modifies data
      ensures data[..] == VectorAlgebra.Scale(old(data[..]), s)
    {
      ghost var o := data[..];
      RowStartIsProduct(rows, cols);
      var r := 0;
      while r < rows
        invariant r <= rows
        invariant RowStart(r, cols) <= rows * cols
        invariant forall j :: 0 <= j < RowStart(r, cols) ==> data[j] == VectorAlgebra.Scale(o, s)[j]
        invariant forall j :: RowStart(r, cols) <= j < data.Length ==> data[j] == o[j]
      {
        RowInside(r, rows, cols);
        var c := 0;
        while c < cols
          invariant c <= cols
          invariant forall j :: 0 <= j < RowStart(r, cols) + c ==> data[j] == VectorAlgebra.Scale(o, s)[j]
          invariant forall j :: RowStart(r, cols) + c <= j < data.Length ==> data[j] == o[j]
        {
          var k := RowStart(r, cols) + c;
          data[k] := data[k] * s;
          assert data[k] == VectorAlgebra.Scale(o, s)[k];
          c := c + 1;
        }
        r := r + 1;
      }
      assert forall j :: 0 <= j < data.Length ==> data[..][j] == VectorAlgebra.Scale(o, s)[j];
    }

    /** operator/=(scaler); a zero scaler is outside the model. */
    method DivScalarAssign(s: real)
      requires Valid() && s != 0.0
      modifies data
      ensures data[..] == VectorAlgebra.DivScalar(old(data[..]), s)
    {
      ghost var o := data[..];
      RowStartIsProduct(rows, cols);
      var r := 0;
      while r < rows
        invariant r <= rows
        invariant RowStart(r, cols) <= rows * cols
        invariant forall j :: 0 <= j < RowStart(r, cols) ==> data[j] == VectorAlgebra.DivScalar(o, s)[j]
        invariant forall j :: RowStart(r, cols) <= j < data.Length ==> data[j] == o[j]
      {
        RowInside(r, rows, cols);
        var c := 0;
        while c < cols
          invariant c <= cols
          invariant forall j :: 0 <= j < RowStart(r, cols) + c ==> data[j] == VectorAlgebra.DivScalar(o, s)[j]
          invariant forall j :: RowStart(r, cols) + c <= j < data.Length ==> data[j] == o[j]
        {
          var k := RowStart(r, cols) + c;
          data[k] := data[k] / s;
          assert data[k] == VectorAlgebra.DivScalar(o, s)[k];
          c := c + 1;
        }
        r := r + 1;
      }
      assert forall j :: 0 <= j < data.Length ==> data[..][j] == VectorAlgebra.DivScalar(o, s)[j];
    }

    /** operator+=(scaler). */
    method AddScalarAssign(s: real)
      requires Valid()
      modifies data
      ensures data[..] == VectorAlgebra.AddScalar(old(data[..]), s)
    {
      ghost var o := data[..];
      RowStartIsProduct(rows, cols);
      var r := 0;
      while r < rows
        invariant r <= rows
        invariant RowStart(r, cols) <= rows * cols
        invariant forall j :: 0 <= j < RowStart(r, cols) ==> data[j] == VectorAlgebra.AddScalar(o, s)[j]
        invariant forall j :: RowStart(r, cols) <= j < data.Length ==> data[j] == o[j]
      {
        RowInside(r, rows, cols);
        var c := 0;
        while c < cols
          invariant c <= cols
          invariant forall j :: 0 <= j < RowStart(r, cols) + c ==> data[j] == VectorAlgebra.AddScalar(o, s)[j]
          invariant forall j :: RowStart(r, cols) + c <= j < data.Length ==> data[j] == o[j]
        {
          var k := RowStart(r, cols) + c;
          data[k] := data[k] + s;
          assert data[k] == VectorAlgebra.AddScalar(o, s)[k];
          c := c + 1;
        }
        r := r + 1;
      }
      assert forall j :: 0 <= j < data.Length ==> data[..][j] == VectorAlgebra.AddScalar(o, s)[j];
    }

    /** operator-=(scaler). */
    method SubScalarAssign(s: real)
      requires Valid()
      modifies data
      ensures data[..] == VectorAlgebra.SubScalar(old(data[..]), s)
    {
      ghost var o := data[..];
      RowStartIsProduct(rows, cols);
      var r := 0;
      while r < rows
        invariant r <= rows
        invariant RowStart(r, cols) <= rows * cols
        invariant forall j :: 0 <= j < RowStart(r, cols) ==> data[j] == VectorAlgebra.SubScalar(o, s)[j]
        invariant forall j :: RowStart(r, cols) <= j < data.Length ==> data[j] == o[j]
      {
        RowInside(r, rows, cols);
        var c := 0;
        while c < cols
          invariant c <= cols
          invariant forall j :: 0 <= j < RowStart(r, cols) + c ==> data[j] == VectorAlgebra.SubScalar(o, s)[j]
          invariant forall j :: RowStart(r, cols) + c <= j < data.Length ==> data[j] == o[j]
        {
          var k := RowStart(r, cols) + c;
          data[k] := data[k] - s;
          assert data[k] == VectorAlgebra.SubScalar(o, s)[k];
          c := c + 1;
        }
        r := r + 1;
      }
      assert forall j :: 0 <= j < data.Length ==> data[..][j] == VectorAlgebra.SubScalar(o, s)[j];
    }

    /** transposed(): the COLS x ROWS matrix t with t(r, c) == this(c, r). */
    method Transposed() returns (t: Matrix)
      requires Valid()
      ensures fresh(t) && fresh(t.data) && t.Valid() && t.rows == cols && t.cols == rows
      ensures t.data[..] == MatrixAlgebra.Transpose(data[..], rows, cols)
    {
      ghost var a := data[..];
      t := new Matrix(cols, rows);
      var r := 0;
      while r < cols
        invariant r <= cols && a == data[..]
        invariant forall r': nat, c': nat :: r' < r && c' < rows ==> At(t.data[..], rows, r', c') == At(a, cols, c', r')
      {
        TransposeRow(t, r);
        r := r + 1;
      }
      forall r: nat, c: nat | r < cols && c < rows
        ensures At(t.data[..], rows, r, c) == At(MatrixAlgebra.Transpose(a, rows, cols), rows, r, c)
      {
        AtTranspose(a, rows, cols, r, c);
      }
      SameMatrix(t.data[..], MatrixAlgebra.Transpose(a, rows, cols), cols, rows);
    }

    /** The inner loop of transposed() for row r of the result: matrix(r, c)
        = this(c, r) for every c, and the other rows stay as they were. */
    method TransposeRow(t: Matrix, r: nat)
      requires Valid() && t.Valid() && t.rows == cols && t.cols == rows && r < cols && t.data != data
      modifies t.data
      ensures forall r': nat, c': nat :: c' < rows ==>
                At(t.data[..], rows, r', c') == if r' == r then At(data[..], cols, c', r) else At(old(t.data[..]), rows, r', c')
    {
      ghost var t0 := t.data[..];
      var c := 0;
      while c < rows
        invariant c <= rows
        invariant forall r': nat, c': nat :: c' < rows ==>
                    At(t.data[..], rows, r', c') == if r' == r && c' < c then At(data[..], cols, c', r) else At(t0, rows, r', c')
      {
        RowStartBound(r, c, cols, rows);
        AtRowStart(data[..], rows, cols, c, r);
        var v := data[RowStart(c, cols) + r];
        ghost var before := t.data[..];
        t.data[RowStart(r, rows) + c] := v;
        assert t.data[..] == before[RowStart(r, rows) + c := v];
        forall r': nat, c': nat | c' < rows
          ensures At(t.data[..], rows, r', c') == if r' == r && c' <= c then At(data[..], cols, c', r) else At(t0, rows, r', c')
        {
          AtUpdate(before, rows, r, c, v, r', c');
        }
        c := c + 1;
      }
    }

    /** transpose(): *this = transposed(), which only type-checks for a
        square matrix. */
    method Transpose()
      requires Valid() && rows == cols
      modifies data
      ensures data[..] == MatrixAlgebra.Transpose(old(data[..]), rows, cols)
    {
      var t := Transposed();
      ghost var tt := t.data[..];
      var i := 0;
      while i < data.Length
        invariant i <= data.Length && t.data[..] == tt
        invariant forall j :: 0 <= j < i ==> data[j] == tt[j]
      {
        data[i] := t.data[i];
        i := i + 1;
      }
      assert data[..] == tt;
    }

    /** isUpper(): rows 1 .. ROWS-1 are scanned over columns 0 .. row-1 for a
        nonzero entry.  The scan reads data[row * COLS + col] with col up to
        ROWS-2, which stays inside the row only while ROWS <= COLS + 1. */
    method IsUpper() returns (b: bool)
      requires Valid() && rows <= cols + 1
      ensures b == MatrixAlgebra.IsUpper(data[..], rows, cols)
    {
      var r := 1;
      while r < rows
        invariant 1 <= r <= rows || rows == 0
        invariant forall r': nat, c': nat :: c' < r' < r && r' < rows ==> At(data[..], cols, r', c') == 0.0
      {
        var c := 0;
        while c < r
          invariant c <= r
          invariant forall r': nat, c': nat :: c' < r' && r' < rows && (r' < r || (r' == r && c' < c)) ==> At(data[..], cols, r', c') == 0.0
        {
          RowStartBound(r, c, rows, cols);
          if data[RowStart(r, cols) + c] != 0.0 {
            assert At(data[..], cols, r, c) != 0.0;
            return false;
          }
          c := c + 1;
        }
        r := r + 1;
      }
      return true;
    }

    /** isLower(): every row is scanned right of the diagonal for a nonzero
        entry. */
    method IsLower() returns (b: bool)
      requires Valid()
      ensures b == MatrixAlgebra.IsLower(data[..], rows, cols)
    {
      var r := 0;
      while r < rows
        invariant r <= rows
        invariant forall r': nat, c': nat :: r' < r && r' < c' < cols ==> At(data[..], cols, r', c') == 0.0
      {
        var c := r + 1;
        while c < cols
          invariant r + 1 <= c || cols <= r + 1
          invariant forall r': nat, c': nat :: r' < c' < cols && (r' < r || (r' == r && c' < c)) ==> At(data[..], cols, r', c') == 0.0
        {
          RowStartBound(r, c, rows, cols);
          if data[RowStart(r, cols) + c] != 0.0 {
            assert At(data[..], cols, r, c) != 0.0;
            return false;
          }
          c := c + 1;
        }
        r := r + 1;
      }
      return true;
    }

    /** isSingular(tolerance), as the evidently intended test
        abs(det()) <= tolerance (see MatrixAlgebra.IsSingularAsWritten for
        the signed comparison the source writes). */
    function IsSingular(tolerance: real): (b: bool)
      requires Valid() && rows == cols && rows >= 1
      reads data
      ensures b <==> -tolerance <= Det() <= tolerance
      ensures b ==> MatrixAlgebra.IsSingularAsWritten(data[..], rows, tolerance)
    {
      MatrixAlgebra.IsSingular(data[..], rows, tolerance)
    }
  }

  /** operator==(matrix1, matrix2): false when the dimensions differ,
      otherwise exact entry-by-entry comparison. */
  method Equal(m1: Matrix, m2: Matrix) returns (b: bool)
    requires m1.Valid() && m2.Valid()
    ensures b <==> m1.rows == m2.rows && m1.cols == m2.cols && m1.data[..] == m2.data[..]
  {
    if m1.rows != m2.rows || m1.cols != m2.cols {
      return false;
    }
    var rows, cols := m1.rows, m1.cols;
    RowStartIsProduct(rows, cols);
    var r := 0;
    while r < rows
      invariant r <= rows
      invariant RowStart(r, cols) <= rows * cols
      invariant forall j :: 0 <= j < RowStart(r, cols) ==> m1.data[j] == m2.data[j]
    {
      RowInside(r, rows, cols);
      var c := 0;
      while c < cols
        invariant c <= cols
        invariant forall j :: 0 <= j < RowStart(r, cols) + c ==> m1.data[j] == m2.data[j]
      {
        if m1.data[RowStart(r, cols) + c] != m2.data[RowStart(r, cols) + c] {
          assert m1.data[..][RowStart(r, cols) + c] != m2.data[..][RowStart(r, cols) + c];
          return false;
        }
        c := c + 1;
      }
      r := r + 1;
    }
    assert m1.data[..] == m2.data[..];
    return true;
  }
}
