module LUDecomposition {
  import opened MathUtil
  import opened MatrixAlgebra

  // ---------------------------------------------------------------------
  // RowOperation: loops over SIZE consecutive entries of a flat array
  // ---------------------------------------------------------------------

  /** s with the size entries from start multiplied by f, entry by entry
      from the first. */
  function Multiplied(s: seq<real>, start: nat, size: nat, f: real): (t: seq<real>)
    requires start + size <= |s|
    ensures |t| == |s|
    decreases size
  {
    if size == 0 then s
    else Multiplied(s, start, size - 1, f)[start + size - 1 := s[start + size - 1] * f]
  }

  /** s with each of the size entries from into incremented by the entry
      at the same offset from add times f. */
  function RowAdded(s: seq<real>, into: nat, add: nat, size: nat, f: real): (t: seq<real>)
    requires into + size <= |s| && add + size <= |s|
    ensures |t| == |s|
    decreases size
  {
    if size == 0 then s
    else RowAdded(s, into, add, size - 1, f)[into + size - 1 := s[into + size - 1] + s[add + size - 1] * f]
  }

  /** s with the runs of size entries from first and from second exchanged. */
  function Swapped(s: seq<real>, first: nat, second: nat, size: nat): (t: seq<real>)
    requires first + size <= |s| && second + size <= |s|
    ensures |t| == |s|
    decreases size
  {
    if size == 0 then s
    else Swapped(s, first, second, size - 1)[first + size - 1 := s[second + size - 1]][second + size - 1 := s[first + size - 1]]
  }

  lemma MultipliedStep(s: seq<real>, start: nat, i: nat, f: real)
    requires start + i < |s|
    ensures Multiplied(s, start, i + 1, f) == Multiplied(s, start, i, f)[start + i := s[start + i] * f]
  {
  }

  lemma {:induction false} MultipliedInside(s: seq<real>, start: nat, size: nat, f: real, i: nat)
    requires start <= i < start + size <= |s|
    ensures Multiplied(s, start, size, f)[i] == s[i] * f
  {
    if i < start + size - 1 {
      MultipliedInside(s, start, size - 1, f, i);
    }
  }

  lemma {:induction false} MultipliedOutside(s: seq<real>, start: nat, size: nat, f: real, i: nat)
    requires start + size <= |s| && i < |s| && !(start <= i < start + size)
    ensures Multiplied(s, start, size, f)[i] == s[i]
  {
    if size > 0 {
      MultipliedOutside(s, start, size - 1, f, i);
    }
  }

  lemma {:induction false} RowAddedInside(s: seq<real>, into: nat, add: nat, size: nat, f: real, i: nat, j: nat)
    requires into <= i < into + size <= |s| && add + size <= |s| && j == add + (i - into)
    ensures RowAdded(s, into, add, size, f)[i] == s[i] + s[j] * f
  {
    if i < into + size - 1 {
      RowAddedInside(s, into, add, size - 1, f, i, j);
    }
  }

  lemma {:induction false} RowAddedOutside(s: seq<real>, into: nat, add: nat, size: nat, f: real, i: nat)
    requires into + size <= |s| && add + size <= |s| && i < |s| && !(into <= i < into + size)
    ensures RowAdded(s, into, add, size, f)[i] == s[i]
  {
    if size > 0 {
      RowAddedOutside(s, into, add, size - 1, f, i);
    }
  }

  lemma {:induction false} SwappedFirst(s: seq<real>, first: nat, second: nat, size: nat, i: nat, j: nat)
    requires first <= i < first + size <= |s| && second + size <= |s| && !(second <= i < second + size)
    requires j == second + (i - first)
    ensures Swapped(s, first, second, size)[i] == s[j]
  {
    if i < first + size - 1 {
      SwappedFirst(s, first, second, size - 1, i, j);
    }
  }

  lemma {:induction false} SwappedSecond(s: seq<real>, first: nat, second: nat, size: nat, i: nat, j: nat)
    requires first + size <= |s| && second <= i < second + size <= |s| && !(first <= i < first + size)
    requires j == first + (i - second)
    ensures Swapped(s, first, second, size)[i] == s[j]
  {
    if i < second + size - 1 {
      SwappedSecond(s, first, second, size - 1, i, j);
    }
  }

  lemma {:induction false} SwappedOutside(s: seq<real>, first: nat, second: nat, size: nat, i: nat)
    requires first + size <= |s| && second + size <= |s| && i < |s|
    requires !(first <= i < first + size) && !(second <= i < second + size)
    ensures Swapped(s, first, second, size)[i] == s[i]
  {
    if size > 0 {
      SwappedOutside(s, first, second, size - 1, i);
    }
  }

  /** RowOperation<SIZE>::multiply with intoRow == row (as in every call):
      the size entries from start are multiplied by factor. */
  method Multiply(a: array<real>, start: nat, size: nat, factor: real)
    requires start + size <= a.Length
    modifies a
    ensures a[..] == Multiplied(old(a[..]), start, size, factor)
  {
    ghost var s := a[..];
    var i: nat := 0;
    while i < size
      invariant 0 <= i <= size
      invariant a[..] == Multiplied(s, start, i, factor)
    {
      MultipliedOutside(s, start, i, factor, start + i);
      var v := a[start + i] * factor;
      assert v == s[start + i] * factor;
      ghost var before := a[..];
      a[start + i] := v;
      assert a[..] == before[start + i := v];
      MultipliedStep(s, start, i, factor);
      i := i + 1;
    }
  }

  /** RowOperation<SIZE>::addRowTimesFactor with intoRow == srcRow (as in
      every call) and addRow a different row of the same array. */
  method AddRowTimesFactor(a: array<real>, into: nat, add: nat, size: nat, factor: real)
    requires into + size <= a.Length && add + size <= a.Length
    requires into + size <= add || add + size <= into
    modifies a
    ensures a[..] == RowAdded(old(a[..]), into, add, size, factor)
  {
    ghost var s := a[..];
    var i: nat := 0;
    while i < size
      invariant 0 <= i <= size
      invariant a[..] == RowAdded(s, into, add, i, factor)
    {
      RowAddedOutside(s, into, add, i, factor, into + i);
      RowAddedOutside(s, into, add, i, factor, add + i);
      var v := a[into + i] + a[add + i] * factor;
      ghost var before := a[..];
      a[into + i] := v;
      assert a[..] == before[into + i := v];
      i := i + 1;
    }
  }

  /** RowOperation<SIZE>::swap of two non-overlapping runs of entries. */
  method Swap(a: array<real>, first: nat, second: nat, size: nat)
    requires first + size <= a.Length && second + size <= a.Length
    requires first + size <= second || second + size <= first
    modifies a
    ensures a[..] == Swapped(old(a[..]), first, second, size)
  {
    ghost var s := a[..];
    var i: nat := 0;
    while i < size
      invariant 0 <= i <= size
      invariant a[..] == Swapped(s, first, second, i)
    {
      SwappedOutside(s, first, second, i, first + i);
      SwappedOutside(s, first, second, i, second + i);
      var tmp := a[first + i];
      ghost var before := a[..];
      a[first + i] := a[second + i];
      a[second + i] := tmp;
      assert a[..] == before[first + i := s[second + i]][second + i := s[first + i]];
      i := i + 1;
    }
  }

  // ---------------------------------------------------------------------
  // The effect of a row operation on the entries of a row-major matrix
  // ---------------------------------------------------------------------

  /** Row a ends no later than row b begins. */
  lemma RowBefore(a: nat, b: nat, n: nat)
    requires a < b
    ensures a * n + n <= b * n
  {
    MulMono(a + 1, b, n);
  }

  /** t is the h x w matrix s with columns lo .. hi-1 of row row multiplied
      by f; start is where that run begins in the flat data. */
  ghost predicate RowMultiplication(s: seq<real>, t: seq<real>, h: nat, w: nat, row: nat, lo: nat, hi: nat,
                                    start: nat, f: real)
  {
    && |s| == h * w && row < h && lo <= hi <= w && start == RowStart(row, w) + lo
    && start + (hi - lo) <= |s| && t == Multiplied(s, start, hi - lo, f)
  }

  lemma MultiplyEffect(s: seq<real>, t: seq<real>, h: nat, w: nat, row: nat, lo: nat, hi: nat, start: nat, f: real)
    requires RowMultiplication(s, t, h, w, row, lo, hi, start, f)
    ensures forall r: nat, c: nat :: r < h && c < w ==>
              At(t, w, r, c) == if r == row && lo <= c < hi then At(s, w, r, c) * f else At(s, w, r, c)
  {
    forall r: nat, c: nat | r < h && c < w
      ensures At(t, w, r, c) == if r == row && lo <= c < hi then At(s, w, r, c) * f else At(s, w, r, c)
    {
      MultiplyEntry(s, t, h, w, row, lo, hi, start, f, r, c);
    }
  }

  lemma MultiplyEntry(s: seq<real>, t: seq<real>, h: nat, w: nat, row: nat, lo: nat, hi: nat, start: nat, f: real,
                      r: nat, c: nat)
    requires RowMultiplication(s, t, h, w, row, lo, hi, start, f) && r < h && c < w
    ensures At(t, w, r, c) == if r == row && lo <= c < hi then At(s, w, r, c) * f else At(s, w, r, c)
  {
    RowStartBound(r, c, h, w);
    RowStartSegment(row, lo, hi, r, c, w);
    if r == row && lo <= c < hi {
      MultipliedInside(s, start, hi - lo, f, RowStart(r, w) + c);
    } else {
      MultipliedOutside(s, start, hi - lo, f, RowStart(r, w) + c);
    }
  }

  /** t is the h x w matrix s after columns lo .. hi-1 of row other,
      times f, are added to the same columns of row row. */
  ghost predicate RowAddition(s: seq<real>, t: seq<real>, h: nat, w: nat, row: nat, other: nat, lo: nat, hi: nat,
                              into: nat, add: nat, f: real)
  {
    && |s| == h * w && row < h && other < h && lo <= hi <= w
    && into == RowStart(row, w) + lo && add == RowStart(other, w) + lo && add + (hi - lo) <= |s|
    && into + (hi - lo) <= |s| && t == RowAdded(s, into, add, hi - lo, f)
  }

  lemma AddRowEffect(s: seq<real>, t: seq<real>, h: nat, w: nat, row: nat, other: nat, lo: nat, hi: nat,
                     into: nat, add: nat, f: real)
    requires RowAddition(s, t, h, w, row, other, lo, hi, into, add, f)
    ensures forall r: nat, c: nat :: r < h && c < w ==>
              At(t, w, r, c) == if r == row && lo <= c < hi then At(s, w, r, c) + At(s, w, other, c) * f else At(s, w, r, c)
  {
    forall r: nat, c: nat | r < h && c < w
      ensures At(t, w, r, c) == if r == row && lo <= c < hi then At(s, w, r, c) + At(s, w, other, c) * f else At(s, w, r, c)
    {
      AddRowEntry(s, t, h, w, row, other, lo, hi, into, add, f, r, c);
    }
  }

  lemma AddRowEntry(s: seq<real>, t: seq<real>, h: nat, w: nat, row: nat, other: nat, lo: nat, hi: nat,
                    into: nat, add: nat, f: real, r: nat, c: nat)
    requires RowAddition(s, t, h, w, row, other, lo, hi, into, add, f) && r < h && c < w
    ensures At(t, w, r, c) == if r == row && lo <= c < hi then At(s, w, r, c) + At(s, w, other, c) * f else At(s, w, r, c)
  {
    RowStartBound(r, c, h, w);
    RowStartSegment(row, lo, hi, r, c, w);
    if r == row && lo <= c < hi {
      RowStartBound(other, c, h, w);
      RowAddedInside(s, into, add, hi - lo, f, RowStart(r, w) + c, RowStart(other, w) + c);
    } else {
      RowAddedOutside(s, into, add, hi - lo, f, RowStart(r, w) + c);
    }
  }

  /** t is the h x w matrix s with columns lo .. hi-1 of rows row1 and row2
      exchanged. */
  ghost predicate RowExchange(s: seq<real>, t: seq<real>, h: nat, w: nat, row1: nat, row2: nat, lo: nat, hi: nat,
                              first: nat, second: nat)
  {
    && |s| == h * w && row1 < h && row2 < h && row1 != row2 && lo <= hi <= w
    && first == RowStart(row1, w) + lo && second == RowStart(row2, w) + lo
    && first + (hi - lo) <= |s| && second + (hi - lo) <= |s|
    && t == Swapped(s, first, second, hi - lo)
  }

  lemma SwapEffect(s: seq<real>, t: seq<real>, h: nat, w: nat, row1: nat, row2: nat, lo: nat, hi: nat,
                   first: nat, second: nat)
    requires RowExchange(s, t, h, w, row1, row2, lo, hi, first, second)
    ensures forall r: nat, c: nat :: r < h && c < w ==>
              At(t, w, r, c) == if lo <= c < hi && r == row1 then At(s, w, row2, c)
                                else if lo <= c < hi && r == row2 then At(s, w, row1, c)
                                else At(s, w, r, c)
  {
    forall r: nat, c: nat | r < h && c < w
      ensures At(t, w, r, c) == if lo <= c < hi && r == row1 then At(s, w, row2, c)
                                else if lo <= c < hi && r == row2 then At(s, w, row1, c)
                                else At(s, w, r, c)
    {
      SwapEntry(s, t, h, w, row1, row2, lo, hi, first, second, r, c);
    }
  }

  lemma SwapEntry(s: seq<real>, t: seq<real>, h: nat, w: nat, row1: nat, row2: nat, lo: nat, hi: nat,
                  first: nat, second: nat, r: nat, c: nat)
    requires RowExchange(s, t, h, w, row1, row2, lo, hi, first, second) && r < h && c < w
    ensures At(t, w, r, c) == if lo <= c < hi && r == row1 then At(s, w, row2, c)
                              else if lo <= c < hi && r == row2 then At(s, w, row1, c)
                              else At(s, w, r, c)
  {
    RowStartBound(r, c, h, w);
    RowStartSegment(row1, lo, hi, r, c, w);
    RowStartSegment(row2, lo, hi, r, c, w);
    if lo <= c < hi && r == row1 {
      SwapEntryFirst(s, t, h, w, row1, row2, lo, hi, first, second, c);
    } else if lo <= c < hi && r == row2 {
      SwapEntrySecond(s, t, h, w, row1, row2, lo, hi, first, second, c);
    } else {
      SwappedOutside(s, first, second, hi - lo, RowStart(r, w) + c);
    }
  }

  lemma SwapEntryFirst(s: seq<real>, t: seq<real>, h: nat, w: nat, row1: nat, row2: nat, lo: nat, hi: nat,
                       first: nat, second: nat, c: nat)
    requires RowExchange(s, t, h, w, row1, row2, lo, hi, first, second) && lo <= c < hi
    ensures At(t, w, row1, c) == At(s, w, row2, c)
  {
    RowStartBound(row1, c, h, w);
    RowStartBound(row2, c, h, w);
    RowStartSegment(row2, lo, hi, row1, c, w);
    SwappedFirst(s, first, second, hi - lo, RowStart(row1, w) + c, RowStart(row2, w) + c);
  }

  lemma SwapEntrySecond(s: seq<real>, t: seq<real>, h: nat, w: nat, row1: nat, row2: nat, lo: nat, hi: nat,
                        first: nat, second: nat, c: nat)
    requires RowExchange(s, t, h, w, row1, row2, lo, hi, first, second) && lo <= c < hi
    ensures At(t, w, row2, c) == At(s, w, row1, c)
  {
    RowStartBound(row1, c, h, w);
    RowStartBound(row2, c, h, w);
    RowStartSegment(row1, lo, hi, row2, c, w);
    SwappedSecond(s, first, second, hi - lo, RowStart(row2, w) + c, RowStart(row1, w) + c);
  }

  // ---------------------------------------------------------------------
  // One elimination step: LUSubDecomposition<OFFSET = k>::decompose(u, l)
  // ---------------------------------------------------------------------

  /** Entry (r, c) of u after step k: row k divided by its pivot (the
      pivot itself set to 1), column k below the pivot set to 0, and pivot
      row times u(r, k) subtracted from every lower row. */
  function EliminatedEntry(u: seq<real>, n: nat, k: nat, r: nat, c: nat): real
    requires At(u, n, k, k) != 0.0
  {
    var pivot := At(u, n, k, k);
    if r < k || c < k then At(u, n, r, c)
    else if r == k then (if c == k then 1.0 else At(u, n, k, c) * (1.0 / pivot))
    else if c == k then 0.0
    else At(u, n, r, c) + (At(u, n, k, c) * (1.0 / pivot)) * -At(u, n, r, k)
  }

  /** EliminatedEntry at flat position i. */
  function EliminatedAt(u: seq<real>, n: nat, k: nat, i: nat): real
    requires At(u, n, k, k) != 0.0 && i < n * n
  {
    IndexOf(i, n, n);
    EliminatedEntry(u, n, k, i / n, i % n)
  }

  function EliminateU(u: seq<real>, n: nat, k: nat): seq<real>
    requires At(u, n, k, k) != 0.0
  {
    seq(n * n, i requires 0 <= i < n * n => EliminatedAt(u, n, k, i))
  }

  /** Entry (r, c) of l after step k: column k from the pivot down records
      the column k of u before the step. */
  function RecordedEntry(u: seq<real>, l: seq<real>, n: nat, k: nat, r: nat, c: nat): real
  {
    if c == k && r >= k then At(u, n, r, k) else At(l, n, r, c)
  }

  /** RecordedEntry at flat position i. */
  function RecordedAt(u: seq<real>, l: seq<real>, n: nat, k: nat, i: nat): real
    requires i < n * n
  {
    IndexOf(i, n, n);
    RecordedEntry(u, l, n, k, i / n, i % n)
  }

  function EliminateL(u: seq<real>, l: seq<real>, n: nat, k: nat): seq<real>
  {
    seq(n * n, i requires 0 <= i < n * n => RecordedAt(u, l, n, k, i))
  }

  lemma AtEliminate(u: seq<real>, l: seq<real>, n: nat, k: nat, r: nat, c: nat)
    requires r < n && c < n && At(u, n, k, k) != 0.0
    ensures At(EliminateU(u, n, k), n, r, c) == EliminatedEntry(u, n, k, r, c)
    ensures At(EliminateL(u, l, n, k), n, r, c) == RecordedEntry(u, l, n, k, r, c)
  {
    IndexBounds(r, c, n, n);
    IndexSplit(r, c, n);
    AtEntry(EliminateU(u, n, k), n, n, r, c);
    AtEntry(EliminateL(u, l, n, k), n, n, r, c);
  }

  /** Every pivot met by the unpivoted decomposition from step k on is
      nonzero (the source divides by each one). */
  predicate Factorable(u: seq<real>, n: nat, k: nat)
    decreases n - k
  {
    k >= n || (At(u, n, k, k) != 0.0 && Factorable(EliminateU(u, n, k), n, k + 1))
  }

  /** The state after k steps: columns k.. of l are still those of the
      identity, columns ..k-1 of l are lower triangular with nonzero
      diagonal, rows ..k-1 of u have 1 on the diagonal, u is 0 below the
      diagonal in columns ..k-1, and l * u restricted to the finished
      columns, plus the remaining rows of u, is a. */
  ghost predicate Factored(a: seq<real>, l: seq<real>, u: seq<real>, n: nat, k: nat)
  {
    && k <= n && |a| == n * n && |l| == n * n && |u| == n * n
    && (forall r: nat, c: nat :: r < n && k <= c < n ==> At(l, n, r, c) == if r == c then 1.0 else 0.0)
    && (forall r: nat, c: nat :: r < c < k ==> At(l, n, r, c) == 0.0)
    && (forall c: nat :: c < k ==> At(l, n, c, c) != 0.0)
    && (forall r: nat :: r < k ==> At(u, n, r, r) == 1.0)
    && (forall r: nat, c: nat :: c < r < n && c < k ==> At(u, n, r, c) == 0.0)
    && (forall r: nat, c: nat :: r < n && c < n ==>
          RowColRange(l, u, n, n, r, c, 0, k) + (if r >= k then At(u, n, r, c) else 0.0) == At(a, n, r, c))
  }

  lemma FactoredStart(a: seq<real>, n: nat)
    requires |a| == n * n
    ensures Factored(a, Identity(n, n), a, n, 0)
  {
    forall r: nat, c: nat | r < n && c < n
      ensures At(Identity(n, n), n, r, c) == if r == c then 1.0 else 0.0
    {
      AtIdentity(n, n, r, c);
    }
  }

  lemma RowColRangeLast(a: seq<real>, b: seq<real>, m: nat, p: nat, r: nat, c: nat, k: nat)
    ensures RowColRange(a, b, m, p, r, c, 0, k + 1) == RowColRange(a, b, m, p, r, c, 0, k) + At(a, m, r, k) * At(b, p, k, c)
  {
  }

  /** One entry of the product invariant across step k, stated over the
      entries the step reads and writes. */
  lemma StepEntry(l: seq<real>, u: seq<real>, l2: seq<real>, u2: seq<real>, n: nat, k: nat, r: nat, c: nat)
    requires k < n && r < n && c < n && At(u, n, k, k) != 0.0
    requires RowColRange(l, u, n, n, r, c, 0, k) == RowColRange(l2, u2, n, n, r, c, 0, k)
    requires At(l2, n, r, k) == if r >= k then At(u, n, r, k) else At(l, n, r, k)
    requires r < k ==> At(l, n, r, k) == 0.0
    requires c < k ==> At(u, n, k, c) == 0.0
    requires At(u2, n, k, c) == EliminatedEntry(u, n, k, k, c)
    requires r > k ==> At(u2, n, r, c) == EliminatedEntry(u, n, k, r, c)
    ensures RowColRange(l2, u2, n, n, r, c, 0, k + 1) + (if r >= k + 1 then At(u2, n, r, c) else 0.0)
            == RowColRange(l, u, n, n, r, c, 0, k) + (if r >= k then At(u, n, r, c) else 0.0)
  {
    RowColRangeLast(l2, u2, n, n, r, c, k);
    var pivot, ukc := At(u, n, k, k), At(u, n, k, c);
    var y := At(u2, n, k, c);
    assert y == if c < k then 0.0 else if c == k then 1.0 else ukc * (1.0 / pivot);
    if r == k {
      PivotRowEntry(pivot, ukc, y, c, k);
    } else if r > k {
      LowerRowEntry(pivot, ukc, y, At(u, n, r, k), At(u, n, r, c), At(u2, n, r, c), c, k);
    }
  }

  lemma PivotRowEntry(pivot: real, ukc: real, y: real, c: nat, k: nat)
    requires pivot != 0.0 && (c < k ==> ukc == 0.0)
    requires y == if c < k then 0.0 else if c == k then 1.0 else ukc * (1.0 / pivot)
    ensures pivot * y == if c == k then pivot else ukc
  {
  }

  lemma LowerRowEntry(pivot: real, ukc: real, y: real, q: real, urc: real, e: real, c: nat, k: nat)
    requires pivot != 0.0 && (c < k ==> ukc == 0.0)
    requires y == if c < k then 0.0 else if c == k then 1.0 else ukc * (1.0 / pivot)
    requires e == if c < k then urc else if c == k then 0.0 else urc + (ukc * (1.0 / pivot)) * -q
    ensures q * y + e == if c == k then q else urc
  {
  }

  lemma FactoredStep(a: seq<real>, l: seq<real>, u: seq<real>, n: nat, k: nat)
    requires Factored(a, l, u, n, k) && k < n && At(u, n, k, k) != 0.0
    ensures Factored(a, EliminateL(u, l, n, k), EliminateU(u, n, k), n, k + 1)
  {
    var l2, u2 := EliminateL(u, l, n, k), EliminateU(u, n, k);
    forall r: nat, c: nat | r < n && c < n
      ensures At(u2, n, r, c) == EliminatedEntry(u, n, k, r, c)
      ensures At(l2, n, r, c) == RecordedEntry(u, l, n, k, r, c)
    {
      AtEliminate(u, l, n, k, r, c);
    }
    forall r: nat, c: nat | r < n && c < n
      ensures RowColRange(l2, u2, n, n, r, c, 0, k + 1) + (if r >= k + 1 then At(u2, n, r, c) else 0.0) == At(a, n, r, c)
    {
      RowColRangeFrame(l, u, l2, u2, n, n, r, r, c, 0, k);
      StepEntry(l, u, l2, u2, n, k, r, c);
    }
  }

  lemma FactoredComplete(a: seq<real>, l: seq<real>, u: seq<real>, n: nat)
    requires Factored(a, l, u, n, n)
    ensures MatMul(l, u, n, n, n) == a
    ensures IsLower(l, n, n) && IsUpper(u, n, n)
    ensures forall k: nat :: k < n ==> At(u, n, k, k) == 1.0 && At(l, n, k, k) != 0.0
  {
    forall r: nat, c: nat | r < n && c < n
      ensures At(MatMul(l, u, n, n, n), n, r, c) == At(a, n, r, c)
    {
      AtMatMul(l, u, n, n, n, r, c);
    }
    SameMatrix(MatMul(l, u, n, n, n), a, n, n);
  }

  // ---------------------------------------------------------------------
  // The unpivoted decomposition
  // ---------------------------------------------------------------------

  /** u part way through step k: rows before j are eliminated, the rest
      are as before the step. */
  ghost predicate EliminatedRows(ua: seq<real>, u0: seq<real>, n: nat, k: nat, j: nat)
    requires At(u0, n, k, k) != 0.0
  {
    && |ua| == n * n
    && forall r: nat, c: nat {:trigger At(ua, n, r, c)} :: r < n && c < n ==>
         At(ua, n, r, c) == if r < j then EliminatedEntry(u0, n, k, r, c) else At(u0, n, r, c)
  }

  /** l part way through step k: rows before j have their column k
      recorded, the rest are as before the step. */
  ghost predicate RecordedRows(la: seq<real>, u0: seq<real>, l0: seq<real>, n: nat, k: nat, j: nat)
  {
    && |la| == n * n
    && forall r: nat, c: nat {:trigger At(la, n, r, c)} :: r < n && c < n ==>
         At(la, n, r, c) == if r < j then RecordedEntry(u0, l0, n, k, r, c) else At(l0, n, r, c)
  }

  lemma RowsComplete(ua: seq<real>, la: seq<real>, u0: seq<real>, l0: seq<real>, n: nat, k: nat)
    requires At(u0, n, k, k) != 0.0
    requires EliminatedRows(ua, u0, n, k, n) && RecordedRows(la, u0, l0, n, k, n)
    ensures ua == EliminateU(u0, n, k) && la == EliminateL(u0, l0, n, k)
  {
    forall r: nat, c: nat | r < n && c < n
      ensures At(ua, n, r, c) == At(EliminateU(u0, n, k), n, r, c)
      ensures At(la, n, r, c) == At(EliminateL(u0, l0, n, k), n, r, c)
    {
      AtEliminate(u0, l0, n, k, r, c);
    }
    SameMatrix(ua, EliminateU(u0, n, k), n, n);
    SameMatrix(la, EliminateL(u0, l0, n, k), n, n);
  }

  /** The pivot row of step k: the pivot is recorded in l and replaced by 1,
      and the rest of the row is multiplied by the pivot's reciprocal. */
  lemma PivotRowDone(u0: seq<real>, l0: seq<real>, u1: seq<real>, u2: seq<real>, n: nat, k: nat, start: nat)
    requires |u0| == n * n && |l0| == n * n && k < n && At(u0, n, k, k) != 0.0
    requires start == RowStart(k, n) + k + 1 && start + (n - (k + 1)) <= n * n
    requires u1 == u0[RowStart(k, n) + k := 1.0]
    requires u2 == Multiplied(u1, start, n - (k + 1), 1.0 / At(u0, n, k, k))
    ensures EliminatedRows(u2, u0, n, k, k + 1)
    ensures RecordedRows(l0[RowStart(k, n) + k := At(u0, n, k, k)], u0, l0, n, k, k + 1)
  {
    RowStartBound(k, k, n, n);
    assert RowMultiplication(u1, u2, n, n, k, k + 1, n, start, 1.0 / At(u0, n, k, k));
    MultiplyEffect(u1, u2, n, n, k, k + 1, n, start, 1.0 / At(u0, n, k, k));
    var l1 := l0[RowStart(k, n) + k := At(u0, n, k, k)];
    forall r: nat, c: nat | r < n && c < n
      ensures At(u2, n, r, c) == if r < k + 1 then EliminatedEntry(u0, n, k, r, c) else At(u0, n, r, c)
      ensures At(l1, n, r, c) == if r < k + 1 then RecordedEntry(u0, l0, n, k, r, c) else At(l0, n, r, c)
    {
      AtUpdate(u0, n, k, k, 1.0, r, c);
      AtUpdate(l0, n, k, k, At(u0, n, k, k), r, c);
    }
  }

  /** Row j below the pivot in step k, entry by entry: its column k is
      replaced by 0 and the pivot row times -u(j, k) is added to the rest. */
  lemma LowerRowEffect(ua: seq<real>, ub: seq<real>, uc: seq<real>, n: nat, k: nat, j: nat, into: nat, add: nat, f: real)
    requires |ua| == n * n && k < j < n
    requires into == RowStart(j, n) + k + 1 && add == RowStart(k, n) + k + 1 && add + (n - (k + 1)) <= n * n
    requires RowStart(j, n) + k < n * n
    requires ub == ua[RowStart(j, n) + k := 0.0]
    requires into + (n - (k + 1)) <= n * n && uc == RowAdded(ub, into, add, n - (k + 1), f)
    ensures forall r: nat, c: nat {:trigger At(uc, n, r, c)} :: r < n && c < n ==>
              At(uc, n, r, c) == if r == j && c == k then 0.0
                                 else if r == j && k < c < n then At(ua, n, j, c) + At(ua, n, k, c) * f
                                 else At(ua, n, r, c)
  {
    assert RowAddition(ub, uc, n, n, j, k, k + 1, n, into, add, f);
    forall r: nat, c: nat | r < n && c < n
      ensures At(uc, n, r, c) == if r == j && c == k then 0.0
                                 else if r == j && k < c < n then At(ua, n, j, c) + At(ua, n, k, c) * f
                                 else At(ua, n, r, c)
    {
      AddRowEntry(ub, uc, n, n, j, k, k + 1, n, into, add, f, r, c);
      AtUpdate(ua, n, j, k, 0.0, r, c);
      AtUpdate(ua, n, j, k, 0.0, k, c);
      LowerRowCombine(ua, ub, uc, n, k, j, r, c, f);
    }
  }

  lemma LowerRowCombine(ua: seq<real>, ub: seq<real>, uc: seq<real>, n: nat, k: nat, j: nat, r: nat, c: nat, f: real)
    requires k < j
    requires At(uc, n, r, c) == if r == j && k + 1 <= c < n then At(ub, n, r, c) + At(ub, n, k, c) * f else At(ub, n, r, c)
    requires At(ub, n, r, c) == if r == j && c == k then 0.0 else At(ua, n, r, c)
    requires At(ub, n, k, c) == if k == j && c == k then 0.0 else At(ua, n, k, c)
    ensures At(uc, n, r, c) == if r == j && c == k then 0.0
                               else if r == j && k < c < n then At(ua, n, j, c) + At(ua, n, k, c) * f
                               else At(ua, n, r, c)
  {
  }

  /** One entry of u after row j of step k, from the entries of u before
      it that the row operation reads. */
  lemma LowerRowEntry'(u0: seq<real>, ua: seq<real>, uc: seq<real>, n: nat, k: nat, j: nat, r: nat, c: nat, f: real)
    requires k < j < n && r < n && c < n && At(u0, n, k, k) != 0.0 && f == -At(ua, n, j, k)
    requires At(ua, n, k, c) == EliminatedEntry(u0, n, k, k, c)
    requires At(ua, n, j, c) == At(u0, n, j, c) && At(ua, n, j, k) == At(u0, n, j, k)
    requires At(ua, n, r, c) == if r < j then EliminatedEntry(u0, n, k, r, c) else At(u0, n, r, c)
    requires At(uc, n, r, c) == if r == j && c == k then 0.0
                                else if r == j && k < c then At(ua, n, j, c) + At(ua, n, k, c) * f
                                else At(ua, n, r, c)
    ensures At(uc, n, r, c) == if r < j + 1 then EliminatedEntry(u0, n, k, r, c) else At(u0, n, r, c)
  {
  }

  /** Row j below the pivot in step k as a whole: afterwards rows up to j
      are eliminated in u. */
  lemma LowerRowDone(u0: seq<real>, ua: seq<real>, ub: seq<real>, uc: seq<real>, n: nat, k: nat, j: nat,
                     into: nat, add: nat)
    requires k < j < n && At(u0, n, k, k) != 0.0
    requires EliminatedRows(ua, u0, n, k, j)
    requires into == RowStart(j, n) + k + 1 && add == RowStart(k, n) + k + 1 && add + (n - (k + 1)) <= n * n
    requires RowStart(j, n) + k < n * n
    requires ub == ua[RowStart(j, n) + k := 0.0]
    requires into + (n - (k + 1)) <= n * n && uc == RowAdded(ub, into, add, n - (k + 1), -ua[RowStart(j, n) + k])
    ensures EliminatedRows(uc, u0, n, k, j + 1)
    ensures ua[RowStart(j, n) + k] == At(u0, n, j, k)
  {
    var f := -ua[RowStart(j, n) + k];
    LowerRowEffect(ua, ub, uc, n, k, j, into, add, f);
    assert At(ua, n, j, k) == At(u0, n, j, k);
    forall r: nat, c: nat | r < n && c < n
      ensures At(uc, n, r, c) == if r < j + 1 then EliminatedEntry(u0, n, k, r, c) else At(u0, n, r, c)
    {
      LowerRowEntry'(u0, ua, uc, n, k, j, r, c, f);
    }
  }

  /** Row j below the pivot in step k records u(j, k) in l. */
  lemma LowerRowRecorded(u0: seq<real>, l0: seq<real>, la: seq<real>, n: nat, k: nat, j: nat)
    requires k < j < n
    requires RecordedRows(la, u0, l0, n, k, j) && RowStart(j, n) + k < n * n
    ensures RecordedRows(la[RowStart(j, n) + k := At(u0, n, j, k)], u0, l0, n, k, j + 1)
  {
    var lb := la[RowStart(j, n) + k := At(u0, n, j, k)];
    forall r: nat, c: nat | r < n && c < n
      ensures At(lb, n, r, c) == if r < j + 1 then RecordedEntry(u0, l0, n, k, r, c) else At(l0, n, r, c)
    {
      AtUpdate(la, n, j, k, At(u0, n, j, k), r, c);
    }
  }

  /** The first half of LUSubDecomposition<OFFSET = k>::decompose(u, l)
      ("normalize the row"): the pivot is recorded in l and replaced by 1,
      and the rest of row k is divided by it. */
  method NormalizePivotRow(u: array<real>, l: array<real>, n: nat, k: nat)
    requires u != l && u.Length == n * n && l.Length == n * n && k < n
    requires At(u[..], n, k, k) != 0.0
    modifies u, l
    ensures EliminatedRows(u[..], old(u[..]), n, k, k + 1)
    ensures RecordedRows(l[..], old(u[..]), old(l[..]), n, k, k + 1)
  {
    ghost var u0, l0 := u[..], l[..];
    AtEntry(u0, n, n, k, k);
    RowBefore(k, n, n);
    RowStartIsProduct(k, n);
    var factor := u[k * n + k];
    l[k * n + k] := factor;
    u[k * n + k] := 1.0;
    ghost var u1 := u[..];
    Multiply(u, k * n + k + 1, n - k - 1, 1.0 / factor);
    PivotRowDone(u0, l0, u1, u[..], n, k, k * n + k + 1);
  }

  /** The second half of LUSubDecomposition<OFFSET = k>::decompose(u, l):
      for every row j below the pivot, u(j, k) is recorded in l and
      replaced by 0 and the pivot row times -u(j, k) is added to row j. */
  method EliminateBelow(u: array<real>, l: array<real>, n: nat, k: nat, ghost u0: seq<real>, ghost l0: seq<real>)
    requires u != l && u.Length == n * n && l.Length == n * n && k < n
    requires At(u0, n, k, k) != 0.0
    requires EliminatedRows(u[..], u0, n, k, k + 1) && RecordedRows(l[..], u0, l0, n, k, k + 1)
    modifies u, l
    ensures EliminatedRows(u[..], u0, n, k, n) && RecordedRows(l[..], u0, l0, n, k, n)
  {
    var j := k + 1;
    while j < n
      invariant k + 1 <= j <= n
      invariant EliminatedRows(u[..], u0, n, k, j)
      invariant RecordedRows(l[..], u0, l0, n, k, j)
    {
      EliminateRow(u, l, n, k, j, u0, l0);
      j := j + 1;
    }
  }

  /** Row j of the loop in LUSubDecomposition<OFFSET = k>::decompose(u, l). */
  method EliminateRow(u: array<real>, l: array<real>, n: nat, k: nat, j: nat, ghost u0: seq<real>, ghost l0: seq<real>)
    requires u != l && u.Length == n * n && l.Length == n * n && k < j < n
    requires At(u0, n, k, k) != 0.0
    requires EliminatedRows(u[..], u0, n, k, j) && RecordedRows(l[..], u0, l0, n, k, j)
    modifies u, l
    ensures EliminatedRows(u[..], u0, n, k, j + 1) && RecordedRows(l[..], u0, l0, n, k, j + 1)
  {
    ghost var ua, la := u[..], l[..];
    IndexBounds(j, k, n, n);
    RowBefore(j, n, n);
    RowBefore(k, j, n);
    RowStartIsProduct(j, n);
    RowStartIsProduct(k, n);
    var factor := u[j * n + k];
    assert factor == ua[RowStart(j, n) + k];
    l[j * n + k] := factor;
    u[j * n + k] := 0.0;
    ghost var ub := u[..];
    assert ub == ua[RowStart(j, n) + k := 0.0];
    AddRowTimesFactor(u, j * n + k + 1, k * n + k + 1, n - k - 1, -factor);
    assert EliminatedRows(ua, u0, n, k, j);
    assert u[..] == RowAdded(ub, j * n + k + 1, k * n + k + 1, n - (k + 1), -ua[RowStart(j, n) + k]);
    LowerRowDone(u0, ua, ub, u[..], n, k, j, j * n + k + 1, k * n + k + 1);
    LowerRowRecorded(u0, l0, la, n, k, j);
  }

  /** LUSubDecomposition<OFFSET = k>::decompose(u, l): records column k of
      u in l, normalises pivot row k and eliminates column k from the rows
      below it.  The source reports success unconditionally. */
  method DecomposeStep(u: array<real>, l: array<real>, n: nat, k: nat) returns (ok: bool)
    requires u != l && u.Length == n * n && l.Length == n * n && k < n
    requires At(u[..], n, k, k) != 0.0
    modifies u, l
    ensures ok
    ensures u[..] == EliminateU(old(u[..]), n, k)
    ensures l[..] == EliminateL(old(u[..]), old(l[..]), n, k)
  {
    ghost var u0, l0 := u[..], l[..];
    NormalizePivotRow(u, l, n, k);
    EliminateBelow(u, l, n, k, u0, l0);
    RowsComplete(u[..], l[..], u0, l0, n, k);
    ok := true;
  }

  /** LUSubDecomposition<OFFSET = k>::decomposeRecur(u, l): the step for
      row k, then the instance for k + 1; the instance with OFFSET equal to
      the size returns at once. */
  method DecomposeRecur(u: array<real>, l: array<real>, n: nat, k: nat, ghost a: seq<real>) returns (ok: bool)
    requires u != l && u.Length == n * n && l.Length == n * n
    requires Factored(a, l[..], u[..], n, k) && Factorable(u[..], n, k)
    modifies u, l
    ensures ok && Factored(a, l[..], u[..], n, n)
    decreases n - k
  {
    if k == n {
      return true;
    }
    ghost var lk, uk := l[..], u[..];
    ok := DecomposeStep(u, l, n, k);
    FactoredStep(a, lk, uk, n, k);
    ok := DecomposeRecur(u, l, n, k + 1, a);
  }

  /** LUDecomposition::decompose(matrix, l, u) without pivoting: u starts as
      a copy of the matrix, l as the identity, and the steps run for
      k = 0 .. n-1.  The result is l * u == matrix with l lower triangular
      (nonzero diagonal) and u unit upper triangular. */
  method Decompose(a: array<real>, n: nat, l: array<real>, u: array<real>) returns (ok: bool)
    requires a.Length == n * n && l.Length == n * n && u.Length == n * n && l != u
    requires Factorable(a[..], n, 0)
    modifies l, u
    ensures ok
    ensures MatMul(l[..], u[..], n, n, n) == old(a[..])
    ensures IsLower(l[..], n, n) && IsUpper(u[..], n, n)
    ensures forall i: nat :: i < n ==> At(u[..], n, i, i) == 1.0 && At(l[..], n, i, i) != 0.0
  {
    var a0 := a[..];
    forall i | 0 <= i < n * n {
      u[i] := a0[i];
    }
    forall i | 0 <= i < n * n {
      l[i] := if i / n == i % n then 1.0 else 0.0;
    }
    assert u[..] == a0;
    assert l[..] == Identity(n, n);
    FactoredStart(a0, n);
    ok := DecomposeRecur(u, l, n, 0, a0);
    FactoredComplete(a0, l[..], u[..], n);
    ok := true;
  }
}
