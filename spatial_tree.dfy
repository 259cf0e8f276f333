/** The 2^DIM-ary box tree of geometry/SpatialTree.h.  Every node holds a
    data point, the corner of its box and the box's edge length, and
    2^DIM child slots.  Inserting descends by the child index of the point
    (one bit per dimension: is the point in the upper half of the box?)
    and creates a half-size child in the first empty slot.  The nodes live
    in an arena: node 0 is the root, a child pointer is a node index, and
    NULL is -1. */
module SpatialTrees {
  import opened VectorAlgebra

  const NULL: int := -1

  function Pow2(k: nat): (p: nat)
    ensures p >= 1
  {
    if k == 0 then 1 else 2 * Pow2(k - 1)
  }

  /** Bit j of x: x shifted right j times, modulo 2. */
  function Bit(x: nat, j: nat): nat
  {
    if j == 0 then x % 2 else Bit(x / 2, j - 1)
  }

  /** The test of getChildIndex and insertNoCheck for dimension i: the
      point lies in the upper half of the box. */
  predicate Upper(corner: Vec, size: real, point: Vec, i: nat)
    requires i < |corner| && i < |point|
  {
    point[i] - corner[i] >= size / 2.0
  }

  /** corner[i] <= point[i] < corner[i] + size. */
  predicate InSlab(corner: Vec, size: real, point: Vec, i: nat)
    requires i < |corner| && i < |point|
  {
    corner[i] <= point[i] < corner[i] + size
  }

  /** The index built by getChildIndex after k dimensions: shift left, and
      set the low bit when the point is in the upper half. */
  function ChildIndexOf(corner: Vec, size: real, point: Vec, k: nat): (index: nat)
    requires k <= |corner| && k <= |point|
    ensures index < Pow2(k)
  {
    if k == 0 then 0
    else 2 * ChildIndexOf(corner, size, point, k - 1) + (if Upper(corner, size, point, k - 1) then 1 else 0)
  }

  /** Shifting left by one and or-ing b moves every bit up by one and puts
      b at bit 0. */
  lemma BitOfShift(y: nat, b: nat, j: nat)
    requires b < 2
    ensures Bit(2 * y + b, 0) == b
    ensures Bit(2 * y + b, j + 1) == Bit(y, j)
  {
    assert (2 * y + b) / 2 == y;
  }

  /** Bit DIM-1-i of the child index is set exactly when the point is in
      the upper half of the box in dimension i. */
  lemma {:induction false} ChildIndexBits(corner: Vec, size: real, point: Vec, k: nat, i: nat)
    requires k <= |corner| && k <= |point| && i < k
    ensures Bit(ChildIndexOf(corner, size, point, k), k - 1 - i) == if Upper(corner, size, point, i) then 1 else 0
  {
    var y := ChildIndexOf(corner, size, point, k - 1);
    var b := if Upper(corner, size, point, k - 1) then 1 else 0;
    if i == k - 1 {
      BitOfShift(y, b, 0);
    } else {
      BitOfShift(y, b, k - 2 - i);
      ChildIndexBits(corner, size, point, k - 1, i);
    }
  }

  /** Two points with the same child index are in the same half of the
      box in every dimension. */
  lemma SameIndexSameHalves(corner: Vec, size: real, p: Vec, q: Vec, i: nat)
    requires |corner| == |p| == |q| && i < |corner|
    requires ChildIndexOf(corner, size, p, |corner|) == ChildIndexOf(corner, size, q, |corner|)
    ensures Upper(corner, size, p, i) <==> Upper(corner, size, q, i)
  {
    ChildIndexBits(corner, size, p, |corner|, i);
    ChildIndexBits(corner, size, q, |corner|, i);
  }

  /** The corner of the child created for point: the parent's corner,
      moved up by size/2 in every dimension where the point is in the upper
      half. */
  function ChildCornerOf(corner: Vec, size: real, point: Vec): (c: Vec)
    requires |corner| == |point|
    ensures |c| == |corner|
  {
    seq(|corner|, i requires 0 <= i < |corner| => if Upper(corner, size, point, i) then corner[i] + size / 2.0 else corner[i])
  }

  /** The child's corner is moved by size/2 exactly in the dimensions
      whose bit is set in the child index. */
  lemma ChildCornerFollowsIndex(corner: Vec, size: real, point: Vec, i: nat)
    requires |corner| == |point| && i < |corner|
    ensures ChildCornerOf(corner, size, point)[i]
            == corner[i] + (if Bit(ChildIndexOf(corner, size, point, |corner|), |corner| - 1 - i) == 1 then size / 2.0 else 0.0)
  {
    ChildIndexBits(corner, size, point, |corner|, i);
  }

  /** The half-size child box contains the point in every dimension where
      the parent box does. */
  lemma ChildBoxContains(corner: Vec, size: real, point: Vec, i: nat)
    requires |corner| == |point| && i < |corner|
    requires InSlab(corner, size, point, i)
    ensures InSlab(ChildCornerOf(corner, size, point), size / 2.0, point, i)
  {
  }

  class SpatialTree {
    const dim: nat
    var datas: seq<Vec>
    var corners: seq<Vec>
    var sizes: seq<real>
    var children: seq<seq<int>>

    /** The arena is consistent, and every child was created by
        insertNoCheck: half its parent's size, in the slot of its own child
        index, with the corner chosen for its data. */
    ghost predicate Valid()
      reads this
    {
      && 1 <= |datas| == |corners| == |sizes| == |children|
      && (forall k :: 0 <= k < |datas| ==> |datas[k]| == dim && |corners[k]| == dim && |children[k]| == Pow2(dim))
      && (forall k, j :: 0 <= k < |children| && 0 <= j < |children[k]| ==>
            children[k][j] == NULL || k < children[k][j] < |children|)
      && (forall k, j :: 0 <= k < |children| && 0 <= j < |children[k]| && children[k][j] != NULL ==>
            IsChild(k, j, children[k][j]))
    }

    ghost predicate IsChild(k: nat, j: nat, c: nat)
      reads this
      requires k < |datas| == |corners| == |sizes| && c < |datas|
    {
      && |datas[c]| == |corners[k]|
      && sizes[c] == sizes[k] / 2.0
      && corners[c] == ChildCornerOf(corners[k], sizes[k], datas[c])
      && j == ChildIndexOf(corners[k], sizes[k], datas[c], |corners[k]|)
    }

    /** The slots of a new node: CHILD_COUNT times NULL. */
    static method NoChildren(count: nat) returns (slots: seq<int>)
      ensures |slots| == count && forall j :: 0 <= j < count ==> slots[j] == NULL
    {
      var a := new int[count];
      var i := 0;
      while i < count
        invariant 0 <= i <= count
        invariant forall j :: 0 <= j < i ==> a[j] == NULL
      {
        a[i] := NULL;
        i := i + 1;
      }
      slots := a[..];
    }

    /** SpatialTree(data, corner, size): a root without children. */
    constructor (data: Vec, corner: Vec, size: real)
      requires |data| == |corner|
      ensures Valid() && dim == |corner|
      ensures datas == [data] && corners == [corner] && sizes == [size]
      ensures |children| == 1 && forall j :: 0 <= j < |children[0]| ==> children[0][j] == NULL
    {
      dim := |corner|;
      var slots := NoChildren(Pow2(|corner|));
      datas, corners, sizes, children := [data], [corner], [size], [slots];
    }

    /** bounds(point): corner <= point && point < corner + size, with the
        Vector comparison operators, which skip dimension 0. */
    predicate Bounds(point: Vec): (b: bool)
      reads this
      requires Valid() && |point| == dim
      ensures b <==> forall i :: 1 <= i < dim ==> corners[0][i] <= point[i] < corners[0][i] + sizes[0]
    {
      var top := AddScalar(corners[0], sizes[0]);
      assert forall i :: 0 <= i < dim ==> top[i] == corners[0][i] + sizes[0];
      LessEq(corners[0], point) && Less(point, top)
    }

    /** getChildIndex(point) at node: one bit per dimension, the first
        dimension in the highest bit. */
    method GetChildIndex(node: nat, point: Vec) returns (index: nat)
      requires Valid() && node < |datas| && |point| == dim
      ensures index == ChildIndexOf(corners[node], sizes[node], point, dim)
      ensures index < |children[node]|
    {
      index := 0;
      var i := 0;
      while i < dim
        invariant 0 <= i <= dim
        invariant index == ChildIndexOf(corners[node], sizes[node], point, i)
      {
        index := index * 2;
        if point[i] - corners[node][i] >= sizes[node] / 2.0 {
          index := index + 1;
        }
        i := i + 1;
      }
    }

    /** The corner loop of insertNoCheck: a copy of node's corner, moved up
        by size/2 where the point is in the upper half. */
    method ChildCorner(node: nat, point: Vec) returns (corner: Vec)
      requires Valid() && node < |datas| && |point| == dim
      ensures corner == ChildCornerOf(corners[node], sizes[node], point)
    {
      var a := new real[dim];
      var i := 0;
      while i < dim
        invariant 0 <= i <= dim
        invariant forall j :: 0 <= j < i ==> a[j] == corners[node][j]
      {
        a[i] := corners[node][i];
        i := i + 1;
      }
      i := 0;
      while i < dim
        invariant 0 <= i <= dim
        invariant forall j :: 0 <= j < i ==> a[j] == ChildCornerOf(corners[node], sizes[node], point)[j]
        invariant forall j :: i <= j < dim ==> a[j] == corners[node][j]
      {
        if point[i] - corners[node][i] >= sizes[node] / 2.0 {
          a[i] := a[i] + sizes[node] / 2.0;
        }
        i := i + 1;
      }
      corner := a[..];
    }

    /** The node below node where insertNoCheck(point) creates the new
        child, and the empty slot it fills. */
    ghost function InsertionPoint(node: nat, point: Vec): (r: (nat, nat))
      reads this
      requires Valid() && node < |datas| && |point| == dim
      ensures node <= r.0 < |datas| && r.1 < |children[r.0]|
      ensures r.1 == ChildIndexOf(corners[r.0], sizes[r.0], point, dim)
      ensures children[r.0][r.1] == NULL
      decreases |datas| - node
    {
      var index := ChildIndexOf(corners[node], sizes[node], point, dim);
      if children[node][index] == NULL then (node, index)
      else InsertionPoint(children[node][index], point)
    }

    /** insertNoCheck(point) at node: descend by child index to the first
        empty slot and fill it with a new node holding point, the child
        corner and half the size.  No existing node's data, corner or size
        changes, and only that one slot of the children changes. */
    method InsertNoCheck(node: nat, point: Vec)
      requires Valid() && node < |datas| && |point| == dim
      modifies this
      ensures Valid()
      ensures var p, slot := old(InsertionPoint(node, point)).0, old(InsertionPoint(node, point)).1;
              && datas == old(datas) + [point]
              && corners == old(corners) + [ChildCornerOf(old(corners[p]), old(sizes[p]), point)]
              && sizes == old(sizes) + [old(sizes[p]) / 2.0]
              && |children| == |old(children)| + 1
              && children[..|old(children)|] == old(children)[p := old(children[p])[slot := |old(datas)|]]
              && forall j :: 0 <= j < |children[|old(children)|]| ==> children[|old(children)|][j] == NULL
      decreases |datas| - node
    {
      var index := GetChildIndex(node, point);
      ghost var target := InsertionPoint(node, point);
      if children[node][index] == NULL {
        AddChild(node, index, point);
      } else {
        var c := children[node][index];
        assert target == InsertionPoint(c, point);
        InsertNoCheck(c, point);
      }
    }

    /** The creation step of insertNoCheck: slot index of node is empty, so
        the new node goes there. */
    method AddChild(node: nat, index: nat, point: Vec)
      requires Valid() && node < |datas| && |point| == dim
      requires index == ChildIndexOf(corners[node], sizes[node], point, dim) && children[node][index] == NULL
      modifies this
      ensures Valid()
      ensures && datas == old(datas) + [point]
              && corners == old(corners) + [ChildCornerOf(old(corners[node]), old(sizes[node]), point)]
              && sizes == old(sizes) + [old(sizes[node]) / 2.0]
              && |children| == |old(children)| + 1
              && children[..|old(children)|] == old(children)[node := old(children[node])[index := |old(datas)|]]
              && forall j :: 0 <= j < |children[|old(children)|]| ==> children[|old(children)|][j] == NULL
    {
      var corner := ChildCorner(node, point);
      var slots := NoChildren(Pow2(dim));
      var id := |datas|;
      ghost var before := children;
      datas, corners, sizes := datas + [point], corners + [corner], sizes + [sizes[node] / 2.0];
      children := children[node := children[node][index := id]] + [slots];
      assert children[..id] == before[node := before[node][index := id]];
      assert IsChild(node, index, id);
      ValidAfterAdd(before, node, index);
    }

    /** The invariant survives adding one node in an empty slot. */
    lemma ValidAfterAdd(before: seq<seq<int>>, node: nat, index: nat)
      requires |before| == |datas| - 1 && node < |before| && index < |before[node]| == Pow2(dim)
      requires before[node][index] == NULL
      requires |children| == |before| + 1
      requires children[..|before|] == before[node := before[node][index := |before|]]
      requires forall j :: 0 <= j < |children[|before|]| ==> children[|before|][j] == NULL
      requires |datas| == |corners| == |sizes| == |children|
      requires forall k :: 0 <= k < |datas| ==> |datas[k]| == dim && |corners[k]| == dim && |children[k]| == Pow2(dim)
      requires forall k, j :: 0 <= k < |before| && 0 <= j < |before[k]| ==> before[k][j] == NULL || k < before[k][j] < |before|
      requires forall k, j :: 0 <= k < |before| && 0 <= j < |before[k]| && before[k][j] != NULL ==> IsChild(k, j, before[k][j])
      requires IsChild(node, index, |before|)
      ensures Valid()
    {
      forall k, j | 0 <= k < |children| && 0 <= j < |children[k]|
        ensures children[k][j] == NULL || k < children[k][j] < |children|
        ensures children[k][j] != NULL ==> IsChild(k, j, children[k][j])
      {
        if k < |before| {
          assert children[k] == children[..|before|][k];
          if k == node && j == index {
          } else {
            assert children[k][j] == before[k][j];
          }
        }
      }
    }

    /** The descent keeps the point inside the boxes: wherever node's box
        contains it in dimension i, so does the box created for it. */
    lemma DescentKeepsPoint(node: nat, point: Vec, i: nat)
      requires Valid() && node < |datas| && |point| == dim && i < dim
      requires InSlab(corners[node], sizes[node], point, i)
      ensures var p := InsertionPoint(node, point).0;
              InSlab(ChildCornerOf(corners[p], sizes[p], point), sizes[p] / 2.0, point, i)
      decreases |datas| - node
    {
      ChildBoxContains(corners[node], sizes[node], point, i);
      var index := ChildIndexOf(corners[node], sizes[node], point, dim);
      var c := children[node][index];
      if c != NULL {
        assert IsChild(node, index, c);
        SameIndexSameHalves(corners[node], sizes[node], point, datas[c], i);
        assert corners[c][i] == ChildCornerOf(corners[node], sizes[node], point)[i];
        DescentKeepsPoint(c, point, i);
      }
    }

    /** insert(point): false and nothing changes when bounds(point) fails;
        otherwise insertNoCheck at the root, and the new node's box
        contains the point in every dimension bounds checks. */
    method Insert(point: Vec) returns (inserted: bool)
      requires Valid() && |point| == dim
      modifies this
      ensures Valid()
      ensures inserted == old(Bounds(point))
      ensures !inserted ==> datas == old(datas) && corners == old(corners) && sizes == old(sizes) && children == old(children)
      ensures inserted ==>
              var p, slot := old(InsertionPoint(0, point)).0, old(InsertionPoint(0, point)).1;
              && datas == old(datas) + [point]
              && corners == old(corners) + [ChildCornerOf(old(corners[p]), old(sizes[p]), point)]
              && sizes == old(sizes) + [old(sizes[p]) / 2.0]
              && children[..|old(children)|] == old(children)[p := old(children[p])[slot := |old(datas)|]]
      ensures inserted ==> forall i :: 1 <= i < dim ==> corners[|datas| - 1][i] <= point[i] < corners[|datas| - 1][i] + sizes[|datas| - 1]
    {
      if Bounds(point) {
        ghost var p := InsertionPoint(0, point).0;
        ghost var c := ChildCornerOf(corners[p], sizes[p], point);
        forall i | 1 <= i < dim
          ensures c[i] <= point[i] < c[i] + sizes[p] / 2.0
        {
          DescentKeepsPoint(0, point, i);
        }
        InsertNoCheck(0, point);
        inserted := true;
      } else {
        inserted := false;
      }
    }
  }

  /** bounds never looks at dimension 0 of the point. */
  lemma BoundsIgnoresFirst(t: SpatialTree, point: Vec, x: real)
    requires t.Valid() && |point| == t.dim >= 1
    ensures t.Bounds(point) == t.Bounds(point[0 := x])
  {
  }
}
