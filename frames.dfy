/** Reference frames (geometry/ReferenceFrame.hpp, ReferenceFrame2d.hpp and
    ReferencePoint.hpp).  Each frame holds a pointer to its parent frame
    (nullptr for a frame of the world) and a local homogeneous
    (DIM+1) x (DIM+1) transformation matrix; the offset from the world is
    the product of the local matrices from the root of the parent chain
    down to the frame.  The frames live in an arena: a frame is its index,
    a parent pointer is a Parent value, and each matrix is row-major as in
    MatrixAlgebra.  A ReferencePoint is a frame of the same shape whose
    parent is a frame, so both kinds are entries of one arena. */
module Frames {
  import opened MatrixAlgebra
  import VectorAlgebra

  /** The parent pointer: nullptr or the index of another frame. */
  datatype Parent = NoParent | ParentId(id: nat)

  /** std::cos and std::sin, left uninterpreted. */
  datatype Trig = Trig(cos: real -> real, sin: real -> real)

  /** The number of entries of a homogeneous matrix of dimension dim. */
  function Size(dim: nat): nat
  {
    (dim + 1) * (dim + 1)
  }

  /** Every frame has a matrix of the right size and every parent pointer
      points into the arena. */
  predicate WellFormed(dim: nat, parents: seq<Parent>, locals: seq<seq<real>>)
  {
    && |parents| == |locals|
    && (forall i :: 0 <= i < |locals| ==> |locals[i]| == Size(dim))
    && (forall i :: 0 <= i < |parents| && parents[i].ParentId? ==> parents[i].id < |parents|)
  }

  /** Following parent pointers from i reaches a frame without a parent in
      at most fuel steps.  With fuel the number of frames this is what
      makes getOffsetFromWorld terminate: an acyclic chain is no longer. */
  predicate RootedWithin(parents: seq<Parent>, i: nat, fuel: nat)
    decreases fuel
  {
    && i < |parents|
    && (parents[i].NoParent? || (fuel > 0 && RootedWithin(parents, parents[i].id, fuel - 1)))
  }

  predicate Rooted(parents: seq<Parent>, i: nat)
  {
    RootedWithin(parents, i, |parents|)
  }

  /** getOffsetFromWorld(): the local matrix of a frame without a parent,
      otherwise the parent's offset from the world times the local matrix. */
  function WorldFrom(dim: nat, parents: seq<Parent>, locals: seq<seq<real>>, i: nat, fuel: nat): (w: seq<real>)
    requires WellFormed(dim, parents, locals) && RootedWithin(parents, i, fuel)
    ensures |w| == Size(dim)
    decreases fuel
  {
    match parents[i]
    case NoParent => locals[i]
    case ParentId(p) => MatMul(WorldFrom(dim, parents, locals, p, fuel - 1), locals[i], dim + 1, dim + 1, dim + 1)
  }

  /** More fuel changes neither rootedness nor the offset. */
  lemma {:induction false} WorldFromFuel(dim: nat, parents: seq<Parent>, locals: seq<seq<real>>, i: nat, fuel: nat, more: nat)
    requires WellFormed(dim, parents, locals) && RootedWithin(parents, i, fuel) && fuel <= more
    ensures RootedWithin(parents, i, more)
    ensures WorldFrom(dim, parents, locals, i, fuel) == WorldFrom(dim, parents, locals, i, more)
    decreases fuel
  {
    if parents[i].ParentId? {
      var q := parents[i].id;
      WorldFromFuel(dim, parents, locals, q, fuel - 1, more - 1);
      var a, b := WorldFrom(dim, parents, locals, q, fuel - 1), WorldFrom(dim, parents, locals, q, more - 1);
      assert a == b;
      assert WorldFrom(dim, parents, locals, i, fuel) == MatMul(a, locals[i], dim + 1, dim + 1, dim + 1);
      assert WorldFrom(dim, parents, locals, i, more) == MatMul(b, locals[i], dim + 1, dim + 1, dim + 1);
    }
  }

  /** The chain of frames from the root down to i. */
  function PathFrom(parents: seq<Parent>, i: nat, fuel: nat): (path: seq<nat>)
    requires RootedWithin(parents, i, fuel)
    ensures |path| >= 1 && path[|path| - 1] == i
    ensures forall k :: 0 <= k < |path| ==> path[k] < |parents|
    ensures parents[path[0]] == NoParent
    ensures forall k :: 0 < k < |path| ==> parents[path[k]] == ParentId(path[k - 1])
    decreases fuel
  {
    match parents[i]
    case NoParent => [i]
    case ParentId(p) => PathFrom(parents, p, fuel - 1) + [i]
  }

  /** The product of the local matrices of ids, in order, starting from the
      identity. */
  function ProductOf(n: nat, locals: seq<seq<real>>, ids: seq<nat>): (m: seq<real>)
    requires forall k :: 0 <= k < |ids| ==> ids[k] < |locals|
    ensures |m| == n * n
  {
    if |ids| == 0 then Identity(n, n)
    else MatMul(ProductOf(n, locals, ids[..|ids| - 1]), locals[ids[|ids| - 1]], n, n, n)
  }

  /** Unfolded, the offset from the world is the product of the local
      matrices along the chain from the root down to the frame. */
  lemma {:induction false} WorldIsPathProduct(dim: nat, parents: seq<Parent>, locals: seq<seq<real>>, i: nat, fuel: nat)
    requires WellFormed(dim, parents, locals) && RootedWithin(parents, i, fuel)
    ensures WorldFrom(dim, parents, locals, i, fuel) == ProductOf(dim + 1, locals, PathFrom(parents, i, fuel))
    decreases fuel
  {
    var n := dim + 1;
    match parents[i]
    case NoParent =>
      assert PathFrom(parents, i, fuel)[..0] == [];
      IdentityIsUnit(locals[i], n, n);
    case ParentId(p) =>
      WorldIsPathProduct(dim, parents, locals, p, fuel - 1);
      var path := PathFrom(parents, i, fuel);
      assert path[..|path| - 1] == PathFrom(parents, p, fuel - 1);
  }

  // ---------------------------------------------------------------------
  // Cells of a homogeneous matrix
  // ---------------------------------------------------------------------

  /** transformationMatrix(r, c) = v on an n x n matrix: entry (r, c)
      becomes v and every other entry is unchanged. */
  function SetCell(m: seq<real>, n: nat, r: nat, c: nat, v: real): (res: seq<real>)
    requires |m| == n * n && r < n && c < n
    ensures |res| == |m|
    ensures forall r': nat, c': nat :: At(res, n, r', c') == if r' == r && c' == c then v else At(m, n, r', c')
  {
    RowStartBound(r, c, n, n);
    AtUpdateAll(m, n, r, c, v);
    m[RowStart(r, n) + c := v]
  }

  /** The rotation entry (r, c), r, c < 2, of a yaw t. */
  function Rotation(t: real, trig: Trig, r: nat, c: nat): real
  {
    if r == c then trig.cos(t) else if r == 0 then -trig.sin(t) else trig.sin(t)
  }

  /** setTOffset(t) / setYawOffset(yaw): the top-left 2 x 2 block becomes
      the rotation by t; every other entry is unchanged. */
  function SetYaw(m: seq<real>, t: real, trig: Trig): (res: seq<real>)
    requires |m| == 9
    ensures |res| == 9
    ensures forall r: nat, c: nat :: At(res, 3, r, c) == if r < 2 && c < 2 then Rotation(t, trig, r, c) else At(m, 3, r, c)
  {
    var m1 := SetCell(m, 3, 0, 0, trig.cos(t));
    var m2 := SetCell(m1, 3, 0, 1, -trig.sin(t));
    var m3 := SetCell(m2, 3, 1, 0, trig.sin(t));
    SetCell(m3, 3, 1, 1, trig.cos(t))
  }

  /** The matrix of the 2D constructors: the rotation by t, the
      translation (x, y) and the bottom row (0, 0, 1). */
  function Pose2d(x: real, y: real, t: real, trig: Trig): (m: seq<real>)
    ensures |m| == 9
  {
    [trig.cos(t), -trig.sin(t), x,
     trig.sin(t), trig.cos(t), y,
     0.0, 0.0, 1.0]
  }

  lemma AtPose2d(x: real, y: real, t: real, trig: Trig, r: nat, c: nat)
    requires r < 3 && c < 3
    ensures At(Pose2d(x, y, t, trig), 3, r, c)
            == if r < 2 && c < 2 then Rotation(t, trig, r, c)
               else if r < 2 then (if r == 0 then x else y)
               else if c == 2 then 1.0 else 0.0
  {
    AtRowStart(Pose2d(x, y, t, trig), 3, 3, r, c);
    assert RowStart(1, 3) == 3 && RowStart(2, 3) == 6;
  }

  /** Column dim, rows 0 .. dim-1, of a homogeneous matrix: where the
      setters put the translation. */
  function TranslationColumn(m: seq<real>, dim: nat): (t: seq<real>)
    ensures |t| == dim
    ensures forall r :: 0 <= r < dim ==> t[r] == At(m, dim + 1, r, dim)
  {
    seq(dim, r requires 0 <= r < dim => At(m, dim + 1, r, dim))
  }

  /** getTranslationOffset() and getWorldPosition() as written: column 2,
      rows 0 .. DIM-1, whatever DIM is. */
  function TranslationOffsetAsWritten(m: seq<real>, dim: nat): (t: seq<real>)
    ensures |t| == dim
    ensures forall r :: 0 <= r < dim ==> t[r] == At(m, dim + 1, r, 2)
  {
    seq(dim, r requires 0 <= r < dim => At(m, dim + 1, r, 2))
  }

  /** The homogeneous origin (0, ..., 0, 1) as a (dim+1) x 1 column. */
  function Origin(dim: nat): (o: seq<real>)
    ensures |o| == dim + 1
  {
    VectorAlgebra.Fill(dim, 0.0) + [1.0]
  }

  lemma {:induction false} OriginRange(m: seq<real>, dim: nat, r: nat, hi: nat)
    requires hi <= dim + 1
    ensures RowColRange(m, Origin(dim), dim + 1, 1, r, 0, 0, hi) == if hi == dim + 1 then At(m, dim + 1, r, dim) else 0.0
  {
    if hi > 0 {
      OriginRange(m, dim, r, hi - 1);
      assert At(Origin(dim), 1, hi - 1, 0) == Origin(dim)[hi - 1] by {
        AtRowStart(Origin(dim), dim + 1, 1, hi - 1, 0);
        RowStartIsProduct(hi - 1, 1);
      }
    }
  }

  /** The translation column is the image of the frame's origin: applying
      the matrix to the homogeneous origin gives it in rows 0 .. dim-1. */
  lemma TranslationIsImageOfOrigin(m: seq<real>, dim: nat)
    requires |m| == Size(dim)
    ensures TranslationColumn(m, dim) == MatMul(m, Origin(dim), dim + 1, dim + 1, 1)[..dim]
  {
    var image := MatMul(m, Origin(dim), dim + 1, dim + 1, 1);
    forall r | 0 <= r < dim
      ensures TranslationColumn(m, dim)[r] == image[r]
    {
      AtMatMul(m, Origin(dim), dim + 1, dim + 1, 1, r, 0);
      OriginRange(m, dim, r, dim + 1);
      AtRowStart(image, dim + 1, 1, r, 0);
      RowStartIsProduct(r, 1);
    }
  }

  /** With DIM = 3, the identity with setXOffset(5) has translation
      (5, 0, 0), but the as-written reader returns the z axis (0, 0, 1). */
  lemma TranslationOffsetAsWrittenReadsRotation()
    ensures TranslationColumn(SetCell(Identity(4, 4), 4, 0, 3, 5.0), 3) == [5.0, 0.0, 0.0]
    ensures TranslationOffsetAsWritten(SetCell(Identity(4, 4), 4, 0, 3, 5.0), 3) == [0.0, 0.0, 1.0]
  {
    var m := SetCell(Identity(4, 4), 4, 0, 3, 5.0);
    forall r: nat, c: nat | r < 4 && c < 4
      ensures At(m, 4, r, c) == if r == 0 && c == 3 then 5.0 else if r == c then 1.0 else 0.0
    {
      AtIdentity(4, 4, r, c);
    }
  }

  /** A frame arena: parents[i] and locals[i] are the parent pointer and
      the transformation matrix of frame i. */
  class FrameArena {
    const dim: nat
    var parents: seq<Parent>
    var locals: seq<seq<real>>

    ghost predicate Valid()
      reads this
    {
      WellFormed(dim, parents, locals)
    }

    constructor (dim: nat)
      ensures Valid() && this.dim == dim && parents == [] && locals == []
    {
      this.dim := dim;
      parents := [];
      locals := [];
    }

    predicate ValidParent(p: Parent)
      reads this
    {
      p.ParentId? ==> p.id < |parents|
    }

    /** ReferenceFrame(): a frame without a parent.  The source leaves the
        matrix uninitialised; its contents are the parameter initial. */
    method NewFrame(initial: seq<real>) returns (id: nat)
      requires Valid() && |initial| == Size(dim)
      modifies this
      ensures Valid() && id == |old(parents)|
      ensures parents == old(parents) + [NoParent] && locals == old(locals) + [initial]
    {
      id := |parents|;
      parents := parents + [NoParent];
      locals := locals + [initial];
    }

    /** ReferencePoint(parent): the identity matrix under parent. */
    method NewPoint(parent: Parent) returns (id: nat)
      requires Valid() && ValidParent(parent)
      modifies this
      ensures Valid() && id == |old(parents)|
      ensures parents == old(parents) + [parent] && locals == old(locals) + [Identity(dim + 1, dim + 1)]
    {
      id := |parents|;
      parents := parents + [parent];
      locals := locals + [Identity(dim + 1, dim + 1)];
    }

    /** ReferenceFrame2d(x, y, t, parent) and ReferencePoint(x, y, yaw,
        parent): set the parent, then x, y and the rotation, then the
        bottom row; every cell is written, so the uninitialised initial
        contents do not matter. */
    method NewPose2d(x: real, y: real, t: real, parent: Parent, trig: Trig, initial: seq<real>) returns (id: nat)
      requires Valid() && dim == 2 && ValidParent(parent) && |initial| == 9
      modifies this
      ensures Valid() && id == |old(parents)|
      ensures parents == old(parents) + [parent] && locals == old(locals) + [Pose2d(x, y, t, trig)]
    {
      id := |parents|;
      parents := parents + [parent];
      locals := locals + [initial];
      SetXOffset(id, x);
      SetYOffset(id, y);
      SetYawOffset(id, t, trig);
      locals := locals[id := SetCell(locals[id], 3, 2, 0, 0.0)];
      locals := locals[id := SetCell(locals[id], 3, 2, 1, 0.0)];
      locals := locals[id := SetCell(locals[id], 3, 2, 2, 1.0)];
      forall r: nat, c: nat | r < 3 && c < 3
        ensures At(locals[id], 3, r, c) == At(Pose2d(x, y, t, trig), 3, r, c)
      {
        AtPose2d(x, y, t, trig, r, c);
      }
      SameMatrix(locals[id], Pose2d(x, y, t, trig), 3, 3);
      assert locals == old(locals) + [Pose2d(x, y, t, trig)];
    }

    function GetParent(i: nat): Parent
      reads this
      requires Valid() && i < |parents|
    {
      parents[i]
    }

    /** setParent(q): only frame i's parent changes; acyclicity is not
        checked, as in the source. */
    method SetParent(i: nat, q: Parent)
      requires Valid() && i < |parents| && ValidParent(q)
      modifies this
      ensures parents == old(parents)[i := q] && locals == old(locals)
      ensures Valid() && GetParent(i) == q
    {
      parents := parents[i := q];
    }

    function GetXOffset(i: nat): real
      reads this
      requires Valid() && i < |locals|
    {
      At(locals[i], dim + 1, 0, dim)
    }

    function GetYOffset(i: nat): real
      reads this
      requires Valid() && i < |locals| && dim >= 2
    {
      At(locals[i], dim + 1, 1, dim)
    }

    function GetZOffset(i: nat): real
      reads this
      requires Valid() && i < |locals| && dim >= 3
    {
      At(locals[i], dim + 1, 2, dim)
    }

    /** setXOffset(x): cell (0, DIM) of frame i becomes x, nothing else. */
    method SetXOffset(i: nat, x: real)
      requires Valid() && i < |locals|
      modifies this
      ensures parents == old(parents) && locals == old(locals)[i := SetCell(old(locals[i]), dim + 1, 0, dim, x)]
      ensures Valid() && GetXOffset(i) == x
    {
      locals := locals[i := SetCell(locals[i], dim + 1, 0, dim, x)];
    }

    /** setYOffset(y): cell (1, DIM), for DIM >= 2. */
    method SetYOffset(i: nat, y: real)
      requires Valid() && i < |locals| && dim >= 2
      modifies this
      ensures parents == old(parents) && locals == old(locals)[i := SetCell(old(locals[i]), dim + 1, 1, dim, y)]
      ensures Valid() && GetYOffset(i) == y
    {
      locals := locals[i := SetCell(locals[i], dim + 1, 1, dim, y)];
    }

    /** setZOffset(z): cell (2, DIM), for DIM >= 3. */
    method SetZOffset(i: nat, z: real)
      requires Valid() && i < |locals| && dim >= 3
      modifies this
      ensures parents == old(parents) && locals == old(locals)[i := SetCell(old(locals[i]), dim + 1, 2, dim, z)]
      ensures Valid() && GetZOffset(i) == z
    {
      locals := locals[i := SetCell(locals[i], dim + 1, 2, dim, z)];
    }

    /** setTOffset(t) / setYawOffset(yaw), for DIM == 2: the four rotation
        cells of frame i. */
    method SetYawOffset(i: nat, t: real, trig: Trig)
      requires Valid() && i < |locals| && dim == 2
      modifies this
      ensures Valid()
      ensures parents == old(parents) && locals == old(locals)[i := SetYaw(old(locals[i]), t, trig)]
    {
      locals := locals[i := SetYaw(locals[i], t, trig)];
    }

    /** getOffsetFromWorld(), for a frame whose parent chain ends. */
    function OffsetFromWorld(i: nat): (m: seq<real>)
      reads this
      requires Valid() && Rooted(parents, i)
      ensures |m| == Size(dim)
    {
      WorldFrom(dim, parents, locals, i, |parents|)
    }

    /** getXY(x, y) and the x, y outputs of getXYT / getXYYaw, for DIM == 2:
        cells (0, 2) and (1, 2) of the offset from the world. */
    function GetXY(i: nat): (xy: (real, real))
      reads this
      requires Valid() && dim == 2 && Rooted(parents, i)
    {
      (At(OffsetFromWorld(i), 3, 0, 2), At(OffsetFromWorld(i), 3, 1, 2))
    }

    /** getTranslationOffset(), reading the column the setters write. */
    function TranslationOffset(i: nat): (t: seq<real>)
      reads this
      requires Valid() && i < |locals|
      ensures |t| == dim
      ensures dim >= 1 ==> t[0] == GetXOffset(i)
      ensures dim >= 2 ==> t[1] == GetYOffset(i)
      ensures dim >= 3 ==> t[2] == GetZOffset(i)
    {
      TranslationColumn(locals[i], dim)
    }

    /** getWorldPosition(), reading the column the setters write: the
        translation column of parent.getOffsetFromWorld() * local, or of
        local without a parent. */
    function WorldPosition(i: nat): (p: seq<real>)
      reads this
      requires Valid() && Rooted(parents, i)
      ensures |p| == dim
    {
      match parents[i]
      case NoParent => TranslationColumn(locals[i], dim)
      case ParentId(q) =>
        WorldFromFuel(dim, parents, locals, q, |parents| - 1, |parents|);
        TranslationColumn(MatMul(OffsetFromWorld(q), locals[i], dim + 1, dim + 1, dim + 1), dim)
    }
  }

  /** getOffsetFromWorld() of a frame without a parent is its own matrix;
      with a parent q it is q's offset from the world times its own, and q
      is rooted too. */
  lemma OffsetFromWorldSteps(f: FrameArena, i: nat)
    requires f.Valid() && Rooted(f.parents, i)
    ensures f.parents[i] == NoParent ==> f.OffsetFromWorld(i) == f.locals[i]
    ensures f.parents[i].ParentId? ==>
              && Rooted(f.parents, f.parents[i].id)
              && f.OffsetFromWorld(i) == MatMul(f.OffsetFromWorld(f.parents[i].id), f.locals[i], f.dim + 1, f.dim + 1, f.dim + 1)
  {
    if f.parents[i].ParentId? {
      WorldFromFuel(f.dim, f.parents, f.locals, f.parents[i].id, |f.parents| - 1, |f.parents|);
    }
  }

  /** The offset from the world is the product of the local matrices from
      the root of the chain down to the frame. */
  lemma OffsetFromWorldIsChainProduct(f: FrameArena, i: nat)
    requires f.Valid() && Rooted(f.parents, i)
    ensures f.OffsetFromWorld(i) == ProductOf(f.dim + 1, f.locals, PathFrom(f.parents, i, |f.parents|))
  {
    WorldIsPathProduct(f.dim, f.parents, f.locals, i, |f.parents|);
  }

  /** getWorldPosition() is the translation column of getOffsetFromWorld(),
      that is, the image of the frame's origin in world coordinates; for
      DIM == 2 getXY() returns its two components. */
  lemma WorldPositionIsImageOfOrigin(f: FrameArena, i: nat)
    requires f.Valid() && Rooted(f.parents, i)
    ensures f.WorldPosition(i) == TranslationColumn(f.OffsetFromWorld(i), f.dim)
    ensures f.WorldPosition(i) == MatMul(f.OffsetFromWorld(i), Origin(f.dim), f.dim + 1, f.dim + 1, 1)[..f.dim]
    ensures f.dim == 2 ==> f.GetXY(i) == (f.WorldPosition(i)[0], f.WorldPosition(i)[1])
  {
    OffsetFromWorldSteps(f, i);
    TranslationIsImageOfOrigin(f.OffsetFromWorld(i), f.dim);
  }

  /** The 2D unit circle: a point at (1, 0) with yaw 0 under a world frame
      whose matrix is the identity with its yaw set to a has world position
      (cos a, sin a). */
  method UnitCircle(a: real, trig: Trig) returns (x: real, y: real)
    ensures x == trig.cos(a) && y == trig.sin(a)
  {
    var frames := new FrameArena(2);
    var world := frames.NewPoint(NoParent);
    var point := frames.NewPose2d(1.0, 0.0, 0.0, ParentId(world), trig, Identity(3, 3));
    frames.SetYawOffset(world, a, trig);
    assert RootedWithin(frames.parents, world, 1);
    assert Rooted(frames.parents, point);
    OffsetFromWorldSteps(frames, point);
    OffsetFromWorldSteps(frames, world);
    var w, p := frames.locals[world], frames.locals[point];
    assert frames.OffsetFromWorld(point) == MatMul(w, p, 3, 3, 3);
    RotatedPointColumn(a, trig);
    x, y := frames.GetXY(point).0, frames.GetXY(point).1;
  }

  /** Column 2 of (identity with yaw a) * Pose2d(1, 0, 0). */
  lemma RotatedPointColumn(a: real, trig: Trig)
    ensures At(MatMul(SetYaw(Identity(3, 3), a, trig), Pose2d(1.0, 0.0, 0.0, trig), 3, 3, 3), 3, 0, 2) == trig.cos(a)
    ensures At(MatMul(SetYaw(Identity(3, 3), a, trig), Pose2d(1.0, 0.0, 0.0, trig), 3, 3, 3), 3, 1, 2) == trig.sin(a)
  {
    var w, p := SetYaw(Identity(3, 3), a, trig), Pose2d(1.0, 0.0, 0.0, trig);
    AtIdentity(3, 3, 0, 2);
    AtIdentity(3, 3, 1, 2);
    AtPose2d(1.0, 0.0, 0.0, trig, 0, 2);
    AtPose2d(1.0, 0.0, 0.0, trig, 1, 2);
    AtPose2d(1.0, 0.0, 0.0, trig, 2, 2);
    AtMatMul(w, p, 3, 3, 3, 0, 2);
    AtMatMul(w, p, 3, 3, 3, 1, 2);
  }
}
