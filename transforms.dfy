/**
 * The transform accumulator of the geometry walk (class Transf of gm2json.py):
 * a 3x3 rotation and a translation, composed child after child.
 * Entries are exact reals; floating-point rounding is not modelled.
 */
module Transforms {

  /** A 3x3 matrix, row-major: the first row is (xx, xy, xz). */
  datatype Mat3 = Mat3(xx: real, xy: real, xz: real,
                       yx: real, yy: real, yz: real,
                       zx: real, zy: real, zz: real)

  datatype Vec3 = Vec3(x: real, y: real, z: real)

  /**
   * A rotation and a translation: the twelve columns of a Transforms or
   * AlignableTransforms row, and the twelve fields of a Transf.
   */
  datatype Affine = Affine(rot: Mat3, shift: Vec3)

  const IdentityMat := Mat3(1.0, 0.0, 0.0, 0.0, 1.0, 0.0, 0.0, 0.0, 1.0)
  const ZeroVec := Vec3(0.0, 0.0, 0.0)

  /** The state of a freshly built Transf. */
  const Identity := Affine(IdentityMat, ZeroVec)

  /** a0*b0 + a1*b1 + a2*b2: one entry of a product of 3x3 matrices. */
  function Dot(a0: real, a1: real, a2: real, b0: real, b1: real, b2: real): real
  {
    a0 * b0 + a1 * b1 + a2 * b2
  }

  /** The textbook matrix product: entry (i, j) is row i of a times column j of b. */
  function MatMul(a: Mat3, b: Mat3): Mat3
  {
    Mat3(Dot(a.xx, a.xy, a.xz, b.xx, b.yx, b.zx),
         Dot(a.xx, a.xy, a.xz, b.xy, b.yy, b.zy),
         Dot(a.xx, a.xy, a.xz, b.xz, b.yz, b.zz),
         Dot(a.yx, a.yy, a.yz, b.xx, b.yx, b.zx),
         Dot(a.yx, a.yy, a.yz, b.xy, b.yy, b.zy),
         Dot(a.yx, a.yy, a.yz, b.xz, b.yz, b.zz),
         Dot(a.zx, a.zy, a.zz, b.xx, b.yx, b.zx),
         Dot(a.zx, a.zy, a.zz, b.xy, b.yy, b.zy),
         Dot(a.zx, a.zy, a.zz, b.xz, b.yz, b.zz))
  }

  function VecAdd(u: Vec3, v: Vec3): Vec3
  {
    Vec3(u.x + v.x, u.y + v.y, u.z + v.z)
  }

  /**
   * One step of Transf.add_transform, written with the nine sums of the
   * source (self on the right of each product). The result's rotation is
   * rt's rotation times the old one (left multiplication), and the
   * translations are added component-wise, without rotating rt's.
   */
  function Fold(a: Affine, rt: Affine): Affine
  {
    var s := a.rot;
    var t := rt.rot;
    Affine(
      Mat3(Dot(s.xx, s.yx, s.zx, t.xx, t.xy, t.xz),
           Dot(s.xy, s.yy, s.zy, t.xx, t.xy, t.xz),
           Dot(s.xz, s.yz, s.zz, t.xx, t.xy, t.xz),
           Dot(s.xx, s.yx, s.zx, t.yx, t.yy, t.yz),
           Dot(s.xy, s.yy, s.zy, t.yx, t.yy, t.yz),
           Dot(s.xz, s.yz, s.zz, t.yx, t.yy, t.yz),
           Dot(s.xx, s.yx, s.zx, t.zx, t.zy, t.zz),
           Dot(s.xy, s.yy, s.zy, t.zx, t.zy, t.zz),
           Dot(s.xz, s.yz, s.zz, t.zx, t.zy, t.zz)),
      Vec3(a.shift.x + rt.shift.x, a.shift.y + rt.shift.y, a.shift.z + rt.shift.z))
  }

  /** Entry-by-entry description of Fold, used where the twelve values are assigned one by one. */
  lemma FoldByEntries(a: Affine, b: Affine, rt: Affine)
    requires b.rot.xx == Dot(a.rot.xx, a.rot.yx, a.rot.zx, rt.rot.xx, rt.rot.xy, rt.rot.xz)
    requires b.rot.xy == Dot(a.rot.xy, a.rot.yy, a.rot.zy, rt.rot.xx, rt.rot.xy, rt.rot.xz)
    requires b.rot.xz == Dot(a.rot.xz, a.rot.yz, a.rot.zz, rt.rot.xx, rt.rot.xy, rt.rot.xz)
    requires b.rot.yx == Dot(a.rot.xx, a.rot.yx, a.rot.zx, rt.rot.yx, rt.rot.yy, rt.rot.yz)
    requires b.rot.yy == Dot(a.rot.xy, a.rot.yy, a.rot.zy, rt.rot.yx, rt.rot.yy, rt.rot.yz)
    requires b.rot.yz == Dot(a.rot.xz, a.rot.yz, a.rot.zz, rt.rot.yx, rt.rot.yy, rt.rot.yz)
    requires b.rot.zx == Dot(a.rot.xx, a.rot.yx, a.rot.zx, rt.rot.zx, rt.rot.zy, rt.rot.zz)
    requires b.rot.zy == Dot(a.rot.xy, a.rot.yy, a.rot.zy, rt.rot.zx, rt.rot.zy, rt.rot.zz)
    requires b.rot.zz == Dot(a.rot.xz, a.rot.yz, a.rot.zz, rt.rot.zx, rt.rot.zy, rt.rot.zz)
    requires b.shift == Vec3(a.shift.x + rt.shift.x, a.shift.y + rt.shift.y, a.shift.z + rt.shift.z)
    ensures b == Fold(a, rt)
  {
  }

  /**
   * add_transform left-multiplies: the new rotation is rt's rotation times
   * the old one, and rt's translation is added without being rotated.
   */
  lemma FoldIsLeftMultiplication(a: Affine, rt: Affine)
    ensures Fold(a, rt).rot == MatMul(rt.rot, a.rot)
    ensures Fold(a, rt).shift == VecAdd(a.shift, rt.shift)
  {
  }

  /** The twelve values of Transf.matrix: nine rotation entries row by row, then dx, dy, dz. */
  function Flatten(a: Affine): (m: seq<real>)
    ensures |m| == 12
  {
    [a.rot.xx, a.rot.xy, a.rot.xz, a.rot.yx, a.rot.yy, a.rot.yz,
     a.rot.zx, a.rot.zy, a.rot.zz, a.shift.x, a.shift.y, a.shift.z]
  }

  /** Reads a twelve-value list back as a transform (the layout of a stored document). */
  function Unflatten(m: seq<real>): Affine
    requires |m| == 12
  {
    Affine(Mat3(m[0], m[1], m[2], m[3], m[4], m[5], m[6], m[7], m[8]), Vec3(m[9], m[10], m[11]))
  }

  /** Flatten loses nothing: both round trips are the identity. */
  lemma FlattenRoundTrip(a: Affine, m: seq<real>)
    ensures Unflatten(Flatten(a)) == a
    ensures |m| == 12 ==> Flatten(Unflatten(m)) == m
  {
  }

  /** Matrix multiplication is associative, entry by entry. */
  lemma MatMulAssoc(a: Mat3, b: Mat3, c: Mat3)
    ensures MatMul(MatMul(a, b), c) == MatMul(a, MatMul(b, c))
  {
    MatMulAssocXX(a, b, c);
    MatMulAssocXY(a, b, c);
    MatMulAssocXZ(a, b, c);
    MatMulAssocYX(a, b, c);
    MatMulAssocYY(a, b, c);
    MatMulAssocYZ(a, b, c);
    MatMulAssocZX(a, b, c);
    MatMulAssocZY(a, b, c);
    MatMulAssocZZ(a, b, c);
  }

  lemma MatMulAssocXX(a: Mat3, b: Mat3, c: Mat3)
    ensures MatMul(MatMul(a, b), c).xx == MatMul(a, MatMul(b, c)).xx
  {
    var ab, bc := MatMul(a, b), MatMul(b, c);
    DotAssoc(a.xx, a.xy, a.xz,
             b.xx, b.xy, b.xz, b.yx, b.yy, b.yz, b.zx, b.zy, b.zz,
             c.xx, c.yx, c.zx,
             ab.xx, ab.xy, ab.xz, bc.xx, bc.yx, bc.zx);
  }

  lemma MatMulAssocXY(a: Mat3, b: Mat3, c: Mat3)
    ensures MatMul(MatMul(a, b), c).xy == MatMul(a, MatMul(b, c)).xy
  {
    var ab, bc := MatMul(a, b), MatMul(b, c);
    DotAssoc(a.xx, a.xy, a.xz,
             b.xx, b.xy, b.xz, b.yx, b.yy, b.yz, b.zx, b.zy, b.zz,
             c.xy, c.yy, c.zy,
             ab.xx, ab.xy, ab.xz, bc.xy, bc.yy, bc.zy);
  }

  lemma MatMulAssocXZ(a: Mat3, b: Mat3, c: Mat3)
    ensures MatMul(MatMul(a, b), c).xz == MatMul(a, MatMul(b, c)).xz
  {
    var ab, bc := MatMul(a, b), MatMul(b, c);
    DotAssoc(a.xx, a.xy, a.xz,
             b.xx, b.xy, b.xz, b.yx, b.yy, b.yz, b.zx, b.zy, b.zz,
             c.xz, c.yz, c.zz,
             ab.xx, ab.xy, ab.xz, bc.xz, bc.yz, bc.zz);
  }

  lemma MatMulAssocYX(a: Mat3, b: Mat3, c: Mat3)
    ensures MatMul(MatMul(a, b), c).yx == MatMul(a, MatMul(b, c)).yx
  {
    var ab, bc := MatMul(a, b), MatMul(b, c);
    DotAssoc(a.yx, a.yy, a.yz,
             b.xx, b.xy, b.xz, b.yx, b.yy, b.yz, b.zx, b.zy, b.zz,
             c.xx, c.yx, c.zx,
             ab.yx, ab.yy, ab.yz, bc.xx, bc.yx, bc.zx);
  }

  lemma MatMulAssocYY(a: Mat3, b: Mat3, c: Mat3)
    ensures MatMul(MatMul(a, b), c).yy == MatMul(a, MatMul(b, c)).yy
  {
    var ab, bc := MatMul(a, b), MatMul(b, c);
    DotAssoc(a.yx, a.yy, a.yz,
             b.xx, b.xy, b.xz, b.yx, b.yy, b.yz, b.zx, b.zy, b.zz,
             c.xy, c.yy, c.zy,
             ab.yx, ab.yy, ab.yz, bc.xy, bc.yy, bc.zy);
  }

  lemma MatMulAssocYZ(a: Mat3, b: Mat3, c: Mat3)
    ensures MatMul(MatMul(a, b), c).yz == MatMul(a, MatMul(b, c)).yz
  {
    var ab, bc := MatMul(a, b), MatMul(b, c);
    DotAssoc(a.yx, a.yy, a.yz,
             b.xx, b.xy, b.xz, b.yx, b.yy, b.yz, b.zx, b.zy, b.zz,
             c.xz, c.yz, c.zz,
             ab.yx, ab.yy, ab.yz, bc.xz, bc.yz, bc.zz);
  }

  lemma MatMulAssocZX(a: Mat3, b: Mat3, c: Mat3)
    ensures MatMul(MatMul(a, b), c).zx == MatMul(a, MatMul(b, c)).zx
  {
    var ab, bc := MatMul(a, b), MatMul(b, c);
    DotAssoc(a.zx, a.zy, a.zz,
             b.xx, b.xy, b.xz, b.yx, b.yy, b.yz, b.zx, b.zy, b.zz,
             c.xx, c.yx, c.zx,
             ab.zx, ab.zy, ab.zz, bc.xx, bc.yx, bc.zx);
  }

  lemma MatMulAssocZY(a: Mat3, b: Mat3, c: Mat3)
    ensures MatMul(MatMul(a, b), c).zy == MatMul(a, MatMul(b, c)).zy
  {
    var ab, bc := MatMul(a, b), MatMul(b, c);
    DotAssoc(a.zx, a.zy, a.zz,
             b.xx, b.xy, b.xz, b.yx, b.yy, b.yz, b.zx, b.zy, b.zz,
             c.xy, c.yy, c.zy,
             ab.zx, ab.zy, ab.zz, bc.xy, bc.yy, bc.zy);
  }

  lemma MatMulAssocZZ(a: Mat3, b: Mat3, c: Mat3)
    ensures MatMul(MatMul(a, b), c).zz == MatMul(a, MatMul(b, c)).zz
  {
    var ab, bc := MatMul(a, b), MatMul(b, c);
    DotAssoc(a.zx, a.zy, a.zz,
             b.xx, b.xy, b.xz, b.yx, b.yy, b.yz, b.zx, b.zy, b.zz,
             c.xz, c.yz, c.zz,
             ab.zx, ab.zy, ab.zz, bc.xz, bc.yz, bc.zz);
  }

  /**
   * One entry of the associativity law over plain reals, with the entries
   * p of a*b and q of b*c named so that the solver only matches products.
   */
  lemma DotAssoc(a0: real, a1: real, a2: real,
                 b00: real, b01: real, b02: real, b10: real, b11: real, b12: real, b20: real, b21: real, b22: real,
                 c0: real, c1: real, c2: real,
                 p0: real, p1: real, p2: real, q0: real, q1: real, q2: real)
    requires p0 == a0 * b00 + a1 * b10 + a2 * b20
    requires p1 == a0 * b01 + a1 * b11 + a2 * b21
    requires p2 == a0 * b02 + a1 * b12 + a2 * b22
    requires q0 == b00 * c0 + b01 * c1 + b02 * c2
    requires q1 == b10 * c0 + b11 * c1 + b12 * c2
    requires q2 == b20 * c0 + b21 * c1 + b22 * c2
    ensures p0 * c0 + p1 * c1 + p2 * c2 == a0 * q0 + a1 * q1 + a2 * q2
  {
  }

  lemma MatMulIdentity(a: Mat3)
    ensures MatMul(a, IdentityMat) == a && MatMul(IdentityMat, a) == a
  {
  }

  lemma VecAddAssoc(u: Vec3, v: Vec3, w: Vec3)
    ensures VecAdd(VecAdd(u, v), w) == VecAdd(u, VecAdd(v, w))
  {
  }

  /** Folding a sequence of transforms one after another, as siblings are folded. */
  function FoldAll(a: Affine, rts: seq<Affine>): Affine
    decreases |rts|
  {
    if rts == [] then a else FoldAll(Fold(a, rts[0]), rts[1..])
  }

  /** The rotations of rts multiplied latest-first: rts[n-1] * ... * rts[0]. */
  function Product(rts: seq<Affine>): Mat3
    decreases |rts|
  {
    if rts == [] then IdentityMat else MatMul(Product(rts[1..]), rts[0].rot)
  }

  /** The translations of rts added up, in order. */
  function ShiftSum(rts: seq<Affine>): Vec3
    decreases |rts|
  {
    if rts == [] then ZeroVec else VecAdd(rts[0].shift, ShiftSum(rts[1..]))
  }

  /**
   * Folding n transforms in order gives the ordered product of their
   * rotations, applied on the left of the starting rotation, and the plain
   * sum of their translations.
   */
  lemma {:induction false} FoldAllIsProduct(a: Affine, rts: seq<Affine>)
    ensures FoldAll(a, rts).rot == MatMul(Product(rts), a.rot)
    ensures FoldAll(a, rts).shift == VecAdd(a.shift, ShiftSum(rts))
    decreases |rts|
  {
    if rts == [] {
      MatMulIdentity(a.rot);
    } else {
      var b := Fold(a, rts[0]);
      FoldIsLeftMultiplication(a, rts[0]);
      FoldAllIsProduct(b, rts[1..]);
      MatMulAssoc(Product(rts[1..]), rts[0].rot, a.rot);
      VecAddAssoc(a.shift, rts[0].shift, ShiftSum(rts[1..]));
    }
  }

  /** Folding one more transform at the end is one more Fold. */
  lemma {:induction false} FoldAllSnoc(a: Affine, rts: seq<Affine>, rt: Affine)
    ensures FoldAll(a, rts + [rt]) == Fold(FoldAll(a, rts), rt)
    decreases |rts|
  {
    if rts != [] {
      assert (rts + [rt])[1..] == rts[1..] + [rt];
      FoldAllSnoc(Fold(a, rts[0]), rts[1..], rt);
    }
  }

  /** Starting from a fresh Transf, the folded rotation is exactly the ordered product. */
  lemma FoldAllFromIdentity(rts: seq<Affine>)
    ensures FoldAll(Identity, rts).rot == Product(rts)
    ensures FoldAll(Identity, rts).shift == ShiftSum(rts)
  {
    FoldAllIsProduct(Identity, rts);
    MatMulIdentity(Product(rts));
  }

  /** The accumulator object: twelve fields that add_transform overwrites in place. */
  class Transf {
    var xx: real
    var xy: real
    var xz: real
    var yx: real
    var yy: real
    var yz: real
    var zx: real
    var zy: real
    var zz: real
    var dx: real
    var dy: real
    var dz: real

    /** The transform the twelve fields hold. */
    function Value(): Affine
      reads this
    {
      Affine(Mat3(xx, xy, xz, yx, yy, yz, zx, zy, zz), Vec3(dx, dy, dz))
    }

    /** Transf(): identity rotation, zero translation. */
    constructor ()
      ensures Value() == Identity
    {
      xx, xy, xz := 1.0, 0.0, 0.0;
      yx, yy, yz := 0.0, 1.0, 0.0;
      zx, zy, zz := 0.0, 0.0, 1.0;
      dx, dy, dz := 0.0, 0.0, 0.0;
    }

    /** copy.copy of a Transf: a new object holding the same twelve values. */
    constructor Copy(src: Transf)
      ensures Value() == src.Value()
    {
      xx, xy, xz := src.xx, src.xy, src.xz;
      yx, yy, yz := src.yx, src.yy, src.yz;
      zx, zy, zz := src.zx, src.zy, src.zz;
      dx, dy, dz := src.dx, src.dy, src.dz;
    }

    /** add_transform: compose rt onto this accumulator, in place. */
    method AddTransform(rt: Affine)
      modifies this
      ensures Value() == Fold(old(Value()), rt)
    {
      var r := rt.rot;
      var s11 := Dot(xx, yx, zx, r.xx, r.xy, r.xz);
      var s12 := Dot(xy, yy, zy, r.xx, r.xy, r.xz);
      var s13 := Dot(xz, yz, zz, r.xx, r.xy, r.xz);

      var s21 := Dot(xx, yx, zx, r.yx, r.yy, r.yz);
      var s22 := Dot(xy, yy, zy, r.yx, r.yy, r.yz);
      var s23 := Dot(xz, yz, zz, r.yx, r.yy, r.yz);

      var s31 := Dot(xx, yx, zx, r.zx, r.zy, r.zz);
      var s32 := Dot(xy, yy, zy, r.zx, r.zy, r.zz);
      var s33 := Dot(xz, yz, zz, r.zx, r.zy, r.zz);

      ghost var before := Value();
      FoldByEntries(before, Affine(Mat3(s11, s12, s13, s21, s22, s23, s31, s32, s33),
                                   Vec3(dx + rt.shift.x, dy + rt.shift.y, dz + rt.shift.z)), rt);

      xx, xy, xz := s11, s12, s13;
      yx, yy, yz := s21, s22, s23;
      zx, zy, zz := s31, s32, s33;

      dx := dx + rt.shift.x;
      dy := dy + rt.shift.y;
      dz := dz + rt.shift.z;
    }

    /** matrix(): exactly twelve values, which read back as this transform. */
    function Matrix(): (m: seq<real>)
      reads this
      ensures |m| == 12 && Unflatten(m) == Value()
      ensures m == Flatten(Value())
    {
      [xx, xy, xz, yx, yy, yz, zx, zy, zz, dx, dy, dz]
    }
  }
}
