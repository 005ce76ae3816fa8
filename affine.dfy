/** 3x3 matrices of planar affine maps, as the extractor stores them: the SVG matrix
  * `matrix(a b c d e f)` is the list of rows [[a, c, e], [b, d, f], [0, 0, 1]]. */
module Affine {
  import opened Common

  datatype Mat3 = Mat3(m00: real, m01: real, m02: real,
                       m10: real, m11: real, m12: real,
                       m20: real, m21: real, m22: real)
  {
    /** Entry in row `i`, column `j`. */
    function At(i: nat, j: nat): real
      requires i < 3 && j < 3
    {
      if i == 0 then (if j == 0 then m00 else if j == 1 then m01 else m02)
      else if i == 1 then (if j == 0 then m10 else if j == 1 then m11 else m12)
      else (if j == 0 then m20 else if j == 1 then m21 else m22)
    }
  }

  /** The bottom row is (0, 0, 1): the matrix is a planar affine map. */
  predicate IsAffine(m: Mat3) {
    m.m20 == 0.0 && m.m21 == 0.0 && m.m22 == 1.0
  }

  /** `apply`: the image of `p`; the bottom row is never read. */
  function Apply(m: Mat3, p: Point): (q: Point)
    ensures m == Identity() ==> q == p
  {
    Point(m.m00 * p.x + m.m01 * p.y + m.m02,
          m.m10 * p.x + m.m11 * p.y + m.m12)
  }

  /** `mat`: the matrix of SVG `matrix(a b c d e f)`. */
  function Mat(a: real, b: real, c: real, d: real, e: real, f: real): (m: Mat3)
    ensures IsAffine(m)
    ensures m.m00 == a && m.m10 == b && m.m01 == c && m.m11 == d && m.m02 == e && m.m12 == f
  {
    Mat3(a, c, e,
         b, d, f,
         0.0, 0.0, 1.0)
  }

  /** `I`: the identity matrix. */
  function Identity(): (m: Mat3)
    ensures IsAffine(m)
  {
    Mat3(1.0, 0.0, 0.0,
         0.0, 1.0, 0.0,
         0.0, 0.0, 1.0)
  }

  /** Row `i` of `a` times column `j` of `b`. */
  function Dot(a: Mat3, b: Mat3, i: nat, j: nat): real
    requires i < 3 && j < 3
  {
    a.At(i, 0) * b.At(0, j) + a.At(i, 1) * b.At(1, j) + a.At(i, 2) * b.At(2, j)
  }

  /** `mul`: the full 3x3 matrix product, every row included. The product of two
    * affine maps is affine. */
  function Mul(a: Mat3, b: Mat3): (m: Mat3)
    ensures IsAffine(a) && IsAffine(b) ==> IsAffine(m)
  {
    Mat3(Dot(a, b, 0, 0), Dot(a, b, 0, 1), Dot(a, b, 0, 2),
         Dot(a, b, 1, 0), Dot(a, b, 1, 1), Dot(a, b, 1, 2),
         Dot(a, b, 2, 0), Dot(a, b, 2, 1), Dot(a, b, 2, 2))
  }

  /** The identity is neutral for `mul` on both sides, whatever the bottom row. */
  lemma MulIdentity(a: Mat3)
    ensures Mul(Identity(), a) == a
    ensures Mul(a, Identity()) == a
  {
  }

  /** `apply(mat(a, b, c, d, e, f), x, y)` is (a*x + c*y + e, b*x + d*y + f), the map SVG
    * gives to `matrix(a b c d e f)`. */
  lemma ApplyMat(a: real, b: real, c: real, d: real, e: real, f: real, p: Point)
    ensures Apply(Mat(a, b, c, d, e, f), p) == Point(a * p.x + c * p.y + e, b * p.x + d * p.y + f)
  {
    var m := Mat(a, b, c, d, e, f);
    assert Apply(m, p).x == a * p.x + c * p.y + e;
  }

  /** The entries of a product whose right factor is affine, first row. */
  lemma MulRow0(a: Mat3, b: Mat3)
    requires IsAffine(b)
    ensures var m := Mul(a, b);
      && m.m00 == a.m00 * b.m00 + a.m01 * b.m10
      && m.m01 == a.m00 * b.m01 + a.m01 * b.m11
      && m.m02 == a.m00 * b.m02 + a.m01 * b.m12 + a.m02
  {
  }

  /** The entries of a product whose right factor is affine, second row. */
  lemma MulRow1(a: Mat3, b: Mat3)
    requires IsAffine(b)
    ensures var m := Mul(a, b);
      && m.m10 == a.m10 * b.m00 + a.m11 * b.m10
      && m.m11 == a.m10 * b.m01 + a.m11 * b.m11
      && m.m12 == a.m10 * b.m02 + a.m11 * b.m12 + a.m12
  {
  }

  /** One coordinate of the composition law, over plain reals: row `u` of `A` times `B`,
    * applied to `(x, y)`, equals row `u` applied to `B(x, y) = (qx, qy)`. */
  lemma RowComposes(u0: real, u1: real, u2: real,
                    b00: real, b01: real, b02: real, b10: real, b11: real, b12: real,
                    x: real, y: real, qx: real, qy: real)
    requires qx == b00 * x + b01 * y + b02 && qy == b10 * x + b11 * y + b12
    ensures (u0 * b00 + u1 * b10) * x + (u0 * b01 + u1 * b11) * y + (u0 * b02 + u1 * b12 + u2)
         == u0 * qx + u1 * qy + u2
  {
    calc {
      (u0 * b00 + u1 * b10) * x + (u0 * b01 + u1 * b11) * y + (u0 * b02 + u1 * b12 + u2);
      u0 * b00 * x + u1 * b10 * x + u0 * b01 * y + u1 * b11 * y + u0 * b02 + u1 * b12 + u2;
      u0 * (b00 * x + b01 * y + b02) + u1 * (b10 * x + b11 * y + b12) + u2;
    }
  }

  lemma ApplyMulX(a: Mat3, b: Mat3, p: Point)
    requires IsAffine(b)
    ensures Apply(Mul(a, b), p).x == Apply(a, Apply(b, p)).x
  {
    var q := Apply(b, p);
    MulRow0(a, b);
    RowComposes(a.m00, a.m01, a.m02, b.m00, b.m01, b.m02, b.m10, b.m11, b.m12, p.x, p.y, q.x, q.y);
  }

  lemma ApplyMulY(a: Mat3, b: Mat3, p: Point)
    requires IsAffine(b)
    ensures Apply(Mul(a, b), p).y == Apply(a, Apply(b, p)).y
  {
    var q := Apply(b, p);
    MulRow1(a, b);
    RowComposes(a.m10, a.m11, a.m12, b.m00, b.m01, b.m02, b.m10, b.m11, b.m12, p.x, p.y, q.x, q.y);
  }

  /** Applying `mul(A, B)` applies `B` first and `A` second. Only `B` need be affine:
    * `apply` ignores the bottom row of `A`, but the bottom row of `B` enters the product. */
  lemma ApplyMul(a: Mat3, b: Mat3, p: Point)
    requires IsAffine(b)
    ensures Apply(Mul(a, b), p) == Apply(a, Apply(b, p))
  {
    ApplyMulX(a, b, p);
    ApplyMulY(a, b, p);
  }

  /** The left-to-right product I * ms[0] * ms[1] * ... * ms[n-1]. */
  function Product(ms: seq<Mat3>): Mat3 {
    if ms == [] then Identity() else Mul(Product(ms[..|ms| - 1]), ms[|ms| - 1])
  }

  /** Applies ms[0](ms[1](...ms[n-1](p)...)): the last matrix acts on the point first. */
  function ApplyEach(ms: seq<Mat3>, p: Point): Point {
    if ms == [] then p else Apply(ms[0], ApplyEach(ms[1..], p))
  }

  predicate AllAffine(ms: seq<Mat3>) {
    forall i :: 0 <= i < |ms| ==> IsAffine(ms[i])
  }

  lemma {:induction false} ApplyEachSnoc(ms: seq<Mat3>, m: Mat3, p: Point)
    ensures ApplyEach(ms + [m], p) == ApplyEach(ms, Apply(m, p))
  {
    if ms != [] {
      assert (ms + [m])[1..] == ms[1..] + [m];
      ApplyEachSnoc(ms[1..], m, p);
    }
  }

  /** A product of affine matrices applies its factors right to left. */
  lemma {:induction false} ProductApplies(ms: seq<Mat3>, p: Point)
    requires AllAffine(ms)
    ensures IsAffine(Product(ms))
    ensures Apply(Product(ms), p) == ApplyEach(ms, p)
  {
    if ms != [] {
      var init, last := ms[..|ms| - 1], ms[|ms| - 1];
      assert ms == init + [last];
      ProductApplies(init, Apply(last, p));
      ApplyMul(Product(init), last, p);
      ApplyEachSnoc(init, last, p);
    }
  }
}
