/**
 * The renderer's 3x4 affine transformation matrix and the batch transforms
 * that apply it to flat lists of coordinates, over real numbers
 * (floating-point rounding is not modelled).
 */
module Matrices {
  import opened Geometry

  /** The twelve coefficients of a matrix as a value: three rows of four. */
  datatype Affine = Affine(
    m00: real, m01: real, m02: real, m03: real,
    m10: real, m11: real, m12: real, m13: real,
    m20: real, m21: real, m22: real, m23: real)

  /** The image of a point: the 3x3 part applied to it, plus the last column. */
  function Apply(a: Affine, v: Vec3): Vec3
  {
    Vec3(
      a.m00 * v.x + a.m01 * v.y + a.m02 * v.z + a.m03,
      a.m10 * v.x + a.m11 * v.y + a.m12 * v.z + a.m13,
      a.m20 * v.x + a.m21 * v.y + a.m22 * v.z + a.m23)
  }

  /** The identity matrix: it maps every point to itself and is neutral for products. */
  function IdentityMatrix(): (id: Affine)
    ensures forall v :: Apply(id, v) == v
    ensures forall a :: Product(id, a) == a && Product(a, id) == a
  {
    Affine(1.0, 0.0, 0.0, 0.0, 0.0, 1.0, 0.0, 0.0, 0.0, 0.0, 1.0, 0.0)
  }

  /**
   * The product computed by `multiply`: `mult` applied after `a`, with the
   * matrices read as affine maps (an implicit last row 0 0 0 1).
   */
  function Product(mult: Affine, a: Affine): Affine
  {
    Affine(
      mult.m00 * a.m00 + mult.m01 * a.m10 + mult.m02 * a.m20,
      mult.m00 * a.m01 + mult.m01 * a.m11 + mult.m02 * a.m21,
      mult.m00 * a.m02 + mult.m01 * a.m12 + mult.m02 * a.m22,
      mult.m00 * a.m03 + mult.m01 * a.m13 + mult.m02 * a.m23 + mult.m03,
      mult.m10 * a.m00 + mult.m11 * a.m10 + mult.m12 * a.m20,
      mult.m10 * a.m01 + mult.m11 * a.m11 + mult.m12 * a.m21,
      mult.m10 * a.m02 + mult.m11 * a.m12 + mult.m12 * a.m22,
      mult.m10 * a.m03 + mult.m11 * a.m13 + mult.m12 * a.m23 + mult.m13,
      mult.m20 * a.m00 + mult.m21 * a.m10 + mult.m22 * a.m20,
      mult.m20 * a.m01 + mult.m21 * a.m11 + mult.m22 * a.m21,
      mult.m20 * a.m02 + mult.m21 * a.m12 + mult.m22 * a.m22,
      mult.m20 * a.m03 + mult.m21 * a.m13 + mult.m22 * a.m23 + mult.m23)
  }

  /** Transforming by a product is transforming by `a`, then by `mult`. */
  lemma ProductApplies(mult: Affine, a: Affine, v: Vec3)
    ensures Apply(Product(mult, a), v) == Apply(mult, Apply(a, v))
  {
    var p, q := Apply(Product(mult, a), v), Apply(mult, Apply(a, v));
    ProductRowX(mult, a, v);
    ProductRowY(mult, a, v);
    ProductRowZ(mult, a, v);
    assert p == Vec3(q.x, q.y, q.z);
  }

  /** The x coordinate of ProductApplies. */
  lemma ProductRowX(mult: Affine, a: Affine, v: Vec3)
    ensures Apply(Product(mult, a), v).x == Apply(mult, Apply(a, v)).x
  {
    RowProduct(mult.m00, mult.m01, mult.m02, mult.m03, a, v, Apply(a, v));
  }

  /** The y coordinate of ProductApplies. */
  lemma ProductRowY(mult: Affine, a: Affine, v: Vec3)
    ensures Apply(Product(mult, a), v).y == Apply(mult, Apply(a, v)).y
  {
    RowProduct(mult.m10, mult.m11, mult.m12, mult.m13, a, v, Apply(a, v));
  }

  /** The z coordinate of ProductApplies. */
  lemma ProductRowZ(mult: Affine, a: Affine, v: Vec3)
    ensures Apply(Product(mult, a), v).z == Apply(mult, Apply(a, v)).z
  {
    RowProduct(mult.m20, mult.m21, mult.m22, mult.m23, a, v, Apply(a, v));
  }

  /**
   * One row (r0 r1 r2 r3) of a product applied to a point v, against the
   * same row applied to the image w of v: the distributive step of
   * ProductApplies.
   */
  lemma RowProduct(r0: real, r1: real, r2: real, r3: real, a: Affine, v: Vec3, w: Vec3)
    requires w == Apply(a, v)
    ensures (r0 * a.m00 + r1 * a.m10 + r2 * a.m20) * v.x
          + (r0 * a.m01 + r1 * a.m11 + r2 * a.m21) * v.y
          + (r0 * a.m02 + r1 * a.m12 + r2 * a.m22) * v.z
          + (r0 * a.m03 + r1 * a.m13 + r2 * a.m23 + r3)
         == r0 * w.x + r1 * w.y + r2 * w.z + r3
  {
  }

  /**
   * The matrix `scale` leaves: each row multiplied by its axis factor.
   */
  function Scaled(a: Affine, s: Vec3): Affine
  {
    Affine(
      a.m00 * s.x, a.m01 * s.x, a.m02 * s.x, a.m03 * s.x,
      a.m10 * s.y, a.m11 * s.y, a.m12 * s.y, a.m13 * s.y,
      a.m20 * s.z, a.m21 * s.z, a.m22 * s.z, a.m23 * s.z)
  }

  /**
   * The matrix `translate` leaves: the offset added to the last column.
   */
  function Translated(a: Affine, t: Vec3): Affine
  {
    a.(m03 := a.m03 + t.x, m13 := a.m13 + t.y, m23 := a.m23 + t.z)
  }

  /** Every image point of a scaled matrix is the old image scaled per axis. */
  lemma ScaledApplies(a: Affine, s: Vec3, v: Vec3)
    ensures Apply(Scaled(a, s), v) == Vec3(s.x * Apply(a, v).x, s.y * Apply(a, v).y, s.z * Apply(a, v).z)
  {
  }

  /**
   * Every image point of a translated matrix is the old image moved by the
   * offset, and only the last column changes.
   */
  lemma TranslatedApplies(a: Affine, t: Vec3, v: Vec3)
    ensures Apply(Translated(a, t), v) == Add(Apply(a, v), t)
    ensures Translated(a, t).(m03 := a.m03, m13 := a.m13, m23 := a.m23) == a
  {
  }

  /** A matrix object; its methods overwrite its coefficients. */
  class Matrix3x4 {
    var m00: real, m01: real, m02: real, m03: real
    var m10: real, m11: real, m12: real, m13: real
    var m20: real, m21: real, m22: real, m23: real

    /** The coefficients as a value. */
    function Value(): Affine
      reads this
    {
      Affine(m00, m01, m02, m03, m10, m11, m12, m13, m20, m21, m22, m23)
    }

    /** A new matrix is the identity. */
    constructor ()
      ensures Value() == IdentityMatrix()
    {
      m00, m01, m02, m03 := 1.0, 0.0, 0.0, 0.0;
      m10, m11, m12, m13 := 0.0, 1.0, 0.0, 0.0;
      m20, m21, m22, m23 := 0.0, 0.0, 1.0, 0.0;
    }

    /** Reset to the identity. */
    method Identity()
      modifies this
      ensures Value() == IdentityMatrix()
    {
      m00, m01, m02, m03 := 1.0, 0.0, 0.0, 0.0;
      m10, m11, m12, m13 := 0.0, 1.0, 0.0, 0.0;
      m20, m21, m22, m23 := 0.0, 0.0, 1.0, 0.0;
    }

    /** Scale each row by its axis factor. */
    method Scale(sx: real, sy: real, sz: real)
      modifies this
      ensures Value() == Scaled(old(Value()), Vec3(sx, sy, sz))
    {
      var r := Scaled(Value(), Vec3(sx, sy, sz));
      m00, m01, m02, m03 := r.m00, r.m01, r.m02, r.m03;
      m10, m11, m12, m13 := r.m10, r.m11, r.m12, r.m13;
      m20, m21, m22, m23 := r.m20, r.m21, r.m22, r.m23;
    }

    /** Move the translation column. */
    method Translate(tx: real, ty: real, tz: real)
      modifies this
      ensures Value() == Translated(old(Value()), Vec3(tx, ty, tz))
    {
      m03 := m03 + tx;
      m13 := m13 + ty;
      m23 := m23 + tz;
    }

    /**
     * Replace this matrix by `mult` times it. All twelve results are computed
     * before any is stored, so `mult` may be this very matrix.
     */
    method Multiply(mult: Matrix3x4)
      modifies this
      ensures Value() == Product(old(mult.Value()), old(Value()))
    {
      var p := Product(mult.Value(), Value());
      m00, m01, m02, m03 := p.m00, p.m01, p.m02, p.m03;
      m10, m11, m12, m13 := p.m10, p.m11, p.m12, p.m13;
      m20, m21, m22, m23 := p.m20, p.m21, p.m22, p.m23;
    }
  }
}
