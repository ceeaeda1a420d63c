/**
 * Points, normals and axis-aligned boxes over real numbers. Floating-point
 * rounding is not modelled.
 */
module Geometry {

  /** JavaScript's Number.MAX_VALUE, the seed of every min/max scan. */
  const MaxValue: real := 1.7976931348623157e308

  datatype Vec3 = Vec3(x: real, y: real, z: real)
  {
    /** Component c of the vector: 0 is x, 1 is y, 2 is z. */
    function At(c: nat): real
      requires c < 3
    {
      if c == 0 then x else if c == 1 then y else z
    }
  }

  function Sub(a: Vec3, b: Vec3): Vec3
  {
    Vec3(a.x - b.x, a.y - b.y, a.z - b.z)
  }

  function Add(a: Vec3, b: Vec3): Vec3
  {
    Vec3(a.x + b.x, a.y + b.y, a.z + b.z)
  }

  function Dot(a: Vec3, b: Vec3): real
  {
    a.x * b.x + a.y * b.y + a.z * b.z
  }

  /**
   * The un-normalised face normal of the mesh preparation step: the cross
   * product of the two edges leaving the first vertex. It is perpendicular
   * to both edges.
   */
  function Cross(a: Vec3, b: Vec3): (n: Vec3)
    ensures Dot(n, a) == 0.0 && Dot(n, b) == 0.0
  {
    Vec3(a.y * b.z - a.z * b.y, a.z * b.x - a.x * b.z, a.x * b.y - a.y * b.x)
  }

  datatype AABB = AABB(minX: real, minY: real, minZ: real, maxX: real, maxY: real, maxZ: real)
  {
    /** Lower bound along axis c. */
    function Lo(c: nat): real
      requires c < 3
    {
      if c == 0 then minX else if c == 1 then minY else minZ
    }

    /** Upper bound along axis c. */
    function Hi(c: nat): real
      requires c < 3
    {
      if c == 0 then maxX else if c == 1 then maxY else maxZ
    }

    predicate Contains(p: Vec3)
    {
      minX <= p.x <= maxX && minY <= p.y <= maxY && minZ <= p.z <= maxZ
    }

    /**
     * The centre of the box: it lies halfway between the bounds on every
     * axis, hence inside the box whenever the box is not inverted.
     */
    function Center(): (c: Vec3)
      ensures c.x - minX == maxX - c.x && c.y - minY == maxY - c.y && c.z - minZ == maxZ - c.z
      ensures minX <= maxX && minY <= maxY && minZ <= maxZ ==> Contains(c)
    {
      Vec3((minX + maxX) / 2.0, (minY + maxY) / 2.0, (minZ + maxZ) / 2.0)
    }
  }

  /** The inverted box both bounding-box computations start from. */
  const Inverted: AABB := AABB(MaxValue, MaxValue, MaxValue, -MaxValue, -MaxValue, -MaxValue)

  /** The box with axis c widened, where needed, to take in v. */
  function Include(box: AABB, c: nat, v: real): (r: AABB)
    requires c < 3
    ensures r.Lo(c) <= v <= r.Hi(c)
    ensures r.Lo(c) <= box.Lo(c) && r.Hi(c) >= box.Hi(c)
    ensures r.Lo(c) == box.Lo(c) || r.Lo(c) == v
    ensures r.Hi(c) == box.Hi(c) || r.Hi(c) == v
    ensures forall d | 0 <= d < 3 && d != c :: r.Lo(d) == box.Lo(d) && r.Hi(d) == box.Hi(d)
  {
    var lo := if v < box.Lo(c) then v else box.Lo(c);
    var hi := if v > box.Hi(c) then v else box.Hi(c);
    if c == 0 then box.(minX := lo, maxX := hi)
    else if c == 1 then box.(minY := lo, maxY := hi)
    else box.(minZ := lo, maxZ := hi)
  }

  /** The union step of the scene box: each bound moves outwards to the child's. */
  function Union(a: AABB, b: AABB): (r: AABB)
    ensures forall c | 0 <= c < 3 ::
      && r.Lo(c) <= a.Lo(c) && r.Lo(c) <= b.Lo(c) && (r.Lo(c) == a.Lo(c) || r.Lo(c) == b.Lo(c))
      && r.Hi(c) >= a.Hi(c) && r.Hi(c) >= b.Hi(c) && (r.Hi(c) == a.Hi(c) || r.Hi(c) == b.Hi(c))
  {
    AABB(if a.minX > b.minX then b.minX else a.minX,
         if a.minY > b.minY then b.minY else a.minY,
         if a.minZ > b.minZ then b.minZ else a.minZ,
         if a.maxX < b.maxX then b.maxX else a.maxX,
         if a.maxY < b.maxY then b.maxY else a.maxY,
         if a.maxZ < b.maxZ then b.maxZ else a.maxZ)
  }
}
