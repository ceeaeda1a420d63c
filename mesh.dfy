/**
 * A mesh and its preparation steps: closing the index stream and counting
 * its faces, the bounding box, the per-face normals and the accumulation of
 * face normals into per-vertex normals.
 */
module Meshes {
  import opened Wrappers
  import opened Geometry
  import opened IndexStream
  import Textures
  import Palette

  /** Vertex k of a flat x,y,z coordinate buffer. */
  function Vertex(vbuf: seq<real>, k: nat): Vec3
    requires k < NumVertices(vbuf)
  {
    VertexInBuffer(vbuf, k);
    Vec3(vbuf[3 * k], vbuf[3 * k + 1], vbuf[3 * k + 2])
  }

  /** Number of whole vertices in a coordinate buffer. */
  function NumVertices(vbuf: seq<real>): nat
  {
    |vbuf| / 3
  }

  /** The three coordinates of a vertex below the vertex count lie inside the buffer. */
  lemma VertexInBuffer(vbuf: seq<real>, k: nat)
    requires k < NumVertices(vbuf)
    ensures 3 * k + 2 < |vbuf|
  {
  }

  /**
   * The stream as closed by the face count step: a final sentinel is
   * appended when missing (an empty stream also gets one).
   */
  function Closed(s: seq<int>): (t: seq<int>)
    ensures Terminated(t)
    ensures |s| <= |t| <= |s| + 1 && t[..|s|] == s
    ensures Terminated(s) ==> t == s
  {
    if |s| > 0 && s[|s| - 1] == Sentinel then s else s + [Sentinel]
  }

  /** The counting loop of the face count step. */
  method CountFaces(s: seq<int>) returns (n: nat)
    ensures n == Count(s)
  {
    n := 0;
    var i := 0;
    while i < |s|
      invariant 0 <= i <= |s|
      invariant n == Sentinels(s, i)
    {
      if s[i] == Sentinel {
        n := n + 1;
      }
      i := i + 1;
    }
  }

  /** Closing a stream adds exactly one face when the stream was not terminated. */
  lemma ClosedCount(s: seq<int>)
    ensures Count(Closed(s)) == Count(s) + (if Terminated(s) then 0 else 1)
  {
    if !Terminated(s) {
      SentinelsAppend(s, [Sentinel], |s|);
    }
  }

  /**
   * One iteration of the bounding-box scan: widen the box by the up to three
   * coordinates of the vertex whose x is at i. A trailing partial vertex
   * contributes only the coordinates it has (JavaScript compares the missing
   * ones as undefined, which changes nothing).
   */
  function TakeIn(box: AABB, vbuf: seq<real>, i: nat): AABB
    requires i < |vbuf|
  {
    var b0 := Include(box, 0, vbuf[i]);
    var b1 := if i + 1 < |vbuf| then Include(b0, 1, vbuf[i + 1]) else b0;
    if i + 2 < |vbuf| then Include(b1, 2, vbuf[i + 2]) else b1
  }

  /** The box after the scan has taken in the first n vertices, from the inverted box. */
  function Scan(vbuf: seq<real>, n: nat): AABB
    requires 3 * n <= |vbuf| + 2
  {
    if n == 0 then Inverted else TakeIn(Scan(vbuf, n - 1), vbuf, 3 * (n - 1))
  }

  /** Vertices the scan visits: i = 0, 3, 6, ... while i < length. */
  function Visits(vbuf: seq<real>): (n: nat)
    ensures 3 * n <= |vbuf| + 2 && |vbuf| <= 3 * n
  {
    (|vbuf| + 2) / 3
  }

  /** The scan loop of the mesh bounding-box step. */
  method ScanBounds(vbuf: seq<real>) returns (box: AABB)
    ensures box == Scan(vbuf, Visits(vbuf))
  {
    box := Inverted;
    var i := 0;
    ghost var n := 0;
    while i < |vbuf|
      invariant i == 3 * n && 3 * n <= |vbuf| + 2
      invariant box == Scan(vbuf, n)
      decreases |vbuf| - i
    {
      box := TakeIn(box, vbuf, i);
      i, n := i + 3, n + 1;
    }
  }

  /** Taking in a vertex only widens the box. */
  lemma TakeInWidens(box: AABB, vbuf: seq<real>, i: nat, c: nat)
    requires i < |vbuf| && c < 3
    ensures TakeIn(box, vbuf, i).Lo(c) <= box.Lo(c) && box.Hi(c) <= TakeIn(box, vbuf, i).Hi(c)
  {
  }

  /** Every coordinate the scan has taken in lies within the bounds of its axis. */
  lemma {:induction false} ScanContains(vbuf: seq<real>, n: nat, k: nat)
    requires 3 * n <= |vbuf| + 2 && k < |vbuf| && k < 3 * n
    ensures Scan(vbuf, n).Lo(k % 3) <= vbuf[k] <= Scan(vbuf, n).Hi(k % 3)
  {
    var i := 3 * (n - 1);
    if k < i {
      ScanContains(vbuf, n - 1, k);
      TakeInWidens(Scan(vbuf, n - 1), vbuf, i, k % 3);
    } else {
      assert k % 3 == k - i;
    }
  }

  /**
   * Every bound of the scanned box is either still the initial +/-MaxValue
   * or one of the coordinates of its axis.
   */
  lemma {:induction false} ScanAttained(vbuf: seq<real>, n: nat, c: nat)
    requires 3 * n <= |vbuf| + 2 && c < 3
    ensures var box := Scan(vbuf, n);
      && (box.Lo(c) == MaxValue || exists k | 0 <= k < |vbuf| && k % 3 == c :: box.Lo(c) == vbuf[k])
      && (box.Hi(c) == -MaxValue || exists k | 0 <= k < |vbuf| && k % 3 == c :: box.Hi(c) == vbuf[k])
  {
    if n > 0 {
      var i := 3 * (n - 1);
      ScanAttained(vbuf, n - 1, c);
      TakeInAttained(Scan(vbuf, n - 1), vbuf, i, c);
    }
  }

  /**
   * After one step of the scan each bound of axis c is the old bound or the
   * coordinate just read, which lies on axis c.
   */
  lemma TakeInAttained(box: AABB, vbuf: seq<real>, i: nat, c: nat)
    requires i < |vbuf| && i % 3 == 0 && c < 3
    ensures var r := TakeIn(box, vbuf, i);
      && (r.Lo(c) == box.Lo(c) || (i + c < |vbuf| && (i + c) % 3 == c && r.Lo(c) == vbuf[i + c]))
      && (r.Hi(c) == box.Hi(c) || (i + c < |vbuf| && (i + c) % 3 == c && r.Hi(c) == vbuf[i + c]))
  {
  }

  /**
   * The vertex named by stream entry k, or the origin when the entry names
   * none (only a malformed stream has such an entry inside a face).
   */
  function Corner(vbuf: seq<real>, s: seq<int>, k: nat): Vec3
  {
    if k < |s| && 0 <= s[k] < NumVertices(vbuf) then Vertex(vbuf, s[k]) else Vec3(0.0, 0.0, 0.0)
  }

  /** The normal of the face whose indices start at position p: the cross product of its first two edges. */
  function FaceNormal(vbuf: seq<real>, s: seq<int>, p: nat): Vec3
  {
    var v0 := Corner(vbuf, s, p);
    Cross(Sub(Corner(vbuf, s, p + 1), v0), Sub(Corner(vbuf, s, p + 2), v0))
  }

  /**
   * On a well-formed stream a face normal is perpendicular to the edges
   * from the face's first vertex to its second and third.
   */
  lemma FaceNormalOrthogonal(vbuf: seq<real>, s: seq<int>, p: nat)
    requires WellFormed(s, NumVertices(vbuf)) && FaceStart(s, p)
    ensures var n := FaceNormal(vbuf, s, p);
      && Dot(n, Sub(Vertex(vbuf, s[p + 1]), Vertex(vbuf, s[p]))) == 0.0
      && Dot(n, Sub(Vertex(vbuf, s[p + 2]), Vertex(vbuf, s[p]))) == 0.0
  {
    assert Corner(vbuf, s, p) == Vertex(vbuf, s[p]);
    assert Corner(vbuf, s, p + 1) == Vertex(vbuf, s[p + 1]);
    assert Corner(vbuf, s, p + 2) == Vertex(vbuf, s[p + 2]);
  }

  /**
   * A buffer built face by face: the components of the vector f gives for
   * each face start, from position p to the end of the stream.
   */
  function PerFace(s: seq<int>, p: nat, f: nat -> Vec3): seq<real>
    requires Terminated(s) && p <= |s|
    decreases |s| - p
  {
    if p == |s| then [] else Components(f(p)) + PerFace(s, FaceEnd(s, p) + 1, f)
  }

  /** The three components of a vector, in buffer order. */
  function Components(n: Vec3): seq<real>
  {
    [n.x, n.y, n.z]
  }

  /** Three values per face give three values per sentinel. */
  lemma {:induction false} PerFaceLength(s: seq<int>, p: nat, f: nat -> Vec3)
    requires Terminated(s) && p <= |s|
    ensures |PerFace(s, p, f)| == 3 * (Count(s) - Sentinels(s, p))
    decreases |s| - p
  {
    if p < |s| {
      var e := FaceEnd(s, p);
      FaceSplit(s, p);
      SentinelsMonotone(s, e + 1, |s|);
      PerFaceLength(s, e + 1, f);
    }
  }

  /** Moving the values of the face at i onto the part already built keeps the whole buffer. */
  lemma PerFaceShift(s: seq<int>, i: nat, f: nat -> Vec3, done: seq<real>, whole: seq<real>)
    requires Terminated(s) && i < |s|
    requires done + PerFace(s, i, f) == whole
    ensures (done + Components(f(i))) + PerFace(s, FaceEnd(s, i) + 1, f) == whole
  {
    var rest := PerFace(s, FaceEnd(s, i) + 1, f);
    assert PerFace(s, i, f) == Components(f(i)) + rest;
    assert done + (Components(f(i)) + rest) == (done + Components(f(i))) + rest;
  }

  /** The normal of the face starting at each position. */
  function NormalAt(vbuf: seq<real>, s: seq<int>): nat -> Vec3
  {
    (p: nat) => FaceNormal(vbuf, s, p)
  }

  /** The face normal buffer: for each face, the three components of its normal. */
  function FaceNormals(vbuf: seq<real>, s: seq<int>): seq<real>
    requires Terminated(s)
  {
    PerFace(s, 0, NormalAt(vbuf, s))
  }

  /** One normal per face: the buffer holds three reals per sentinel. */
  lemma FaceNormalsLength(vbuf: seq<real>, s: seq<int>)
    requires Terminated(s)
    ensures |FaceNormals(vbuf, s)| == 3 * Count(s)
  {
    PerFaceLength(s, 0, NormalAt(vbuf, s));
  }

  /** Inside a face, the sentinel ending it is the same from any position up to it. */
  lemma {:induction false} FaceEndFrom(s: seq<int>, i: nat, j: nat)
    requires Terminated(s) && i < |s| && i <= j <= FaceEnd(s, i)
    ensures FaceEnd(s, j) == FaceEnd(s, i)
    decreases j - i
  {
    if i < j {
      FaceEndFrom(s, i + 1, j);
    }
  }

  /**
   * Walking a well-formed stream: the face starting at i has at least three
   * indices before its sentinel, skipping from i + 3 reaches the same
   * sentinel, and what follows it is the next face or the end.
   */
  lemma NextFace(s: seq<int>, nv: nat, i: nat)
    requires WellFormed(s, nv) && FaceStart(s, i)
    ensures i + 3 <= FaceEnd(s, i) && FaceEnd(s, i + 3) == FaceEnd(s, i)
    ensures FaceEnd(s, i) + 1 == |s| || FaceStart(s, FaceEnd(s, i) + 1)
  {
    FaceEndFirst(s, i);
    FaceEndFrom(s, i, i + 3);
  }

  /**
   * The face normal loop: for each face, store the cross product of its
   * first two edges, then skip to just past the face's sentinel.
   */
  method ComputeFaceNormals(vbuf: seq<real>, s: seq<int>) returns (nbuf: seq<real>)
    requires WellFormed(s, NumVertices(vbuf))
    ensures nbuf == FaceNormals(vbuf, s)
    ensures |nbuf| == 3 * Count(s)
  {
    FaceNormalsLength(vbuf, s);
    nbuf := WalkFaces(s, NumVertices(vbuf), NormalAt(vbuf, s));
  }

  /**
   * The loop of the face normal step, for any vector computed from a face's
   * first three indices: append the face's three components and move on to
   * the next face until the stream ends.
   */
  method WalkFaces(s: seq<int>, nv: nat, f: nat -> Vec3) returns (buf: seq<real>)
    requires WellFormed(s, nv)
    ensures buf == PerFace(s, 0, f)
  {
    ghost var whole := PerFace(s, 0, f);
    buf := [];
    var i := 0;
    while i < |s|
      invariant i <= |s| && (i == |s| || FaceStart(s, i))
      invariant buf + PerFace(s, i, f) == whole
      decreases |s| - i
    {
      NextFace(s, nv, i);
      buf, i := AppendFaceVector(s, f, i, buf, whole);
    }
  }

  /**
   * One turn of a face loop: append the three components of the vector of
   * the face starting at i, which has at least three indices, then skip
   * from its third index past its sentinel to the next face.
   */
  method AppendFaceVector(s: seq<int>, f: nat -> Vec3, i: nat, done: seq<real>, ghost whole: seq<real>)
    returns (more: seq<real>, next: nat)
    requires Terminated(s) && i < |s| && i + 3 <= FaceEnd(s, i)
    requires done + PerFace(s, i, f) == whole
    ensures next == FaceEnd(s, i) + 1
    ensures more + PerFace(s, next, f) == whole
  {
    FaceEndFrom(s, i, i + 3);
    next := SkipFace(s, i + 3);
    more := done + Components(f(i));
    PerFaceShift(s, i, f, done, whole);
  }

  /**
   * The accumulated normal component q of vertex q / 3 over the first p
   * index positions: every occurrence of the vertex adds component q % 3 of
   * the normal of the face it occurs in (face number = sentinels before it).
   */
  function NormalSum(s: seq<int>, fnbuf: seq<real>, q: nat, p: nat): real
    requires Terminated(s) && p <= |s| && |fnbuf| == 3 * Count(s)
  {
    if p == 0 then 0.0
    else
      NormalSum(s, fnbuf, q, p - 1)
        + (if s[p - 1] == q / 3 then
             FaceNumberBound(s, p - 1);
             fnbuf[3 * Sentinels(s, p - 1) + q % 3]
           else 0.0)
  }

  /** A vertex no face refers to accumulates the zero normal. */
  lemma {:induction false} UnreferencedSum(s: seq<int>, fnbuf: seq<real>, q: nat, p: nat)
    requires Terminated(s) && p <= |s| && |fnbuf| == 3 * Count(s)
    requires forall k | 0 <= k < p :: s[k] != q / 3
    ensures NormalSum(s, fnbuf, q, p) == 0.0
  {
    if p > 0 {
      UnreferencedSum(s, fnbuf, q, p - 1);
    }
  }

  /**
   * The accumulation loop of the vertex normal step: a zeroed buffer as long
   * as the vertex buffer, then one pass over the index stream in which a
   * sentinel moves to the next face normal and any other index adds the
   * current face normal to that vertex.
   */
  method AccumulateVertexNormals(s: seq<int>, nv: nat, fnbuf: seq<real>, len: nat) returns (vn: seq<real>)
    requires WellFormed(s, nv) && 3 * nv <= len
    requires |fnbuf| == 3 * Count(s)
    ensures |vn| == len
    ensures forall q | 0 <= q < len :: vn[q] == NormalSum(s, fnbuf, q, |s|)
  {
    var a := new real[len](_ => 0.0);
    var i, j := 0, 0;
    while i < |s|
      invariant 0 <= i <= |s|
      invariant j == 3 * Sentinels(s, i)
      invariant forall q | 0 <= q < len :: a[q] == NormalSum(s, fnbuf, q, i)
    {
      var k := s[i];
      if k == Sentinel {
        j := j + 3;
      } else {
        AddFaceNormal(a, s, nv, fnbuf, i, j);
      }
      i := i + 1;
    }
    vn := a[..];
  }

  /**
   * One vertex occurrence of the accumulation loop: the current face
   * normal, at j in the face normal buffer, is added to the three
   * components of the vertex at position i.
   */
  method AddFaceNormal(a: array<real>, s: seq<int>, nv: nat, fnbuf: seq<real>, i: nat, j: nat)
    requires WellFormed(s, nv) && 3 * nv <= a.Length
    requires |fnbuf| == 3 * Count(s)
    requires i < |s| && s[i] != Sentinel && j == 3 * Sentinels(s, i)
    requires forall q | 0 <= q < a.Length :: a[q] == NormalSum(s, fnbuf, q, i)
    modifies a
    ensures forall q | 0 <= q < a.Length :: a[q] == NormalSum(s, fnbuf, q, i + 1)
  {
    var k := s[i];
    FaceNumberBound(s, i);
    a[3 * k] := a[3 * k] + fnbuf[j];
    a[3 * k + 1] := a[3 * k + 1] + fnbuf[j + 1];
    a[3 * k + 2] := a[3 * k + 2] + fnbuf[j + 2];
  }

  class Mesh {
    var name: string
    var vertexBuffer: Option<seq<real>>
    var indexBuffer: Option<seq<int>>
    var texCoordBuffer: Option<seq<real>>
    var texCoordIndexBuffer: Option<seq<int>>
    var texture: Textures.Texture?
    var material: Palette.Material?
    var faceCount: nat
    var aabb: Option<AABB>
    var faceNormalBuffer: Option<seq<real>>
    var vertexNormalBuffer: Option<seq<real>>
    var isDoubleSided: bool
    var internalId: nat

    constructor ()
      ensures vertexBuffer == None && indexBuffer == None
      ensures texCoordBuffer == None && texCoordIndexBuffer == None
      ensures texture == null && material == null && faceCount == 0 && aabb == None
      ensures faceNormalBuffer == None && vertexNormalBuffer == None
      ensures !isDoubleSided && internalId == 0 && name == ""
    {
      name := "";
      vertexBuffer := None;
      indexBuffer := None;
      texCoordBuffer := None;
      texCoordIndexBuffer := None;
      texture := null;
      material := null;
      faceCount := 0;
      aabb := None;
      faceNormalBuffer := None;
      vertexNormalBuffer := None;
      isDoubleSided := false;
      internalId := 0;
    }

    /**
     * A trivial mesh lacks a vertex buffer or an index buffer, or has fewer
     * than three entries in either; it is left out of rendering and of the
     * scene's bounding box.
     */
    function IsTrivial(): (trivial: bool)
      reads this
      ensures !trivial <==>
        vertexBuffer.Some? && |vertexBuffer.value| >= 3 && indexBuffer.Some? && |indexBuffer.value| >= 3
    {
      match (vertexBuffer, indexBuffer)
      case (Some(vbuf), Some(ibuf)) => |vbuf| < 3 || |ibuf| < 3
      case _ => true
    }

    /**
     * Texture mapping is usable when there are at least two texture
     * coordinates, a texture-index stream at least as long as the
     * vertex-index stream (so every index position has a texture index) and
     * a texture holding texel data.
     */
    function HasTexture(): (textured: bool)
      requires indexBuffer.Some?
      reads this, texture
      ensures textured ==> texture != null && texture.HasData()
      ensures textured ==> texCoordIndexBuffer.Some? && |indexBuffer.value| <= |texCoordIndexBuffer.value|
      ensures textured ==> texCoordBuffer.Some? && |texCoordBuffer.value| >= 2
    {
      && texCoordBuffer.Some? && |texCoordBuffer.value| >= 2
      && texCoordIndexBuffer.Some? && |texCoordIndexBuffer.value| >= 3
      && |texCoordIndexBuffer.value| >= |indexBuffer.value|
      && texture != null && texture.HasData()
    }

    /**
     * Close the index stream with a sentinel when it lacks one and count
     * its faces.
     */
    method CalcFaceCount()
      requires indexBuffer.Some?
      modifies this
      ensures vertexBuffer == old(vertexBuffer) && aabb == old(aabb)
      ensures faceNormalBuffer == old(faceNormalBuffer) && vertexNormalBuffer == old(vertexNormalBuffer)
      ensures texCoordBuffer == old(texCoordBuffer) && texCoordIndexBuffer == old(texCoordIndexBuffer)
      ensures texture == old(texture) && material == old(material)
      ensures name == old(name) && isDoubleSided == old(isDoubleSided) && internalId == old(internalId)
      ensures indexBuffer == Some(Closed(old(indexBuffer.value)))
      ensures faceCount == Count(indexBuffer.value)
    {
      var ibuf := Closed(indexBuffer.value);
      indexBuffer := Some(ibuf);
      faceCount := CountFaces(ibuf);
    }

    /** Store the bounding box of the vertex buffer. */
    method CalcAABB()
      requires vertexBuffer.Some?
      modifies this
      ensures vertexBuffer == old(vertexBuffer) && indexBuffer == old(indexBuffer)
      ensures faceCount == old(faceCount) && faceNormalBuffer == old(faceNormalBuffer)
      ensures vertexNormalBuffer == old(vertexNormalBuffer)
      ensures texCoordBuffer == old(texCoordBuffer) && texCoordIndexBuffer == old(texCoordIndexBuffer)
      ensures texture == old(texture) && material == old(material)
      ensures name == old(name) && isDoubleSided == old(isDoubleSided) && internalId == old(internalId)
      ensures aabb == Some(Scan(vertexBuffer.value, Visits(vertexBuffer.value)))
    {
      var box := ScanBounds(vertexBuffer.value);
      aabb := Some(box);
    }

    /** Compute and store the un-normalised per-face normals. */
    method CalcFaceNormals()
      requires vertexBuffer.Some? && indexBuffer.Some?
      requires WellFormed(indexBuffer.value, NumVertices(vertexBuffer.value))
      modifies this
      ensures vertexBuffer == old(vertexBuffer) && indexBuffer == old(indexBuffer)
      ensures faceCount == old(faceCount) && aabb == old(aabb)
      ensures vertexNormalBuffer == old(vertexNormalBuffer)
      ensures texCoordBuffer == old(texCoordBuffer) && texCoordIndexBuffer == old(texCoordIndexBuffer)
      ensures texture == old(texture) && material == old(material)
      ensures name == old(name) && isDoubleSided == old(isDoubleSided) && internalId == old(internalId)
      ensures faceNormalBuffer == Some(FaceNormals(vertexBuffer.value, indexBuffer.value))
      ensures |faceNormalBuffer.value| == 3 * Count(indexBuffer.value)
    {
      var nbuf := ComputeFaceNormals(vertexBuffer.value, indexBuffer.value);
      faceNormalBuffer := Some(nbuf);
    }

    /**
     * Accumulate the face normals into per-vertex normals, computing the
     * face normals first when they are missing.
     */
    method CalcVertexNormals()
      requires vertexBuffer.Some? && indexBuffer.Some?
      requires WellFormed(indexBuffer.value, NumVertices(vertexBuffer.value))
      requires faceNormalBuffer.Some? ==> |faceNormalBuffer.value| == 3 * Count(indexBuffer.value)
      modifies this
      ensures vertexBuffer == old(vertexBuffer) && indexBuffer == old(indexBuffer)
      ensures faceCount == old(faceCount) && aabb == old(aabb)
      ensures texCoordBuffer == old(texCoordBuffer) && texCoordIndexBuffer == old(texCoordIndexBuffer)
      ensures texture == old(texture) && material == old(material)
      ensures name == old(name) && isDoubleSided == old(isDoubleSided) && internalId == old(internalId)
      ensures old(faceNormalBuffer).Some? ==> faceNormalBuffer == old(faceNormalBuffer)
      ensures old(faceNormalBuffer).None? ==>
        faceNormalBuffer == Some(FaceNormals(vertexBuffer.value, indexBuffer.value))
      ensures faceNormalBuffer.Some? && |faceNormalBuffer.value| == 3 * Count(indexBuffer.value)
      ensures vertexNormalBuffer.Some? && |vertexNormalBuffer.value| == |vertexBuffer.value|
      ensures forall q | 0 <= q < |vertexBuffer.value| ::
        vertexNormalBuffer.value[q] ==
          NormalSum(indexBuffer.value, faceNormalBuffer.value, q, |indexBuffer.value|)
    {
      if faceNormalBuffer.None? {
        CalcFaceNormals();
      }
      var vbuf := vertexBuffer.value;
      var vn := AccumulateVertexNormals(indexBuffer.value, NumVertices(vbuf), faceNormalBuffer.value, |vbuf|);
      vertexNormalBuffer := Some(vn);
    }
  }
}
