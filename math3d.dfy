/**
 * The batch transforms of the renderer: flat lists of coordinates, three
 * per point, mapped through a matrix.
 */
module Math3D {
  import opened Geometry
  import opened Matrices

  /** Point k of a flat coordinate list. */
  function PointAt(s: seq<real>, k: nat): Vec3
    requires 3 * k + 3 <= |s|
  {
    Vec3(s[3 * k], s[3 * k + 1], s[3 * k + 2])
  }

  /** The first n points of s transformed by a, flattened again. */
  function Transformed(a: Affine, s: seq<real>, n: nat): (r: seq<real>)
    requires 3 * n <= |s|
    ensures |r| == 3 * n
  {
    if n == 0 then []
    else
      var p := Apply(a, PointAt(s, n - 1));
      Transformed(a, s, n - 1) + [p.x, p.y, p.z]
  }

  /** Point k of the transformed list is the image of point k. */
  lemma {:induction false} TransformedAt(a: Affine, s: seq<real>, n: nat, k: nat)
    requires 3 * n <= |s| && k < n
    ensures PointAt(Transformed(a, s, n), k) == Apply(a, PointAt(s, k))
  {
    if k < n - 1 {
      TransformedAt(a, s, n - 1, k);
      var r := Transformed(a, s, n - 1);
      assert Transformed(a, s, n)[..3 * (n - 1)] == r;
      assert PointAt(Transformed(a, s, n), k) == PointAt(r, k);
    }
  }

  /**
   * `transformVectors`: every point of vecs, transformed by mat, is written
   * at the same place of xfvecs. Each point is read before its slot is
   * written, so vecs and xfvecs may be the same array.
   */
  method TransformVectors(mat: Matrix3x4, vecs: array<real>, xfvecs: array<real>)
    requires vecs.Length % 3 == 0 && vecs.Length <= xfvecs.Length
    modifies xfvecs
    ensures xfvecs[..vecs.Length] == Transformed(mat.Value(), old(vecs[..]), vecs.Length / 3)
    ensures xfvecs[vecs.Length..] == old(xfvecs[vecs.Length..])
  {
    ghost var v0 := vecs[..];
    ghost var x0 := xfvecs[..];
    ghost var a := mat.Value();
    var i := 0;
    var n := 0;
    while i < vecs.Length
      invariant i == 3 * n <= vecs.Length
      invariant xfvecs[..i] == Transformed(a, v0, n)
      invariant vecs[i..] == v0[i..] && xfvecs[i..] == x0[i..]
    {
      TransformOne(mat, vecs, xfvecs, n, v0, x0);
      i, n := i + 3, n + 1;
    }
    assert n == vecs.Length / 3;
    assert xfvecs[vecs.Length..] == x0[vecs.Length..];
  }

  /** Point n of TransformVectors, written into slots 3n, 3n + 1 and 3n + 2. */
  method TransformOne(mat: Matrix3x4, vecs: array<real>, xfvecs: array<real>, n: nat,
                      ghost v0: seq<real>, ghost x0: seq<real>)
    requires 3 * n + 3 <= vecs.Length <= xfvecs.Length && |v0| == vecs.Length && |x0| == xfvecs.Length
    requires xfvecs[..3 * n] == Transformed(mat.Value(), v0, n)
    requires vecs[3 * n..] == v0[3 * n..] && xfvecs[3 * n..] == x0[3 * n..]
    modifies xfvecs
    ensures xfvecs[..3 * n + 3] == Transformed(mat.Value(), v0, n + 1)
    ensures vecs[3 * n + 3..] == v0[3 * n + 3..] && xfvecs[3 * n + 3..] == x0[3 * n + 3..]
  {
    var i := 3 * n;
    ghost var vb, xb := vecs[..], xfvecs[..];
    assert vb[i..] == v0[i..] && vb[i + 3..] == v0[i + 3..] && xb[i + 3..] == x0[i + 3..];
    var x, y, z := vecs[i], vecs[i + 1], vecs[i + 2];
    assert Vec3(x, y, z) == PointAt(v0, n) by {
      assert vb[i..][0] == x && vb[i..][1] == y && vb[i..][2] == z;
    }
    var p := Apply(mat.Value(), Vec3(x, y, z));
    xfvecs[i], xfvecs[i + 1], xfvecs[i + 2] := p.x, p.y, p.z;
    assert xfvecs[..] == xb[i := p.x][i + 1 := p.y][i + 2 := p.z];
    WriteThree(xb, xfvecs[..], i, p.x, p.y, p.z);
  }

  /** Three consecutive slots overwritten: the rest of the list is kept. */
  lemma WriteThree(before: seq<real>, after: seq<real>, i: nat, a: real, b: real, c: real)
    requires i + 3 <= |before| && after == before[i := a][i + 1 := b][i + 2 := c]
    ensures after[..i + 3] == before[..i] + [a, b, c] && after[i + 3..] == before[i + 3..]
  {
  }

  /**
   * `transformVectorZs`: the depth (z) of every transformed point of vecs,
   * one per point. Slot i is written after point i has been read and before
   * any later point is, so vecs and xfveczs may be the same array.
   */
  method TransformVectorZs(mat: Matrix3x4, vecs: array<real>, xfveczs: array<real>)
    requires vecs.Length % 3 == 0 && vecs.Length / 3 <= xfveczs.Length
    modifies xfveczs
    ensures forall i | 0 <= i < vecs.Length / 3 ::
      xfveczs[i] == Apply(mat.Value(), PointAt(old(vecs[..]), i)).z
    ensures forall i | vecs.Length / 3 <= i < xfveczs.Length :: xfveczs[i] == old(xfveczs[i])
  {
    ghost var v0 := vecs[..];
    ghost var z0 := xfveczs[..];
    var num := vecs.Length / 3;
    var i, j := 0, 0;
    while i < num
      invariant 0 <= i <= num && j == 3 * i
      invariant forall k | 0 <= k < i :: xfveczs[k] == Apply(mat.Value(), PointAt(v0, k)).z
      invariant forall k | j <= k < vecs.Length :: vecs[k] == v0[k]
      invariant forall k | i <= k < xfveczs.Length :: xfveczs[k] == z0[k]
    {
      xfveczs[i] := mat.m20 * vecs[j] + mat.m21 * vecs[j + 1] + mat.m22 * vecs[j + 2] + mat.m23;
      i, j := i + 1, j + 3;
    }
  }
}
