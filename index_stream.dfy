/**
 * The mesh index stream: a flat sequence of vertex indices in which every
 * face is a run of indices ended by the sentinel -1. The renderers, the
 * normal computations and the OBJ compaction all walk it face by face.
 */
module IndexStream {

  const Sentinel: int := -1

  /** Number of sentinels before position i: the faces completed there. */
  function Sentinels(s: seq<int>, i: nat): (n: nat)
    requires i <= |s|
    ensures n <= i
  {
    if i == 0 then 0 else Sentinels(s, i - 1) + (if s[i - 1] == Sentinel then 1 else 0)
  }

  /** Number of faces in a stream: one per sentinel. */
  function Count(s: seq<int>): nat
  {
    Sentinels(s, |s|)
  }

  /** A run without sentinels completes no face. */
  lemma {:induction false} SentinelsNone(s: seq<int>, i: nat, j: nat)
    requires i <= j <= |s|
    requires forall k :: i <= k < j ==> s[k] != Sentinel
    ensures Sentinels(s, j) == Sentinels(s, i)
    decreases j - i
  {
    if i < j {
      SentinelsNone(s, i, j - 1);
    }
  }

  /** Further positions have completed at least as many faces. */
  lemma {:induction false} SentinelsMonotone(s: seq<int>, i: nat, j: nat)
    requires i <= j <= |s|
    ensures Sentinels(s, i) <= Sentinels(s, j)
    decreases j - i
  {
    if i < j {
      SentinelsMonotone(s, i, j - 1);
    }
  }

  /** Appending entries does not change the faces completed before a position. */
  lemma {:induction false} SentinelsAppend(s: seq<int>, t: seq<int>, i: nat)
    requires i <= |s|
    ensures Sentinels(s + t, i) == Sentinels(s, i)
  {
    if i > 0 {
      assert (s + t)[i - 1] == s[i - 1];
      SentinelsAppend(s, t, i - 1);
    }
  }

  /** A stream is terminated when it is non-empty and ends with the sentinel. */
  predicate Terminated(s: seq<int>)
  {
    |s| > 0 && s[|s| - 1] == Sentinel
  }

  /** Position i starts a face: it is the first entry or follows a sentinel. */
  predicate FaceStart(s: seq<int>, i: nat)
  {
    i < |s| && (i == 0 || s[i - 1] == Sentinel)
  }

  /**
   * A stream the renderers can walk: terminated, every index names one of
   * nv vertices, and every face has at least three indices.
   */
  predicate WellFormed(s: seq<int>, nv: nat)
  {
    && Terminated(s)
    && (forall k :: 0 <= k < |s| ==> s[k] == Sentinel || 0 <= s[k] < nv)
    && (forall i | 0 <= i < |s| && FaceStart(s, i) ::
          i + 3 < |s| && s[i] != Sentinel && s[i + 1] != Sentinel && s[i + 2] != Sentinel)
  }

  /** Position of the sentinel that ends the face running through position i. */
  function FaceEnd(s: seq<int>, i: nat): (e: nat)
    requires Terminated(s) && i < |s|
    ensures i <= e < |s| && s[e] == Sentinel
    decreases |s| - i
  {
    if s[i] == Sentinel then i else FaceEnd(s, i + 1)
  }

  /** No sentinel lies strictly inside a face. */
  lemma {:induction false} FaceEndFirst(s: seq<int>, i: nat)
    requires Terminated(s) && i < |s|
    ensures forall k :: i <= k < FaceEnd(s, i) ==> s[k] != Sentinel
    decreases |s| - i
  {
    if s[i] != Sentinel {
      FaceEndFirst(s, i + 1);
    }
  }

  /** Stepping over a face, up to and including its sentinel, completes exactly one face. */
  lemma FaceSplit(s: seq<int>, i: nat)
    requires Terminated(s) && i < |s|
    ensures Sentinels(s, FaceEnd(s, i) + 1) == Sentinels(s, i) + 1
  {
    var e := FaceEnd(s, i);
    FaceEndFirst(s, i);
    SentinelsNone(s, i, e);
  }

  /** A non-sentinel entry lies in a face whose number is below the face count. */
  lemma FaceNumberBound(s: seq<int>, p: nat)
    requires Terminated(s) && p < |s| && s[p] != Sentinel
    ensures Sentinels(s, p) < Count(s)
  {
    FaceSplit(s, p);
    SentinelsMonotone(s, FaceEnd(s, p) + 1, |s|);
  }

  /**
   * `do {} while (ibuf[j++] != -1)`: the renderers' way of skipping a culled
   * face. It stops just past the first sentinel at or after j.
   */
  method SkipFace(s: seq<int>, j: nat) returns (next: nat)
    requires Terminated(s) && j < |s|
    ensures j < next <= |s| && s[next - 1] == Sentinel
    ensures forall k :: j <= k < next - 1 ==> s[k] != Sentinel
    ensures next == FaceEnd(s, j) + 1
  {
    FaceEndFirst(s, j);
    next := j + 1;
    while s[next - 1] != Sentinel
      invariant j < next <= |s|
      invariant forall k :: j <= k < next - 1 ==> s[k] != Sentinel
      decreases |s| - next
    {
      next := next + 1;
    }
  }

  /** A face is culled when the view-space z of its normal is negative; double-sided meshes use its absolute value. */
  function Culled(nz: real, doubleSided: bool): (culled: bool)
    ensures culled <==> nz < 0.0 && !doubleSided
  {
    var z := if doubleSided then (if nz > 0.0 then nz else -nz) else nz;
    z < 0.0
  }

  datatype Triangle = Triangle(v0: int, v1: int, v2: int)

  /** The fan (a, b, c), (a, c, d), ... of the face whose first index is at a and whose k-th index is at k. */
  function FanFrom(s: seq<int>, a: nat, k: nat, e: nat): (tris: seq<Triangle>)
    requires a < k < e <= |s|
    ensures |tris| == e - k - 1
    decreases e - k
  {
    if k + 1 >= e then [] else [Triangle(s[a], s[k], s[k + 1])] + FanFrom(s, a, k + 1, e)
  }

  /**
   * The triangles the filled-triangle renderers draw, from the face starting
   * at `start` on, whose culling flag is culled[i]: each face that is not culled is fanned from its first
   * vertex; a culled face yields nothing.
   */
  function Fan(s: seq<int>, start: nat, culled: seq<bool>, i: nat): seq<Triangle>
    requires Terminated(s) && start <= |s| && i <= |culled|
    decreases |s| - start
  {
    if start == |s| || i == |culled| then []
    else
      var e := FaceEnd(s, start);
      (if culled[i] || e < start + 2 then [] else FanFrom(s, start, start + 1, e))
        + Fan(s, e + 1, culled, i + 1)
  }

  /**
   * The face walk shared by the filled-triangle renderers: skip a culled
   * face to its sentinel, otherwise take its first two indices and emit one
   * triangle per further index until the sentinel.
   */
  method FanTriangles(s: seq<int>, nv: nat, culled: seq<bool>) returns (tris: seq<Triangle>)
    requires WellFormed(s, nv)
    requires |culled| == Count(s)
    ensures tris == Fan(s, 0, culled, 0)
  {
    ghost var whole := Fan(s, 0, culled, 0);
    tris := [];
    var i: nat, j: nat := 0, 0;
    while i < |culled|
      invariant 0 <= i <= |culled| && j <= |s|
      invariant j == |s| || FaceStart(s, j)
      invariant |culled| - i == Count(s) - Sentinels(s, j)
      invariant tris + Fan(s, j, culled, i) == whole
      decreases |culled| - i
    {
      tris, j := FanStep(s, nv, culled, i, j, tris, whole);
      i := i + 1;
    }
  }

  /** One turn of the loop of FanTriangles: fan face number i, which starts at j, onto tris. */
  method FanStep(s: seq<int>, nv: nat, culled: seq<bool>, i: nat, j: nat, tris: seq<Triangle>, ghost whole: seq<Triangle>)
    returns (more: seq<Triangle>, next: nat)
    requires WellFormed(s, nv) && j <= |s| && (j == |s| || FaceStart(s, j))
    requires i < |culled| && |culled| - i == Count(s) - Sentinels(s, j)
    requires tris + Fan(s, j, culled, i) == whole
    ensures next <= |s| && (next == |s| || FaceStart(s, next))
    ensures |culled| - (i + 1) == Count(s) - Sentinels(s, next)
    ensures more + Fan(s, next, culled, i + 1) == whole
  {
    FanAdvance(s, nv, j, culled, i, tris, whole);
    var face;
    face, next := FaceTriangles(s, nv, j, culled[i]);
    more := tris + face;
  }

  /** One face of the walk: skipped when culled, fanned otherwise. */
  method FaceTriangles(s: seq<int>, nv: nat, start: nat, culled: bool) returns (face: seq<Triangle>, next: nat)
    requires WellFormed(s, nv) && FaceStart(s, start)
    ensures next == FaceEnd(s, start) + 1
    ensures face == if culled then [] else FanFrom(s, start, start + 1, FaceEnd(s, start))
  {
    if culled {
      face := [];
      next := SkipFace(s, start);
    } else {
      face, next := FanFace(s, nv, start);
    }
  }

  /** The loop step of FanTriangles: face number i starts at j. */
  lemma FanAdvance(s: seq<int>, nv: nat, j: nat, culled: seq<bool>, i: nat, done: seq<Triangle>, whole: seq<Triangle>)
    requires WellFormed(s, nv) && j <= |s| && (j == |s| || FaceStart(s, j))
    requires i < |culled| && |culled| - i == Count(s) - Sentinels(s, j)
    requires done + Fan(s, j, culled, i) == whole
    ensures FaceStart(s, j)
    ensures FaceEnd(s, j) + 1 == |s| || FaceStart(s, FaceEnd(s, j) + 1)
    ensures |culled| - (i + 1) == Count(s) - Sentinels(s, FaceEnd(s, j) + 1)
    ensures (done + (if culled[i] then [] else FanFrom(s, j, j + 1, FaceEnd(s, j))))
      + Fan(s, FaceEnd(s, j) + 1, culled, i + 1) == whole
  {
    if j == |s| {
      assert false;
    }
    FaceSplit(s, j);
    var face := if culled[i] then [] else FanFrom(s, j, j + 1, FaceEnd(s, j));
    var rest := Fan(s, FaceEnd(s, j) + 1, culled, i + 1);
    assert Fan(s, j, culled, i) == face + rest;
    assert done + (face + rest) == (done + face) + rest;
  }

  /**
   * One face that is not culled: take its first two indices, then
   * `do { v2 = ibuf[j++]; ...; v1 = v2; } while (ibuf[j] != -1)`, and step
   * over the sentinel.
   */
  method FanFace(s: seq<int>, nv: nat, start: nat) returns (face: seq<Triangle>, next: nat)
    requires WellFormed(s, nv) && FaceStart(s, start)
    ensures next == FaceEnd(s, start) + 1
    ensures face == FanFrom(s, start, start + 1, FaceEnd(s, start))
  {
    var e := FaceEnd(s, start);
    FaceEndFirst(s, start);
    var v0 := s[start];
    var v1 := s[start + 1];
    var j := start + 2;
    face := [];
    while true
      invariant start + 2 <= j < e
      invariant v1 == s[j - 1]
      invariant face + FanFrom(s, start, j - 1, e) == FanFrom(s, start, start + 1, e)
      decreases e - j
    {
      var v2 := s[j];
      j := j + 1;
      face := face + [Triangle(v0, v1, v2)];
      v1 := v2;
      if s[j] == Sentinel {
        break;
      }
    }
    next := j + 1;
  }
}
