/**
 * The binary half of the STL loader: telling a binary file from an ASCII
 * one by the bytes after the header, checking that the file is long enough
 * for the face count it declares, and reading each face's normal and three
 * vertices from their fixed places.
 */
module StlLoader {
  import opened Packed
  import opened LittleEndian

  const HeaderBytes: nat := 80
  const FaceCountBytes: nat := 4
  const FloatBytes: nat := 4
  const FaceNormalBytes: nat := FloatBytes * 3
  const FaceVertices: nat := 3
  const VertexBytes: nat := FloatBytes * 3
  const AttribByteCountBytes: nat := 2

  /** Where the snippet tested for binary content, and the first face, begin. */
  const BodyStart: nat := HeaderBytes + FaceCountBytes

  /** The bytes one face takes: its normal, three vertices and the attribute count. */
  const FaceBytes: nat := FaceNormalBytes + VertexBytes * FaceVertices + AttribByteCountBytes

  /** The most bytes the binary test looks at. */
  const SnippetBytes: nat := 256

  function Min(a: int, b: int): int { if a <= b then a else b }

  /**
   * A file is binary when it has a full header and face count and some
   * byte among the (up to) 256 after them has its top bit set.
   */
  predicate IsBinary(data: seq<Byte>)
  {
    && |data| >= BodyStart
    && exists i | BodyStart <= i < BodyStart + Min(SnippetBytes, |data| - BodyStart) :: data[i] > 0x7f
  }

  /** The detection loop of `parseStl`: scan the snippet and stop at the first byte above 0x7f. */
  method DetectBinary(data: seq<Byte>) returns (isBinary: bool)
    ensures isBinary == IsBinary(data)
  {
    isBinary := false;
    if |data| >= BodyStart {
      var startOfSnippet := BodyStart;
      var endOfSnippet := startOfSnippet + Min(SnippetBytes, |data| - startOfSnippet);
      var i := startOfSnippet;
      while i < endOfSnippet
        invariant startOfSnippet <= i <= endOfSnippet
        invariant forall k | startOfSnippet <= k < i :: data[k] <= 0x7f
      {
        if data[i] > 0x7f {
          isBinary := true;
          break;
        }
        i := i + 1;
      }
    }
  }

  /**
   * Only the snippet decides: two files of at least BodyStart + 256 bytes
   * that agree on the 256 bytes after the face count are both binary or
   * both ASCII, whatever their other bytes.
   */
  lemma SnippetDecides(a: seq<Byte>, b: seq<Byte>)
    requires |a| >= BodyStart + SnippetBytes && |b| >= BodyStart + SnippetBytes
    requires a[BodyStart..BodyStart + SnippetBytes] == b[BodyStart..BodyStart + SnippetBytes]
    ensures IsBinary(a) == IsBinary(b)
  {
    assert forall i | BodyStart <= i < BodyStart + SnippetBytes :: a[i] == a[BodyStart..BodyStart + SnippetBytes][i - BodyStart];
    assert forall i | BodyStart <= i < BodyStart + SnippetBytes :: b[i] == b[BodyStart..BodyStart + SnippetBytes][i - BodyStart];
  }

  /** The file length a binary file declaring n faces needs. */
  function ExpectedLength(n: nat): nat
  {
    HeaderBytes + FaceCountBytes + FaceBytes * n
  }

  /** Where face i starts. */
  function FaceStart(i: nat): nat
  {
    BodyStart + FaceBytes * i
  }

  /** Every face before the declared count lies inside the expected length, in 50-byte records. */
  lemma FacesWithin(n: nat, i: nat)
    requires i < n
    ensures FaceStart(i) + FaceBytes <= ExpectedLength(n)
    ensures FaceStart(i + 1) == FaceStart(i) + 50 && ExpectedLength(n) == 84 + 50 * n
  {
    assert FaceBytes * (i + 1) <= FaceBytes * n;
  }

  /** Three binary32 numbers: a normal or a vertex. */
  datatype Triple = Triple(x: Float, y: Float, z: Float)

  /** A face as stored: its normal and its three vertices. */
  datatype Facet = Facet(normal: Triple, vertices: seq<Triple>)

  /** The three numbers stored from p. */
  function TripleAt(data: seq<Byte>, p: nat): Triple
    requires p + 12 <= |data|
  {
    Triple(Binary32(WordAt(data, p)), Binary32(WordAt(data, p + 4)), Binary32(WordAt(data, p + 8)))
  }

  /** The j triples stored one after the other from p. */
  function TriplesAt(data: seq<Byte>, p: nat, j: nat): (ts: seq<Triple>)
    requires p + 12 * j <= |data|
    ensures |ts| == j
  {
    if j == 0 then [] else TriplesAt(data, p, j - 1) + [TripleAt(data, p + 12 * (j - 1))]
  }

  /** The face stored from p: the normal, then the three vertices from 12 bytes further. */
  function FacetAt(data: seq<Byte>, p: nat): Facet
    requires p + 48 <= |data|
  {
    Facet(TripleAt(data, p), TriplesAt(data, p + 12, FaceVertices))
  }

  /** Read three numbers at cur, advancing the cursor past them. */
  method ReadTriple(data: seq<Byte>, cur: nat) returns (t: Triple, next: nat)
    requires cur + 12 <= |data|
    ensures t == TripleAt(data, cur) && next == cur + 12
  {
    next := cur;
    var x := ReadFloat(data, next);
    next := next + FloatBytes;
    var y := ReadFloat(data, next);
    next := next + FloatBytes;
    var z := ReadFloat(data, next);
    next := next + FloatBytes;
    t := Triple(x, y, z);
  }

  /** One face of the read loop: the normal, the three vertices, then skip the attribute count. */
  method ReadFacet(data: seq<Byte>, cur: nat) returns (f: Facet, next: nat)
    requires cur + FaceBytes <= |data|
    ensures f == FacetAt(data, cur) && next == cur + FaceBytes
  {
    var normal;
    normal, next := ReadTriple(data, cur);
    var vertices: seq<Triple> := [];
    var j := 0;
    while j < FaceVertices
      invariant 0 <= j <= FaceVertices && next == cur + 12 + 12 * j
      invariant vertices == TriplesAt(data, cur + 12, j)
    {
      var v;
      v, next := ReadTriple(data, next);
      vertices := vertices + [v];
      j := j + 1;
    }
    next := next + AttribByteCountBytes;
    f := Facet(normal, vertices);
  }

  /** What `parseStl` makes of a file. */
  datatype StlContent =
    | Ascii
    | Incomplete(declared: nat)
    | Binary(faceCount: nat, facets: seq<Facet>)

  /**
   * `parseStl` up to the vertex welding: an ASCII file is handed to the
   * ASCII parser; a binary one whose length falls short of 84 + 50 * n for
   * its declared n faces yields nothing; otherwise the n faces are read one
   * after the other from byte 84.
   */
  method ParseStl(data: seq<Byte>) returns (r: StlContent)
    ensures r == Ascii <==> !IsBinary(data)
    ensures IsBinary(data) ==>
      var n := UInt(data[HeaderBytes..HeaderBytes + 4]);
      && (r.Incomplete? <==> |data| < ExpectedLength(n))
      && (r.Incomplete? ==> r.declared == n)
      && (r.Binary? ==> r.faceCount == n && |r.facets| == n)
      && (r.Binary? ==> forall i | 0 <= i < n :: FaceStart(i) + FaceBytes <= |data| && r.facets[i] == FacetAt(data, FaceStart(i)))
  {
    var isBinary := DetectBinary(data);
    if !isBinary {
      return Ascii;
    }
    ghost var n := UInt(data[HeaderBytes..HeaderBytes + 4]);
    var cur := HeaderBytes;
    var numOfFaces := ReadUInt32(data, cur);
    cur := cur + FaceCountBytes;
    var expectedLen := ExpectedLength(numOfFaces);
    if |data| < expectedLen {
      return Incomplete(numOfFaces);
    }
    var facets := ReadFacets(data, numOfFaces);
    r := Binary(numOfFaces, facets);
    forall i | 0 <= i < n
      ensures FaceStart(i) + FaceBytes <= |data| && r.facets[i] == FacetAt(data, FaceStart(i))
    {
      FacetsAtIndex(data, n, i);
    }
  }

  /** The first i faces of a file, in order. */
  function FacetsAt(data: seq<Byte>, i: nat): (fs: seq<Facet>)
    requires FaceStart(i) <= |data|
    ensures |fs| == i
  {
    if i == 0 then []
    else
      assert FaceStart(i - 1) + FaceBytes == FaceStart(i);
      FacetsAt(data, i - 1) + [FacetAt(data, FaceStart(i - 1))]
  }

  /** Face k of the first i faces is the face stored at its place. */
  lemma {:induction false} FacetsAtIndex(data: seq<Byte>, i: nat, k: nat)
    requires FaceStart(i) <= |data| && k < i
    ensures FaceStart(k) + FaceBytes <= |data|
    ensures FacetsAt(data, i)[k] == FacetAt(data, FaceStart(k))
  {
    assert FaceStart(i - 1) + FaceBytes == FaceStart(i);
    var prev := FacetsAt(data, i - 1);
    assert FacetsAt(data, i) == prev + [FacetAt(data, FaceStart(i - 1))];
    if k < i - 1 {
      FacetsAtIndex(data, i - 1, k);
      assert FacetsAt(data, i)[k] == prev[k];
    }
  }

  /** The face loop: n faces, 50 bytes apart from byte 84, each read in full. */
  method ReadFacets(data: seq<Byte>, n: nat) returns (facets: seq<Facet>)
    requires ExpectedLength(n) <= |data|
    ensures facets == FacetsAt(data, n)
  {
    facets := [];
    var cur := BodyStart;
    var i := 0;
    while i < n
      invariant 0 <= i <= n && cur == FaceStart(i)
      invariant facets == FacetsAt(data, i)
    {
      FacesWithin(n, i);
      var f;
      f, cur := ReadFacet(data, cur);
      facets := facets + [f];
      i := i + 1;
    }
  }
}
