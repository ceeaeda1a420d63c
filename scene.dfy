/**
 * The scene: the meshes that form the world, the ids handed to them for
 * picking, the scene's bounding box, and the render list the viewer sorts
 * the meshes into before drawing.
 */
module Scenes {
  import opened Wrappers
  import opened Geometry
  import opened Meshes
  import opened Palette

  // ---------------------------------------------------------------------
  // Sequences of meshes
  // ---------------------------------------------------------------------

  /** s without its first occurrence of x (s itself when x does not occur). */
  function RemoveFirst<T(==)>(s: seq<T>, x: T): (r: seq<T>)
    ensures x !in s ==> r == s
    ensures x in s ==> |r| == |s| - 1 && multiset(r) + multiset{x} == multiset(s)
  {
    if |s| == 0 then []
    else
      assert s == [s[0]] + s[1..];
      if s[0] == x then s[1..] else [s[0]] + RemoveFirst(s[1..], x)
  }

  /** Removing at the first index that holds x is RemoveFirst. */
  lemma {:induction false} RemoveFirstAt<T>(s: seq<T>, x: T, i: nat)
    requires i < |s| && s[i] == x && x !in s[..i]
    ensures RemoveFirst(s, x) == s[..i] + s[i + 1..]
    decreases i
  {
    if i > 0 {
      assert s[1..][..i - 1] == s[1..i];
      assert s[..i] == [s[0]] + s[1..i];
      RemoveFirstAt(s[1..], x, i - 1);
      assert s[1..][i..] == s[i + 1..];
    }
  }

  /** Mesh ids strictly increase along the sequence, and each lies in 1..next-1. */
  predicate IdsIncreasing(kids: seq<Mesh>, next: nat)
    reads kids
  {
    && (forall i | 0 <= i < |kids| :: 1 <= kids[i].internalId < next)
    && (forall i, j | 0 <= i < j < |kids| :: kids[i].internalId < kids[j].internalId)
  }

  /** Increasing ids stay increasing when one mesh is taken out. */
  lemma IdsIncreasingWithout(kids: seq<Mesh>, next: nat, i: nat)
    requires i < |kids| && IdsIncreasing(kids, next)
    ensures IdsIncreasing(kids[..i] + kids[i + 1..], next)
  {
    var r := kids[..i] + kids[i + 1..];
    assert forall k | 0 <= k < |r| :: r[k] == kids[if k < i then k else k + 1];
  }

  /** Increasing ids give every mesh its own id: an id names at most one child. */
  lemma IdsDistinct(kids: seq<Mesh>, next: nat, i: nat, j: nat)
    requires IdsIncreasing(kids, next) && i < |kids| && j < |kids|
    ensures kids[i].internalId == kids[j].internalId <==> i == j
  {
  }

  // ---------------------------------------------------------------------
  // The scene's bounding box
  // ---------------------------------------------------------------------

  /** Every non-trivial mesh among the first n carries its bounding box. */
  predicate Boxed(kids: seq<Mesh>, n: nat)
    reads kids
    requires n <= |kids|
  {
    forall i | 0 <= i < n :: !kids[i].IsTrivial() ==> kids[i].aabb.Some?
  }

  /** A box whose bounds are finite doubles, at most MaxValue in magnitude. */
  predicate Finite(b: AABB)
  {
    forall c | 0 <= c < 3 :: -MaxValue <= b.Lo(c) <= MaxValue && -MaxValue <= b.Hi(c) <= MaxValue
  }

  /** The union of the boxes of the non-trivial meshes among the first n, from the inverted box. */
  function SceneBox(kids: seq<Mesh>, n: nat): AABB
    reads kids
    requires n <= |kids| && Boxed(kids, n)
  {
    if n == 0 then Inverted
    else
      var box := SceneBox(kids, n - 1);
      if kids[n - 1].IsTrivial() then box else Union(box, kids[n - 1].aabb.value)
  }

  /** The scene box contains the box of every non-trivial mesh. */
  lemma {:induction false} SceneBoxContains(kids: seq<Mesh>, n: nat, k: nat, c: nat)
    requires n <= |kids| && Boxed(kids, n) && k < n && !kids[k].IsTrivial() && c < 3
    ensures SceneBox(kids, n).Lo(c) <= kids[k].aabb.value.Lo(c)
    ensures SceneBox(kids, n).Hi(c) >= kids[k].aabb.value.Hi(c)
    decreases n
  {
    if k < n - 1 {
      SceneBoxContains(kids, n - 1, k, c);
    }
  }

  /**
   * Each bound of the scene box is a bound of some non-trivial mesh's box,
   * or, when every mesh is trivial, the box is the inverted one.
   */
  lemma {:induction false} SceneBoxAttained(kids: seq<Mesh>, n: nat, c: nat)
    requires n <= |kids| && Boxed(kids, n) && c < 3
    requires forall i | 0 <= i < n :: !kids[i].IsTrivial() ==> Finite(kids[i].aabb.value)
    ensures (forall i | 0 <= i < n :: kids[i].IsTrivial()) ==> SceneBox(kids, n) == Inverted
    ensures (exists i | 0 <= i < n :: !kids[i].IsTrivial()) ==>
      (exists k | 0 <= k < n :: !kids[k].IsTrivial() && SceneBox(kids, n).Lo(c) == kids[k].aabb.value.Lo(c))
      && (exists k | 0 <= k < n :: !kids[k].IsTrivial() && SceneBox(kids, n).Hi(c) == kids[k].aabb.value.Hi(c))
    decreases n
  {
    if n > 0 {
      SceneBoxAttained(kids, n - 1, c);
      var last := n - 1;
      if !kids[last].IsTrivial() && forall i | 0 <= i < last :: kids[i].IsTrivial() {
        assert SceneBox(kids, last) == Inverted;
        InvertedUnion(kids[last].aabb.value, c);
      }
    }
  }

  /** A union with the inverted box takes the other box's bounds. */
  lemma InvertedUnion(b: AABB, c: nat)
    requires c < 3 && Finite(b)
    ensures Union(Inverted, b).Lo(c) == b.Lo(c) && Union(Inverted, b).Hi(c) == b.Hi(c)
  {
  }

  // ---------------------------------------------------------------------
  // The scene
  // ---------------------------------------------------------------------

  class Scene {
    var children: seq<Mesh>
    var maxChildId: nat
    var aabb: Option<AABB>

    /** An empty scene hands out ids from 1. */
    constructor ()
      ensures children == [] && maxChildId == 1 && aabb == None && Valid()
    {
      children := [];
      maxChildId := 1;
      aabb := None;
    }

    /** The children's ids strictly increase and lie below the next id to hand out. */
    predicate Valid()
      reads this, children
    {
      maxChildId >= 1 && IdsIncreasing(children, maxChildId)
    }

    /** The scene is empty exactly when it holds no meshes. */
    function IsEmpty(): (empty: bool)
      reads this
      ensures empty <==> |children| == 0
    {
      |children| == 0
    }

    /**
     * Append a mesh, giving it the next id. Adding a mesh that is not yet
     * a child keeps the ids increasing.
     */
    method AddChild(mesh: Mesh)
      modifies this, mesh`internalId
      ensures mesh.internalId == old(maxChildId) && maxChildId == old(maxChildId) + 1
      ensures children == old(children) + [mesh] && aabb == old(aabb)
      ensures old(Valid()) && mesh !in old(children) ==> Valid()
    {
      mesh.internalId := maxChildId;
      maxChildId := maxChildId + 1;
      children := children + [mesh];
    }

    /** Take out the first child identical to mesh, if any; the ids stay increasing. */
    method RemoveChild(mesh: Mesh)
      modifies this
      ensures children == RemoveFirst(old(children), mesh)
      ensures maxChildId == old(maxChildId) && aabb == old(aabb)
      ensures old(Valid()) ==> Valid()
    {
      var i := 0;
      while i < |children|
        invariant 0 <= i <= |children| && children == old(children)
        invariant mesh !in children[..i]
      {
        if children[i] == mesh {
          RemoveFirstAt(children, mesh, i);
          if Valid() {
            IdsIncreasingWithout(children, maxChildId, i);
          }
          children := children[..i] + children[i + 1..];
          return;
        }
        i := i + 1;
      }
      assert children[..i] == children;
    }

    /**
     * The scene box: from the inverted box, each bound moves outwards to
     * take in the box of every non-trivial child.
     */
    method CalcAABB()
      requires Boxed(children, |children|)
      modifies this
      ensures children == old(children) && maxChildId == old(maxChildId)
      ensures aabb == Some(SceneBox(children, |children|))
    {
      var box := Inverted;
      var i := 0;
      while i < |children|
        invariant 0 <= i <= |children| && box == SceneBox(children, i)
      {
        var child := children[i];
        if !child.IsTrivial() {
          box := Union(box, child.aabb.value);
        }
        i := i + 1;
      }
      aabb := Some(box);
    }
  }

  // ---------------------------------------------------------------------
  // The render list
  // ---------------------------------------------------------------------

  /** The non-trivial meshes among the first n, in scene order. */
  function Renderable(kids: seq<Mesh>, n: nat): (r: seq<Mesh>)
    reads kids
    requires n <= |kids|
    ensures |r| <= n
    ensures forall m | m in r :: m in kids[..n] && !m.IsTrivial()
  {
    if n == 0 then []
    else
      var r := Renderable(kids, n - 1);
      assert kids[..n - 1] <= kids[..n];
      if kids[n - 1].IsTrivial() then r else r + [kids[n - 1]]
  }

  /** A non-trivial mesh of the scene is on the render list. */
  lemma {:induction false} RenderableHas(kids: seq<Mesh>, n: nat, k: nat)
    requires n <= |kids| && k < n && !kids[k].IsTrivial()
    ensures kids[k] in Renderable(kids, n)
    decreases n
  {
    if k < n - 1 {
      RenderableHas(kids, n - 1, k);
    }
  }

  /** Where a mesh sorts: its view-space depth and whether it is see-through. */
  datatype SortKey = SortKey(depth: real, isTransparent: bool)

  /**
   * The render-order comparator: negative when a is drawn first. Opaque
   * meshes come before transparent ones; opaque meshes are drawn from near
   * to far (greater depth first) and transparent ones from far to near.
   */
  function Compare(a: SortKey, b: SortKey): real
  {
    if !a.isTransparent && b.isTransparent then -1.0
    else if a.isTransparent && !b.isTransparent then 1.0
    else if a.isTransparent then a.depth - b.depth
    else b.depth - a.depth
  }

  /** The comparator's verdicts, spelled out: when a goes strictly first. */
  lemma CompareMeaning(a: SortKey, b: SortKey)
    ensures Compare(a, b) < 0.0 <==>
      || (!a.isTransparent && b.isTransparent)
      || (!a.isTransparent && !b.isTransparent && a.depth > b.depth)
      || (a.isTransparent && b.isTransparent && a.depth < b.depth)
    ensures Compare(a, b) == 0.0 <==> a.isTransparent == b.isTransparent && a.depth == b.depth
  {
  }

  /** Swapping the arguments negates the verdict. */
  lemma CompareAntisymmetric(a: SortKey, b: SortKey)
    ensures Compare(a, b) == -Compare(b, a)
  {
  }

  /** "Not after" is transitive, so the comparator is a consistent total preorder. */
  lemma CompareTransitive(a: SortKey, b: SortKey, c: SortKey)
    requires Compare(a, b) <= 0.0 && Compare(b, c) <= 0.0
    ensures Compare(a, c) <= 0.0
  {
  }

  /** The sort key of a non-trivial mesh: the depth of its box centre after the view transform. */
  function KeyOf(mesh: Mesh, row: Vec3, offset: real, defaultMaterial: Material): SortKey
    requires mesh.indexBuffer.Some? && mesh.aabb.Some?
    reads mesh, mesh.material, mesh.texture, defaultMaterial
  {
    var material := if mesh.material != null then mesh.material else defaultMaterial;
    SortKey(Dot(row, mesh.aabb.value.Center()) + offset,
            material.transparency > 0.0 || (mesh.HasTexture() && mesh.texture.hasTransparency))
  }

  /** A render-list entry: a mesh and its sort key. */
  datatype Entry = Entry(mesh: Mesh, key: SortKey)

  /** Every entry is not after any later one. */
  predicate Sorted(s: seq<Entry>)
  {
    forall i, j | 0 <= i < j < |s| :: Compare(s[i].key, s[j].key) <= 0.0
  }

  /** e inserted before the first entry it is not after. */
  function Insert(e: Entry, s: seq<Entry>): (r: seq<Entry>)
    ensures multiset(r) == multiset(s) + multiset{e}
  {
    if |s| == 0 then [e]
    else if Compare(e.key, s[0].key) <= 0.0 then [e] + s
    else
      assert s == [s[0]] + s[1..];
      [s[0]] + Insert(e, s[1..])
  }

  /** Insertion adds the entry's mesh to the meshes of the list. */
  lemma {:induction false} InsertMeshes(e: Entry, s: seq<Entry>)
    ensures multiset(MeshesOf(Insert(e, s))) == multiset(MeshesOf(s)) + multiset{e.mesh}
    decreases |s|
  {
    if |s| > 0 {
      if Compare(e.key, s[0].key) <= 0.0 {
        assert ([e] + s)[1..] == s;
      } else {
        InsertMeshes(e, s[1..]);
        assert ([s[0]] + Insert(e, s[1..]))[1..] == Insert(e, s[1..]);
      }
    }
  }

  /** Inserting into a sorted list keeps it sorted. */
  lemma {:induction false} InsertSorted(e: Entry, s: seq<Entry>)
    requires Sorted(s)
    ensures Sorted(Insert(e, s))
    decreases |s|
  {
    if |s| > 0 {
      if Compare(e.key, s[0].key) <= 0.0 {
        forall j | 0 < j < |s| ensures Compare(e.key, s[j].key) <= 0.0 {
          CompareTransitive(e.key, s[0].key, s[j].key);
        }
      } else {
        InsertSorted(e, s[1..]);
        InsertPastHead(e, s);
      }
    }
  }

  /** The step of InsertSorted: the head stays in front of the sorted insertion into the tail. */
  lemma InsertPastHead(e: Entry, s: seq<Entry>)
    requires |s| > 0 && Sorted(s) && Compare(e.key, s[0].key) > 0.0
    requires Sorted(Insert(e, s[1..]))
    ensures Sorted(Insert(e, s))
  {
    var t := s[1..];
    var r := Insert(e, t);
    CompareAntisymmetric(e.key, s[0].key);
    forall j | 0 <= j < |r| ensures Compare(s[0].key, r[j].key) <= 0.0 {
      assert r[j] in multiset(t) + multiset{e} by { assert r[j] in r; }
      if r[j] != e {
        var k :| 0 <= k < |t| && t[k] == r[j];
        assert s[k + 1] == r[j];
      }
    }
  }

  /** Insertion sort by the comparator: the reference for the library sort. */
  function SortEntries(s: seq<Entry>): (r: seq<Entry>)
    ensures multiset(r) == multiset(s)
  {
    if |s| == 0 then []
    else
      assert s == [s[0]] + s[1..];
      Insert(s[0], SortEntries(s[1..]))
  }

  /** Sorting keeps the meshes of the list, each as often as before. */
  lemma {:induction false} SortEntriesMeshes(s: seq<Entry>)
    ensures multiset(MeshesOf(SortEntries(s))) == multiset(MeshesOf(s))
    decreases |s|
  {
    if |s| > 0 {
      SortEntriesMeshes(s[1..]);
      InsertMeshes(s[0], SortEntries(s[1..]));
    }
  }

  /** The sorted render list is sorted. */
  lemma {:induction false} SortEntriesSorted(s: seq<Entry>)
    ensures Sorted(SortEntries(s))
    decreases |s|
  {
    if |s| > 0 {
      SortEntriesSorted(s[1..]);
      InsertSorted(s[0], SortEntries(s[1..]));
    }
  }

  /** The meshes of a list of entries. */
  function MeshesOf(s: seq<Entry>): (r: seq<Mesh>)
    ensures |r| == |s|
  {
    if |s| == 0 then [] else [s[0].mesh] + MeshesOf(s[1..])
  }

  /** Appending an entry appends its mesh. */
  lemma {:induction false} MeshesOfAppend(s: seq<Entry>, e: Entry)
    ensures MeshesOf(s + [e]) == MeshesOf(s) + [e.mesh]
    decreases |s|
  {
    if |s| > 0 {
      assert (s + [e])[1..] == s[1..] + [e];
      MeshesOfAppend(s[1..], e);
    }
  }

  /**
   * The render list: the non-trivial meshes, each with its sort key,
   * sorted so that no mesh is drawn after one it should precede, and
   * holding every non-trivial mesh exactly as often as the scene does.
   */
  method SortScene(meshes: seq<Mesh>, row: Vec3, offset: real, defaultMaterial: Material)
    returns (renderList: seq<Entry>)
    requires Boxed(meshes, |meshes|)
    ensures Sorted(renderList)
    ensures multiset(MeshesOf(renderList)) == multiset(Renderable(meshes, |meshes|))
    ensures forall e | e in renderList :: Keyed(e, row, offset, defaultMaterial)
  {
    var entries := CollectEntries(meshes, row, offset, defaultMaterial);
    renderList := SortEntries(entries);
    SortEntriesSorted(entries);
    SortEntriesMeshes(entries);
    forall e | e in renderList ensures e in entries {
      assert e in multiset(renderList);
    }
  }

  /** An entry whose key is the one its mesh is sorted by. */
  predicate Keyed(e: Entry, row: Vec3, offset: real, defaultMaterial: Material)
    reads e.mesh, e.mesh.material, e.mesh.texture, defaultMaterial
  {
    e.mesh.indexBuffer.Some? && e.mesh.aabb.Some? && e.key == KeyOf(e.mesh, row, offset, defaultMaterial)
  }

  /** The gathering loop of the render list: every non-trivial mesh, in scene order, with its key. */
  method CollectEntries(meshes: seq<Mesh>, row: Vec3, offset: real, defaultMaterial: Material)
    returns (entries: seq<Entry>)
    requires Boxed(meshes, |meshes|)
    ensures MeshesOf(entries) == Renderable(meshes, |meshes|)
    ensures forall e | e in entries :: Keyed(e, row, offset, defaultMaterial)
  {
    entries := [];
    var i := 0;
    while i < |meshes|
      invariant 0 <= i <= |meshes|
      invariant MeshesOf(entries) == Renderable(meshes, i)
      invariant forall e | e in entries :: Keyed(e, row, offset, defaultMaterial)
    {
      var mesh := meshes[i];
      if !mesh.IsTrivial() {
        var entry := Entry(mesh, KeyOf(mesh, row, offset, defaultMaterial));
        MeshesOfAppend(entries, entry);
        entries := entries + [entry];
      }
      i := i + 1;
    }
  }
}
