/**
 * The per-mesh compaction at the end of the OBJ parser. A mesh's index
 * stream refers to the file's global vertex (or texture-coordinate) list;
 * compaction copies only the referenced entries into a list of the mesh's
 * own, in the order they are first referenced, and rewrites the stream in
 * place to index that list. The -1 entries that end each face stay -1.
 */
module ObjCompaction {
  import opened Sequences

  /** The references other than -1 among s[..n], each once, in order of first appearance. */
  function Firsts(s: seq<int>, n: nat): (f: seq<int>)
    requires n <= |s|
    ensures |f| <= n
  {
    if n == 0 then []
    else
      var f := Firsts(s, n - 1);
      if s[n - 1] == -1 || s[n - 1] in f then f else f + [s[n - 1]]
  }

  /** The new index of entry i: -1 stays -1, a reference becomes its place among the first appearances. */
  function NewIndex(s: seq<int>, i: nat): int
    requires i < |s|
  {
    if s[i] == -1 then -1 else LastIndexOf(Firsts(s, i + 1), s[i])
  }

  /** The first n entries of the stream as compaction rewrites them. */
  function Renumber(s: seq<int>, n: nat): (r: seq<int>)
    requires n <= |s|
    ensures |r| == n
  {
    if n == 0 then [] else Renumber(s, n - 1) + [NewIndex(s, n - 1)]
  }

  /** Every reference is -1 or names one of the nv global entries. */
  predicate Resolves(s: seq<int>, nv: nat)
  {
    forall i | 0 <= i < |s| :: s[i] == -1 || 0 <= s[i] < nv
  }

  /** Every element names one of the nv global entries. */
  predicate Within(f: seq<int>, nv: nat)
  {
    forall k | 0 <= k < |f| :: 0 <= f[k] < nv
  }

  /** The global entries o (blocks of stride values) named by f, in the order of f. */
  function Gather<T>(g: seq<T>, f: seq<int>, stride: nat, nv: nat): (local: seq<T>)
    requires |g| == stride * nv && Within(f, nv)
  {
    if f == [] then [] else Gather(g, f[..|f| - 1], stride, nv) + Block(g, f[|f| - 1], stride, nv)
  }

  /** Global entry o: its stride values. */
  function Block<T>(g: seq<T>, o: nat, stride: nat, nv: nat): (b: seq<T>)
    requires |g| == stride * nv && o < nv
    ensures |b| == stride
  {
    BlockInside(o, stride, nv);
    g[o * stride..o * stride + stride]
  }

  /** Value c of global entry o. */
  lemma BlockAt<T>(g: seq<T>, o: nat, stride: nat, nv: nat, c: nat)
    requires |g| == stride * nv && o < nv && c < stride
    ensures 0 <= o * stride && o * stride + c < |g| && Block(g, o, stride, nv)[c] == g[o * stride + c]
  {
    BlockInside(o, stride, nv);
  }

  /** One more block: (a + 1) * b == a * b + b. */
  lemma MulSucc(a: nat, b: nat)
    ensures (a + 1) * b == a * b + b
  {
  }

  /** Block o of stride values lies inside a list of nv blocks. */
  lemma BlockInside(o: nat, stride: nat, nv: nat)
    requires o < nv
    ensures 0 <= o * stride && o * stride + stride <= stride * nv
  {
    assert (o + 1) * stride <= nv * stride by {
      if stride > 0 {
        MulLe(o + 1, nv, stride);
      }
    }
  }

  lemma MulLe(a: nat, b: nat, c: nat)
    requires a <= b
    ensures a * c <= b * c
  {
  }

  /** Appending an element keeps the place of every element already there. */
  lemma LastIndexOfAppend(f: seq<int>, x: int, y: int)
    requires y !in f
    ensures LastIndexOf(f + [y], y) == |f|
    ensures x != y ==> LastIndexOf(f + [y], x) == LastIndexOf(f, x)
  {
    if x != y {
      var r := LastIndexOf(f + [y], x);
      assert LastBefore(f + [y], x, |f| + 1) == LastBefore(f + [y], x, |f|);
      LastBeforePrefix(f, [y], x, |f|);
    }
  }

  /** Searching below n looks only at the first n elements. */
  lemma {:induction false} LastBeforePrefix(f: seq<int>, g: seq<int>, x: int, n: nat)
    requires n <= |f|
    ensures LastBefore(f + g, x, n) == LastBefore(f, x, n)
  {
    if n > 0 {
      assert (f + g)[n - 1] == f[n - 1];
      LastBeforePrefix(f, g, x, n - 1);
    }
  }

  /**
   * The in-place compaction of one mesh: reset the lookup table to -1, then
   * walk the stream; a reference seen for the first time gets the next new
   * index and its global entry is appended to the mesh's list, a reference
   * seen before gets the index it got then.
   */
  method Compact<T>(ib: array<int>, g: seq<T>, stride: nat, viBuffer: array<int>) returns (local: seq<T>)
    requires ib != viBuffer
    requires |g| == stride * viBuffer.Length
    requires Resolves(ib[..], viBuffer.Length)
    modifies ib, viBuffer
    ensures ib[..] == Renumber(old(ib[..]), ib.Length)
    ensures Within(Firsts(old(ib[..]), ib.Length), viBuffer.Length)
      && local == Gather(g, Firsts(old(ib[..]), ib.Length), stride, viBuffer.Length)
  {
    ghost var s := ib[..];
    ResolvesFirsts(s, viBuffer.Length, 0);
    ResetLookup(viBuffer);
    local := [];
    var newVI := 0;
    var i := 0;
    while i < ib.Length
      invariant 0 <= i <= ib.Length && ib.Length == |s|
      invariant ib[..i] == Renumber(s, i) && ib[i..] == s[i..]
      invariant Within(Firsts(s, i), viBuffer.Length)
      invariant forall o | 0 <= o < viBuffer.Length :: viBuffer[o] == LastIndexOf(Firsts(s, i), o)
      invariant newVI == |Firsts(s, i)|
      invariant local == Gather(g, Firsts(s, i), stride, viBuffer.Length)
    {
      local, newVI := CompactStep(ib, g, stride, viBuffer, i, newVI, local, s);
      i := i + 1;
    }
    assert ib[..] == ib[..i];
  }

  /** Mark every global entry as not yet copied. */
  method ResetLookup(viBuffer: array<int>)
    modifies viBuffer
    ensures forall o | 0 <= o < viBuffer.Length :: viBuffer[o] == -1
  {
    var q := 0;
    while q < viBuffer.Length
      invariant 0 <= q <= viBuffer.Length
      invariant forall o | 0 <= o < q :: viBuffer[o] == -1
    {
      viBuffer[q] := -1;
      q := q + 1;
    }
  }

  /** One entry of the compaction walk. */
  method CompactStep<T>(ib: array<int>, g: seq<T>, stride: nat, viBuffer: array<int>,
                        i: nat, newVI: nat, local: seq<T>, ghost s: seq<int>)
    returns (local': seq<T>, newVI': nat)
    requires ib != viBuffer && |g| == stride * viBuffer.Length
    requires Resolves(s, viBuffer.Length) && i < ib.Length == |s|
    requires ib[..i] == Renumber(s, i) && ib[i..] == s[i..]
    requires Within(Firsts(s, i), viBuffer.Length)
    requires forall o | 0 <= o < viBuffer.Length :: viBuffer[o] == LastIndexOf(Firsts(s, i), o)
    requires newVI == |Firsts(s, i)|
    requires local == Gather(g, Firsts(s, i), stride, viBuffer.Length)
    modifies ib, viBuffer
    ensures ib[..i + 1] == Renumber(s, i + 1) && ib[i + 1..] == s[i + 1..]
    ensures Within(Firsts(s, i + 1), viBuffer.Length)
    ensures forall o | 0 <= o < viBuffer.Length :: viBuffer[o] == LastIndexOf(Firsts(s, i + 1), o)
    ensures newVI' == |Firsts(s, i + 1)|
    ensures local' == Gather(g, Firsts(s, i + 1), stride, viBuffer.Length)
  {
    ghost var f := Firsts(s, i);
    ghost var before := ib[..];
    assert ib[i] == s[i] by { assert ib[i..][0] == s[i..][0]; }
    var oldVI := ib[i];
    var rewritten := oldVI;
    local', newVI' := local, newVI;
    if oldVI != -1 {
      if viBuffer[oldVI] == -1 {
        LastIndexOfFinds(f, oldVI);
        assert Firsts(s, i + 1) == f + [oldVI];
        forall o | 0 <= o < viBuffer.Length
          ensures LastIndexOf(f + [oldVI], o) == (if o == oldVI then newVI else viBuffer[o])
        {
          LastIndexOfAppend(f, o, oldVI);
        }
        var v := oldVI * stride;
        BlockInside(oldVI, stride, viBuffer.Length);
        local' := local + g[v..v + stride];
        assert g[v..v + stride] == Block(g, oldVI, stride, viBuffer.Length);
        rewritten := newVI;
        viBuffer[oldVI] := newVI;
        newVI' := newVI + 1;
        assert (f + [oldVI])[..|f|] == f;
      } else {
        LastIndexOfFinds(f, oldVI);
        assert Firsts(s, i + 1) == f;
        rewritten := viBuffer[oldVI];
      }
    }
    ib[i] := rewritten;
    assert ib[..] == before[i := rewritten];
    WriteNext(before, s, i, rewritten);
  }

  /** Writing entry i extends the rewritten prefix by one and leaves the rest as it was. */
  lemma WriteNext(before: seq<int>, s: seq<int>, i: nat, x: int)
    requires i < |before| == |s| && before[i..] == s[i..]
    ensures before[i := x][..i + 1] == before[..i] + [x]
    ensures before[i := x][i + 1..] == s[i + 1..]
  {
    assert before[i + 1..] == before[i..][1..];
  }

  /** Every first appearance is a reference of the stream. */
  lemma {:induction false} ResolvesFirsts(s: seq<int>, nv: nat, n: nat)
    requires Resolves(s, nv) && n <= |s|
    ensures Within(Firsts(s, n), nv)
  {
    if n > 0 {
      ResolvesFirsts(s, nv, n - 1);
    }
  }

  /** The first appearances are distinct. */
  lemma {:induction false} FirstsDistinct(s: seq<int>, n: nat)
    requires n <= |s|
    ensures forall a, b | 0 <= a < b < |Firsts(s, n)| :: Firsts(s, n)[a] != Firsts(s, n)[b]
  {
    if n > 0 {
      FirstsDistinct(s, n - 1);
    }
  }

  /** A value is among the first appearances exactly when it is a reference (not -1) among s[..n]. */
  lemma {:induction false} FirstsMembers(s: seq<int>, n: nat, x: int)
    requires n <= |s|
    ensures x in Firsts(s, n) <==> x != -1 && x in s[..n]
  {
    if n > 0 {
      FirstsMembers(s, n - 1, x);
      assert s[..n] == s[..n - 1] + [s[n - 1]];
    }
  }

  /** The first appearances among a prefix begin those among a longer one. */
  lemma {:induction false} FirstsPrefix(s: seq<int>, m: nat, n: nat)
    requires m <= n <= |s|
    ensures |Firsts(s, m)| <= |Firsts(s, n)| && Firsts(s, n)[..|Firsts(s, m)|] == Firsts(s, m)
  {
    if m < n {
      FirstsPrefix(s, m, n - 1);
      var f := Firsts(s, n - 1);
      assert Firsts(s, n)[..|f|] == f;
    }
  }

  /** Entry k of the rewritten stream does not depend on how much of the stream follows. */
  lemma {:induction false} RenumberEntry(s: seq<int>, n: nat, k: nat)
    requires k < n <= |s|
    ensures Renumber(s, n)[k] == NewIndex(s, k)
  {
    if k < n - 1 {
      RenumberEntry(s, n - 1, k);
    }
  }

  /**
   * After compaction, entry k is -1 exactly when it was -1; otherwise it is
   * an index into the mesh's own list, whose entry there is the global
   * index the stream held.
   */
  lemma RenumberPoints(s: seq<int>, k: nat)
    requires k < |s|
    ensures Renumber(s, |s|)[k] == -1 <==> s[k] == -1
    ensures s[k] != -1 ==>
      0 <= Renumber(s, |s|)[k] < |Firsts(s, |s|)| && Firsts(s, |s|)[Renumber(s, |s|)[k]] == s[k]
  {
    RenumberEntry(s, |s|, k);
    if s[k] != -1 {
      var f := Firsts(s, k + 1);
      FirstsMembers(s, k + 1, s[k]);
      assert s[..k + 1][k] == s[k];
      FirstsPrefix(s, k + 1, |s|);
      FoundInLonger(f, Firsts(s, |s|), s[k]);
    }
  }

  /** A value's place in a prefix is its place in the whole sequence. */
  lemma FoundInLonger(f: seq<int>, whole: seq<int>, x: int)
    requires x in f && |f| <= |whole| && whole[..|f|] == f
    ensures 0 <= LastIndexOf(f, x) < |whole| && whole[LastIndexOf(f, x)] == x
  {
    LastIndexOfFinds(f, x);
    var r := LastIndexOf(f, x);
    assert whole[r] == whole[..|f|][r];
  }

  /** Two entries get the same new index exactly when they held the same reference. */
  lemma SameReferenceSameIndex(s: seq<int>, a: nat, b: nat)
    requires a < |s| && b < |s|
    ensures Renumber(s, |s|)[a] == Renumber(s, |s|)[b] <==> s[a] == s[b]
  {
    RenumberPoints(s, a);
    RenumberPoints(s, b);
    FirstsDistinct(s, |s|);
  }

  /**
   * New indices are handed out 0, 1, 2, ... in order of first appearance:
   * entry k's new index never exceeds the number of distinct references
   * before it, and equals it exactly when entry k is the reference's first
   * appearance.
   */
  lemma FirstAppearance(s: seq<int>, k: nat)
    requires k < |s| && s[k] != -1
    ensures Renumber(s, |s|)[k] <= |Firsts(s, k)|
    ensures Renumber(s, |s|)[k] == |Firsts(s, k)| <==> s[k] !in s[..k]
  {
    RenumberEntry(s, |s|, k);
    FirstsMembers(s, k, s[k]);
    var f := Firsts(s, k);
    if s[k] in f {
      LastIndexOfFinds(f, s[k]);
    } else {
      LastIndexOfAppend(f, s[k], s[k]);
    }
  }

  /** The mesh's own list holds one block of stride values per first appearance. */
  lemma {:induction false} GatherLength<T>(g: seq<T>, f: seq<int>, stride: nat, nv: nat)
    requires |g| == stride * nv && Within(f, nv)
    ensures |Gather(g, f, stride, nv)| == |f| * stride
  {
    if f != [] {
      GatherLength(g, f[..|f| - 1], stride, nv);
      MulSucc(|f| - 1, stride);
    }
  }

  /** Block k of the mesh's own list is the global block f[k]. */
  lemma {:induction false} GatherBlock<T>(g: seq<T>, f: seq<int>, stride: nat, nv: nat, k: nat, c: nat)
    requires |g| == stride * nv && Within(f, nv) && k < |f| && c < stride
    ensures 0 <= k * stride && k * stride + c < |Gather(g, f, stride, nv)|
    ensures 0 <= f[k] * stride + c < |g|
    ensures Gather(g, f, stride, nv)[k * stride + c] == g[f[k] * stride + c]
  {
    var front := f[..|f| - 1];
    var last := |f| - 1;
    var o := f[k];
    GatherLength(g, front, stride, nv);
    BlockAt(g, o, stride, nv, c);
    MulLe(0, k, stride);
    MulSucc(last, stride);
    if k < last {
      MulLe(k + 1, last, stride);
      MulSucc(k, stride);
      GatherBlock(g, front, stride, nv, k, c);
      assert front[k] == f[k];
    } else {
      assert k * stride + c - last * stride == c;
    }
  }

  /**
   * Compaction keeps every face's geometry: coordinate c of the local
   * vertex an entry now names is coordinate c of the global vertex it named.
   */
  lemma LocalMatchesGlobal<T>(s: seq<int>, g: seq<T>, stride: nat, nv: nat, k: nat, c: nat)
    requires |g| == stride * nv && Resolves(s, nv) && k < |s| && s[k] != -1 && c < stride
    ensures Within(Firsts(s, |s|), nv)
    ensures var local, r := Gather(g, Firsts(s, |s|), stride, nv), Renumber(s, |s|)[k];
      && 0 <= r * stride + c < |local| && s[k] * stride + c < |g|
      && local[r * stride + c] == g[s[k] * stride + c]
  {
    ResolvesFirsts(s, nv, |s|);
    RenumberPoints(s, k);
    var f := Firsts(s, |s|);
    var r: nat := Renumber(s, |s|)[k];
    GatherBlock(g, f, stride, nv, r, c);
    assert f[r] == s[k];
  }
}
