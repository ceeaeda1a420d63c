/**
 * The OBJ parser: reading the file line by line into global vertex and
 * texture-coordinate lists and into meshes grouped by material, then
 * compacting each mesh's references into lists of its own and adding the
 * meshes that can be drawn to the scene.
 */
module ObjLoader {
  import opened Wrappers
  import opened ObjText
  import opened ObjCompaction
  import opened Meshes
  import opened Scenes

  const NamePrefix: string := "obj-"

  /** The key of the mesh holding faces with no material. */
  const DefaultKey: string := "nomtl"

  /** A mesh while the file is read: its generated name, its material and its two index streams. */
  datatype ObjMesh = ObjMesh(
    name: string,
    mtllib: string,
    mtl: string,
    indexBuffer: seq<int>,
    texCoordIndexBuffer: Option<seq<int>>)

  /** The vertex a face token names: its first '/'-separated number, made 0-based. */
  function VertexRef(token: string): Option<int>
  {
    match ParseInt(Split(token, '/')[0])
    case Some(n) => Some(n - 1)
    case None => None
  }

  /** A face token names a texture coordinate when its second '/'-separated field is not empty. */
  predicate HasTexRef(token: string)
  {
    |Split(token, '/')| > 1 && Split(token, '/')[1] != ""
  }

  /** The texture coordinate a face token names, made 0-based. */
  function TexRef(token: string): Option<int>
    requires HasTexRef(token)
  {
    match ParseInt(Split(token, '/')[1])
    case Some(n) => Some(n - 1)
    case None => None
  }

  /** Every number a face line names can be read. */
  predicate Readable(tokens: seq<string>)
  {
    forall j | 1 <= j < |tokens| ::
      VertexRef(tokens[j]).Some? && (HasTexRef(tokens[j]) ==> TexRef(tokens[j]).Some?)
  }

  /** The vertices tokens[1..n] name, in order. */
  function VertexRefs(tokens: seq<string>, n: nat): (refs: seq<int>)
    requires Readable(tokens) && n <= |tokens|
    ensures |refs| == if n == 0 then 0 else n - 1
  {
    if n <= 1 then [] else VertexRefs(tokens, n - 1) + [VertexRef(tokens[n - 1]).value]
  }

  /** The texture coordinates tokens[1..n] name, in order, skipping tokens that name none. */
  function TexRefs(tokens: seq<string>, n: nat): (refs: seq<int>)
    requires Readable(tokens) && n <= |tokens|
    ensures |refs| <= n
  {
    if n <= 1 then []
    else TexRefs(tokens, n - 1) + (if HasTexRef(tokens[n - 1]) then [TexRef(tokens[n - 1]).value] else [])
  }

  /**
   * The texture stream after the first n tokens of a face: a mesh gets one
   * the first time a token names a texture coordinate.
   */
  function TexSoFar(tib: Option<seq<int>>, tokens: seq<string>, n: nat): Option<seq<int>>
    requires Readable(tokens) && n <= |tokens|
  {
    if tib.None? && TexRefs(tokens, n) == [] then None
    else Some((if tib.Some? then tib.value else []) + TexRefs(tokens, n))
  }

  /** One more token adds its texture coordinate, if it names one, making the stream if need be. */
  lemma TexSoFarStep(tib0: Option<seq<int>>, tokens: seq<string>, j: nat)
    requires Readable(tokens) && 1 <= j < |tokens|
    ensures var before := TexSoFar(tib0, tokens, j);
      TexSoFar(tib0, tokens, j + 1) ==
        if HasTexRef(tokens[j]) then Some((if before.None? then [] else before.value) + [TexRef(tokens[j]).value])
        else before
  {
    var base := if tib0.Some? then tib0.value else [];
    var refs := TexRefs(tokens, j);
    if HasTexRef(tokens[j]) {
      assert base + (refs + [TexRef(tokens[j]).value]) == (base + refs) + [TexRef(tokens[j]).value];
      if tib0.None? && refs == [] {
        assert base + refs == [];
      }
    } else {
      assert refs + [] == refs;
    }
  }

  /** A grouped mesh is keyed by its material library and material, joined by '-'. */
  predicate Grouped(key: string, m: ObjMesh)
  {
    m.mtllib != "" && m.mtl != "" && key == m.mtllib + "-" + m.mtl
  }

  /** Every stream a mesh holds refers to existing vertices and texture coordinates. */
  predicate Resolved(m: ObjMesh, nv: nat, nt: nat)
  {
    Resolves(m.indexBuffer, nv) && (m.texCoordIndexBuffer.Some? ==> Resolves(m.texCoordIndexBuffer.value, nt))
  }

  /**
   * The grouping invariant: the ids are the keys, each once (as many ids as
   * keys, all different, all keys), the default
   * mesh first; mesh k is named "obj-k"; every other mesh is keyed by its
   * library and material; the current mesh exists.
   */
  predicate Grouping(meshes: map<string, ObjMesh>, ids: seq<string>, meshIndex: nat, curMesh: string)
  {
    && |ids| == meshIndex >= 1 && ids[0] == DefaultKey
    && (forall k | 0 <= k < |ids| :: ids[k] in meshes && meshes[ids[k]].name == NamePrefix + Decimal(k))
    && |meshes| == |ids|
    && (forall a, b | 0 <= a < b < |ids| :: ids[a] != ids[b])
    && (forall k | 1 <= k < |ids| :: Grouped(ids[k], meshes[ids[k]]))
    && curMesh in meshes
  }

  /** Changing a mesh's streams, but not its name or material, keeps the grouping. */
  lemma StreamsUpdated(meshes: map<string, ObjMesh>, ids: seq<string>, n: nat, cur: string, key: string, m: ObjMesh)
    requires Grouping(meshes, ids, n, cur) && key in meshes
    requires m.name == meshes[key].name && m.mtllib == meshes[key].mtllib && m.mtl == meshes[key].mtl
    ensures Grouping(meshes[key := m], ids, n, cur)
  {
    var meshes' := meshes[key := m];
    forall k | 0 <= k < |ids|
      ensures ids[k] in meshes' && meshes'[ids[k]].name == NamePrefix + Decimal(k)
      ensures k >= 1 ==> Grouped(ids[k], meshes'[ids[k]])
    {
    }
  }

  /** A new mesh under a new key, named with the next count, extends the grouping. */
  lemma GroupAdded(meshes: map<string, ObjMesh>, ids: seq<string>, n: nat, cur: string, key: string, m: ObjMesh)
    requires Grouping(meshes, ids, n, cur) && key !in meshes
    requires Grouped(key, m) && m.name == NamePrefix + Decimal(n)
    ensures Grouping(meshes[key := m], ids + [key], n + 1, key)
  {
    var meshes', ids' := meshes[key := m], ids + [key];
    forall k | 0 <= k < |ids'|
      ensures ids'[k] in meshes' && meshes'[ids'[k]].name == NamePrefix + Decimal(k)
      ensures k >= 1 ==> Grouped(ids'[k], meshes'[ids'[k]])
    {
      if k < |ids| {
        assert ids'[k] == ids[k];
        assert ids[k] != key;
      }
    }
    forall a, b | 0 <= a < b < |ids'| ensures ids'[a] != ids'[b] {
      if b < |ids| {
        assert ids'[a] == ids[a] && ids'[b] == ids[b];
      } else {
        assert ids'[a] == ids[a] && ids[a] in meshes;
      }
    }
  }

  /** Any existing mesh may become current. */
  lemma CurrentMoved(meshes: map<string, ObjMesh>, ids: seq<string>, n: nat, cur: string, cur': string)
    requires Grouping(meshes, ids, n, cur) && cur' in meshes
    ensures Grouping(meshes, ids, n, cur')
  {
  }

  /** The generated names are all different: no two meshes share a name. */
  lemma NamesDistinct(meshes: map<string, ObjMesh>, ids: seq<string>, n: nat, cur: string, a: nat, b: nat)
    requires Grouping(meshes, ids, n, cur) && a < b < |ids|
    ensures meshes[ids[a]].name != meshes[ids[b]].name
  {
    DecimalInjective(a, b);
    assert (NamePrefix + Decimal(a))[|NamePrefix|..] == Decimal(a);
    assert (NamePrefix + Decimal(b))[|NamePrefix|..] == Decimal(b);
  }

  // ---------------------------------------------------------------------
  // The reading loop as values
  // ---------------------------------------------------------------------

  /**
   * What `parseObj` holds while it reads the lines: the meshes by key, the
   * keys in the order the meshes were made, the material libraries named,
   * the count for the next generated name, the current mesh, library and
   * material, and the global vertex and texture-coordinate lists.
   */
  datatype ObjState = ObjState(
    meshes: map<string, ObjMesh>,
    ids: seq<string>,
    mtllibs: seq<string>,
    meshIndex: nat,
    curMesh: string,
    curMtllibName: string,
    curMtlName: string,
    vertices: seq<real>,
    texCoords: seq<real>)

  /** The grouping invariant holds; vertices come in threes and texture coordinates in twos. */
  predicate StateValid(s: ObjState)
  {
    Grouping(s.meshes, s.ids, s.meshIndex, s.curMesh) && |s.vertices| % 3 == 0 && |s.texCoords| % 2 == 0
  }

  /** The state before the first line: only the default mesh "obj-0", which is current. */
  function Start(): (s: ObjState)
    ensures StateValid(s)
  {
    ObjState(map[DefaultKey := ObjMesh(NamePrefix + Decimal(0), "", "", [], None)], [DefaultKey], [], 1, DefaultKey, "", "", [], [])
  }

  /** A mesh after one face line: its vertex indices and -1, and its texture indices and -1 when it has any. */
  function WithFace(m: ObjMesh, tokens: seq<string>): ObjMesh
    requires |tokens| > 3 && Readable(tokens)
  {
    m.(indexBuffer := m.indexBuffer + VertexRefs(tokens, |tokens|) + [-1],
       texCoordIndexBuffer := match TexSoFar(m.texCoordIndexBuffer, tokens, |tokens|)
         case None => None
         case Some(tib) => Some(tib + [-1]))
  }

  /** A 'v' line with three numbers adds one vertex. */
  function VertexStep(s: ObjState, tokens: seq<string>, parseFloat: string -> real): ObjState
  {
    if |tokens| > 3 then s.(vertices := s.vertices + [parseFloat(tokens[1]), parseFloat(tokens[2]), parseFloat(tokens[3])])
    else s
  }

  /** A 'vt' line with two numbers adds one texture coordinate, v flipped. */
  function TexCoordStep(s: ObjState, tokens: seq<string>, parseFloat: string -> real): ObjState
  {
    if |tokens| > 2 then s.(texCoords := s.texCoords + [parseFloat(tokens[1]), 1.0 - parseFloat(tokens[2])])
    else s
  }

  /** An 'f' line with three references adds a face to the current mesh. */
  function FaceStep(s: ObjState, tokens: seq<string>): ObjState
    requires s.curMesh in s.meshes && (|tokens| > 3 ==> Readable(tokens))
  {
    if |tokens| > 3 then s.(meshes := s.meshes[s.curMesh := WithFace(s.meshes[s.curMesh], tokens)])
    else s
  }

  /** An 'mtllib' line sets and records the library, or clears it without a name. */
  function LibraryStep(s: ObjState, tokens: seq<string>): ObjState
  {
    if |tokens| > 1 then s.(curMtllibName := tokens[1], mtllibs := s.mtllibs + [tokens[1]])
    else s.(curMtllibName := "")
  }

  /**
   * A 'usemtl' line with a name, under a library, makes the mesh keyed
   * library-material current, making it with the next name when new;
   * otherwise the default mesh becomes current.
   */
  function MaterialStep(s: ObjState, tokens: seq<string>): ObjState
  {
    if |tokens| > 1 && tokens[1] != "" && s.curMtllibName != "" then
      var key := s.curMtllibName + "-" + tokens[1];
      if key in s.meshes then s.(curMesh := key, curMtlName := tokens[1])
      else
        s.(meshes := s.meshes[key := ObjMesh(NamePrefix + Decimal(s.meshIndex), s.curMtllibName, tokens[1], [], None)],
           ids := s.ids + [key], meshIndex := s.meshIndex + 1, curMesh := key, curMtlName := tokens[1])
    else s.(curMesh := DefaultKey, curMtlName := "")
  }

  /**
   * The effect of one line, by its first token: 'v' adds a vertex, 'vt' a
   * texture coordinate, 'f' a face to the current mesh, 'mtllib' sets the
   * library, 'usemtl' selects (or makes) the mesh for a material; every
   * other line leaves the state as it was.
   */
  function LineStep(s: ObjState, line: string, parseFloat: string -> real): ObjState
    requires StateValid(s) && LineReadable(line)
  {
    var tokens := SplitBlanks(line);
    var keyword := tokens[0];
    if keyword == "v" then VertexStep(s, tokens, parseFloat)
    else if keyword == "vt" then TexCoordStep(s, tokens, parseFloat)
    else if keyword == "f" then FaceStep(s, tokens)
    else if keyword == "mtllib" then LibraryStep(s, tokens)
    else if keyword == "usemtl" then MaterialStep(s, tokens)
    else s
  }

  /** Every line keeps the grouping invariant and the whole-entry lists. */
  lemma LineStepValid(s: ObjState, line: string, parseFloat: string -> real)
    requires StateValid(s) && LineReadable(line)
    ensures StateValid(LineStep(s, line, parseFloat))
  {
    var tokens := SplitBlanks(line);
    var keyword := tokens[0];
    if keyword == "f" && |tokens| > 3 {
      StreamsUpdated(s.meshes, s.ids, s.meshIndex, s.curMesh, s.curMesh, WithFace(s.meshes[s.curMesh], tokens));
    } else if keyword == "usemtl" {
      if |tokens| > 1 && tokens[1] != "" && s.curMtllibName != "" {
        var key := s.curMtllibName + "-" + tokens[1];
        if key in s.meshes {
          CurrentMoved(s.meshes, s.ids, s.meshIndex, s.curMesh, key);
        } else {
          GroupAdded(s.meshes, s.ids, s.meshIndex, s.curMesh, key,
                     ObjMesh(NamePrefix + Decimal(s.meshIndex), s.curMtllibName, tokens[1], [], None));
        }
      } else {
        CurrentMoved(s.meshes, s.ids, s.meshIndex, s.curMesh, DefaultKey);
      }
    }
  }

  /** The state after the lines in order, each one applied to the state the previous ones left. */
  function ParseAll(s: ObjState, lines: seq<string>, parseFloat: string -> real): (r: ObjState)
    requires StateValid(s) && forall line | line in lines :: LineReadable(line)
    ensures StateValid(r)
    decreases |lines|
  {
    if lines == [] then s
    else
      var before := lines[..|lines| - 1];
      assert forall line | line in before :: line in lines;
      var prev := ParseAll(s, before, parseFloat);
      LineStepValid(prev, lines[|lines| - 1], parseFloat);
      LineStep(prev, lines[|lines| - 1], parseFloat)
  }

  /** Reading a file in two parts is reading the first part and then the second. */
  lemma {:induction false} ParseAllAppend(s: ObjState, a: seq<string>, b: seq<string>, parseFloat: string -> real)
    requires StateValid(s)
    requires forall line | line in a :: LineReadable(line)
    requires forall line | line in b :: LineReadable(line)
    ensures forall line | line in a + b :: LineReadable(line)
    ensures ParseAll(s, a + b, parseFloat) == ParseAll(ParseAll(s, a, parseFloat), b, parseFloat)
    decreases |b|
  {
    assert forall line | line in a + b :: line in a || line in b;
    if b == [] {
      assert a + b == a;
    } else {
      var b' := b[..|b| - 1];
      assert forall line | line in b' :: line in b;
      ParseAllAppend(s, a, b', parseFloat);
      assert (a + b)[..|a + b| - 1] == a + b';
      assert (a + b)[|a + b| - 1] == b[|b| - 1];
    }
  }

  /** The vertex a 'v' line with three numbers names, and nothing for any other line. */
  function VertexOf(line: string, parseFloat: string -> real): (v: seq<real>)
    ensures |v| == 0 || |v| == 3
  {
    var tokens := SplitBlanks(line);
    if tokens[0] == "v" && |tokens| > 3 then [parseFloat(tokens[1]), parseFloat(tokens[2]), parseFloat(tokens[3])] else []
  }

  /** The texture coordinate a 'vt' line with two numbers names, v flipped, and nothing for any other line. */
  function TexCoordOf(line: string, parseFloat: string -> real): (t: seq<real>)
    ensures |t| == 0 || |t| == 2
  {
    var tokens := SplitBlanks(line);
    if tokens[0] == "vt" && |tokens| > 2 then [parseFloat(tokens[1]), 1.0 - parseFloat(tokens[2])] else []
  }

  /** The library an 'mtllib' line with a name names, and nothing for any other line. */
  function LibraryOf(line: string): (l: seq<string>)
    ensures |l| <= 1
  {
    var tokens := SplitBlanks(line);
    if tokens[0] == "mtllib" && |tokens| > 1 then [tokens[1]] else []
  }

  /** What f gives for each line, one after the other. */
  function Concat<T>(lines: seq<string>, f: string -> seq<T>): seq<T>
  {
    if lines == [] then [] else Concat(lines[..|lines| - 1], f) + f(lines[|lines| - 1])
  }

  /** One line adds to the vertices list exactly what VertexOf gives for it. */
  lemma LineStepVertices(s: ObjState, line: string, parseFloat: string -> real)
    requires StateValid(s) && LineReadable(line)
    ensures LineStep(s, line, parseFloat).vertices == s.vertices + VertexOf(line, parseFloat)
  {
  }

  /**
   * After any lines the vertices list has grown by exactly the vertices of the 'v' lines, in
   * file order; no other line adds to it.
   */
  lemma {:induction false} ParseAllVertices(s: ObjState, lines: seq<string>, parseFloat: string -> real)
    requires StateValid(s) && forall line | line in lines :: LineReadable(line)
    ensures ParseAll(s, lines, parseFloat).vertices == s.vertices + Concat(lines, line => VertexOf(line, parseFloat))
    decreases |lines|
  {
    if lines != [] {
      var before := lines[..|lines| - 1];
      var last := lines[|lines| - 1];
      assert forall line | line in before :: line in lines;
      ParseAllVertices(s, before, parseFloat);
      LineStepVertices(ParseAll(s, before, parseFloat), last, parseFloat);
      assert Concat(lines, line => VertexOf(line, parseFloat)) == Concat(before, line => VertexOf(line, parseFloat)) + VertexOf(last, parseFloat);
    }
  }

  /** One line adds to the texCoords list exactly what TexCoordOf gives for it. */
  lemma LineStepTexCoords(s: ObjState, line: string, parseFloat: string -> real)
    requires StateValid(s) && LineReadable(line)
    ensures LineStep(s, line, parseFloat).texCoords == s.texCoords + TexCoordOf(line, parseFloat)
  {
  }

  /**
   * After any lines the texCoords list has grown by exactly the texture coordinates of the 'vt' lines, in
   * file order; no other line adds to it.
   */
  lemma {:induction false} ParseAllTexCoords(s: ObjState, lines: seq<string>, parseFloat: string -> real)
    requires StateValid(s) && forall line | line in lines :: LineReadable(line)
    ensures ParseAll(s, lines, parseFloat).texCoords == s.texCoords + Concat(lines, line => TexCoordOf(line, parseFloat))
    decreases |lines|
  {
    if lines != [] {
      var before := lines[..|lines| - 1];
      var last := lines[|lines| - 1];
      assert forall line | line in before :: line in lines;
      ParseAllTexCoords(s, before, parseFloat);
      LineStepTexCoords(ParseAll(s, before, parseFloat), last, parseFloat);
      assert Concat(lines, line => TexCoordOf(line, parseFloat)) == Concat(before, line => TexCoordOf(line, parseFloat)) + TexCoordOf(last, parseFloat);
    }
  }

  /** One line adds to the mtllibs list exactly what LibraryOf gives for it. */
  lemma LineStepLibraries(s: ObjState, line: string, parseFloat: string -> real)
    requires StateValid(s) && LineReadable(line)
    ensures LineStep(s, line, parseFloat).mtllibs == s.mtllibs + LibraryOf(line)
  {
  }

  /**
   * After any lines the mtllibs list has grown by exactly the names of the 'mtllib' lines, in
   * file order; no other line adds to it.
   */
  lemma {:induction false} ParseAllLibraries(s: ObjState, lines: seq<string>, parseFloat: string -> real)
    requires StateValid(s) && forall line | line in lines :: LineReadable(line)
    ensures ParseAll(s, lines, parseFloat).mtllibs == s.mtllibs + Concat(lines, LibraryOf)
    decreases |lines|
  {
    if lines != [] {
      var before := lines[..|lines| - 1];
      var last := lines[|lines| - 1];
      assert forall line | line in before :: line in lines;
      ParseAllLibraries(s, before, parseFloat);
      LineStepLibraries(ParseAll(s, before, parseFloat), last, parseFloat);
      assert Concat(lines, LibraryOf) == Concat(before, LibraryOf) + LibraryOf(last);
    }
  }

  /** A mesh, once made, stays after one more line: same name and material, its index stream only extended. */
  lemma LineStepKeepsMeshes(s: ObjState, line: string, parseFloat: string -> real, key: string)
    requires StateValid(s) && LineReadable(line) && key in s.meshes
    ensures var r := LineStep(s, line, parseFloat);
      && |s.ids| <= |r.ids| && r.ids[..|s.ids|] == s.ids
      && key in r.meshes
      && r.meshes[key].name == s.meshes[key].name
      && r.meshes[key].mtllib == s.meshes[key].mtllib && r.meshes[key].mtl == s.meshes[key].mtl
      && |s.meshes[key].indexBuffer| <= |r.meshes[key].indexBuffer|
      && r.meshes[key].indexBuffer[..|s.meshes[key].indexBuffer|] == s.meshes[key].indexBuffer
  {
    var r := LineStep(s, line, parseFloat);
    var ib := s.meshes[key].indexBuffer;
    var tokens := SplitBlanks(line);
    if tokens[0] == "f" && |tokens| > 3 && key == s.curMesh {
      assert r.meshes[key].indexBuffer == ib + (VertexRefs(tokens, |tokens|) + [-1]);
    }
  }

  /**
   * A mesh, once made, stays: the keys made so far keep their places in
   * creation order, and each of their meshes keeps its name and material,
   * with its index stream only extended.
   */
  lemma {:induction false} ParseAllKeepsMeshes(s: ObjState, lines: seq<string>, parseFloat: string -> real, key: string)
    requires StateValid(s) && (forall line | line in lines :: LineReadable(line)) && key in s.meshes
    ensures var r := ParseAll(s, lines, parseFloat);
      && |s.ids| <= |r.ids| && r.ids[..|s.ids|] == s.ids
      && key in r.meshes
      && r.meshes[key].name == s.meshes[key].name
      && r.meshes[key].mtllib == s.meshes[key].mtllib && r.meshes[key].mtl == s.meshes[key].mtl
      && |s.meshes[key].indexBuffer| <= |r.meshes[key].indexBuffer|
      && r.meshes[key].indexBuffer[..|s.meshes[key].indexBuffer|] == s.meshes[key].indexBuffer
    decreases |lines|
  {
    if lines != [] {
      var before := lines[..|lines| - 1];
      assert forall line | line in before :: line in lines;
      ParseAllKeepsMeshes(s, before, parseFloat, key);
      var prev := ParseAll(s, before, parseFloat);
      LineStepKeepsMeshes(prev, lines[|lines| - 1], parseFloat, key);
      var r := ParseAll(s, lines, parseFloat);
      assert r.ids[..|s.ids|] == r.ids[..|prev.ids|][..|s.ids|];
      var ib, ib' := s.meshes[key].indexBuffer, prev.meshes[key].indexBuffer;
      assert r.meshes[key].indexBuffer[..|ib|] == r.meshes[key].indexBuffer[..|ib'|][..|ib|];
    }
  }

  /**
   * The state `parseObj` keeps while it reads the lines: the meshes by key
   * (with the keys in the order the meshes were made, the order the final
   * loop visits them), the material libraries named so far, the count for
   * the next generated name, the current mesh, library and material, and
   * the global vertex and texture-coordinate lists.
   */
  class ObjParser {
    var meshes: map<string, ObjMesh>
    var ids: seq<string>
    var mtllibs: seq<string>
    var meshIndex: nat
    var curMesh: string
    var curMtllibName: string
    var curMtlName: string
    var tempVertexBuffer: seq<real>
    var tempTexCoordBuffer: seq<real>

    /** The grouping invariant holds; vertices come in threes and texture coordinates in twos. */
    predicate Valid()
      reads this
    {
      Grouping(meshes, ids, meshIndex, curMesh) && |tempVertexBuffer| % 3 == 0 && |tempTexCoordBuffer| % 2 == 0
    }

    /** The parser's fields as a value. */
    function State(): (s: ObjState)
      reads this
      ensures s.meshes == meshes && s.ids == ids && s.curMesh == curMesh
    {
      ObjState(meshes, ids, mtllibs, meshIndex, curMesh, curMtllibName, curMtlName, tempVertexBuffer, tempTexCoordBuffer)
    }

    /** The start of `parseObj`: only the default mesh "obj-0", which is current. */
    constructor ()
      ensures Valid() && State() == Start()
      ensures meshes == map[DefaultKey := ObjMesh(NamePrefix + "0", "", "", [], None)]
      ensures ids == [DefaultKey] && curMesh == DefaultKey && meshIndex == 1
      ensures mtllibs == [] && curMtllibName == "" && curMtlName == ""
      ensures tempVertexBuffer == [] && tempTexCoordBuffer == []
    {
      meshes := map[DefaultKey := ObjMesh(NamePrefix + Decimal(0), "", "", [], None)];
      ids := [DefaultKey];
      mtllibs := [];
      meshIndex := 1;
      curMesh := DefaultKey;
      curMtllibName := "";
      curMtlName := "";
      tempVertexBuffer := [];
      tempTexCoordBuffer := [];
    }

    /** A 'v' line with at least three numbers adds one vertex. */
    method AddVertex(tokens: seq<string>, parseFloat: string -> real)
      requires Valid()
      modifies this
      ensures Valid()
      ensures |tokens| > 3 ==>
        tempVertexBuffer == old(tempVertexBuffer) + [parseFloat(tokens[1]), parseFloat(tokens[2]), parseFloat(tokens[3])]
      ensures |tokens| <= 3 ==> tempVertexBuffer == old(tempVertexBuffer)
      ensures meshes == old(meshes) && ids == old(ids) && curMesh == old(curMesh)
      ensures tempTexCoordBuffer == old(tempTexCoordBuffer) && mtllibs == old(mtllibs)
      ensures curMtllibName == old(curMtllibName) && curMtlName == old(curMtlName) && meshIndex == old(meshIndex)
    {
      if |tokens| > 3 {
        tempVertexBuffer := tempVertexBuffer + [parseFloat(tokens[1]), parseFloat(tokens[2]), parseFloat(tokens[3])];
      }
    }

    /** A 'vt' line with at least two numbers adds one texture coordinate, its v flipped. */
    method AddTexCoord(tokens: seq<string>, parseFloat: string -> real)
      requires Valid()
      modifies this
      ensures Valid()
      ensures |tokens| > 2 ==>
        tempTexCoordBuffer == old(tempTexCoordBuffer) + [parseFloat(tokens[1]), 1.0 - parseFloat(tokens[2])]
      ensures |tokens| <= 2 ==> tempTexCoordBuffer == old(tempTexCoordBuffer)
      ensures meshes == old(meshes) && ids == old(ids) && curMesh == old(curMesh)
      ensures tempVertexBuffer == old(tempVertexBuffer) && mtllibs == old(mtllibs)
      ensures curMtllibName == old(curMtllibName) && curMtlName == old(curMtlName) && meshIndex == old(meshIndex)
    {
      if |tokens| > 2 {
        tempTexCoordBuffer := tempTexCoordBuffer + [parseFloat(tokens[1]), 1.0 - parseFloat(tokens[2])];
      }
    }

    /**
     * An 'f' line with at least three references appends the vertices it
     * names and then -1 to the current mesh's index stream, and the texture
     * coordinates it names to the texture stream (made on first use), which
     * then also gets -1.
     */
    method AddFace(tokens: seq<string>)
      requires Valid() && |tokens| > 3 && Readable(tokens)
      modifies this
      ensures Valid()
      ensures var m := old(meshes[curMesh]);
        meshes == old(meshes)[curMesh := m.(
          indexBuffer := m.indexBuffer + VertexRefs(tokens, |tokens|) + [-1],
          texCoordIndexBuffer := match TexSoFar(m.texCoordIndexBuffer, tokens, |tokens|)
            case None => None
            case Some(tib) => Some(tib + [-1]))]
      ensures ids == old(ids) && curMesh == old(curMesh) && mtllibs == old(mtllibs) && meshIndex == old(meshIndex)
      ensures tempVertexBuffer == old(tempVertexBuffer) && tempTexCoordBuffer == old(tempTexCoordBuffer)
      ensures curMtllibName == old(curMtllibName) && curMtlName == old(curMtlName)
    {
      var m := meshes[curMesh];
      var ib, tib := FaceStreams(tokens, m.indexBuffer, m.texCoordIndexBuffer);
      StreamsUpdated(meshes, ids, meshIndex, curMesh, curMesh, m.(indexBuffer := ib, texCoordIndexBuffer := tib));
      meshes := meshes[curMesh := m.(indexBuffer := ib, texCoordIndexBuffer := tib)];
    }

    /** The streams of the current mesh after the references of one face line. */
    static method FaceStreams(tokens: seq<string>, ib0: seq<int>, tib0: Option<seq<int>>)
      returns (ib: seq<int>, tib: Option<seq<int>>)
      requires |tokens| > 3 && Readable(tokens)
      ensures ib == ib0 + VertexRefs(tokens, |tokens|) + [-1]
      ensures tib == match TexSoFar(tib0, tokens, |tokens|)
        case None => None
        case Some(t) => Some(t + [-1])
    {
      ib, tib := ib0, tib0;
      assert TexSoFar(tib0, tokens, 1) == tib by {
        if tib.Some? {
          assert tib.value + [] == tib.value;
        }
      }
      var j := 1;
      while j < |tokens|
        invariant 1 <= j <= |tokens|
        invariant ib == ib0 + VertexRefs(tokens, j)
        invariant tib == TexSoFar(tib0, tokens, j)
      {
        ib, tib := AddReference(tokens, j, ib0, tib0, ib, tib);
        j := j + 1;
      }
      ib := ib + [-1];
      if tib.Some? {
        tib := Some(tib.value + [-1]);
      }
    }

    /**
     * Append the numbers of one reference of a face line: the vertex
     * always, the texture coordinate when the reference names one, making
     * the texture stream if there is none yet.
     */
    static method AddReference(tokens: seq<string>, j: nat, ib0: seq<int>, tib0: Option<seq<int>>,
                               ib: seq<int>, tib: Option<seq<int>>)
      returns (ib': seq<int>, tib': Option<seq<int>>)
      requires Readable(tokens) && 1 <= j < |tokens|
      requires ib == ib0 + VertexRefs(tokens, j) && tib == TexSoFar(tib0, tokens, j)
      ensures ib' == ib0 + VertexRefs(tokens, j + 1) && tib' == TexSoFar(tib0, tokens, j + 1)
    {
      var token := tokens[j];
      assert VertexRef(token).Some? && (HasTexRef(token) ==> TexRef(token).Some?);
      TexSoFarStep(tib0, tokens, j);
      ib' := ib + [VertexRef(token).value];
      tib' := tib;
      if HasTexRef(token) {
        var t := if tib'.None? then [] else tib'.value;
        tib' := Some(t + [TexRef(token).value]);
      }
    }

    /** An 'mtllib' line names the current library and records it; without a name it clears the library. */
    method UseLibrary(tokens: seq<string>)
      requires Valid()
      modifies this
      ensures Valid()
      ensures |tokens| > 1 ==> curMtllibName == tokens[1] && mtllibs == old(mtllibs) + [tokens[1]]
      ensures |tokens| <= 1 ==> curMtllibName == "" && mtllibs == old(mtllibs)
      ensures meshes == old(meshes) && ids == old(ids) && curMesh == old(curMesh) && meshIndex == old(meshIndex)
      ensures tempVertexBuffer == old(tempVertexBuffer) && tempTexCoordBuffer == old(tempTexCoordBuffer)
      ensures curMtlName == old(curMtlName)
    {
      if |tokens| > 1 {
        curMtllibName := tokens[1];
        mtllibs := mtllibs + [curMtllibName];
      } else {
        curMtllibName := "";
      }
    }

    /**
     * A 'usemtl' line with a material name, under a current library, makes
     * the mesh keyed library-material current, making it (named with the
     * next count) if it is new; otherwise the default mesh becomes current.
     */
    method UseMaterial(tokens: seq<string>)
      requires Valid()
      modifies this
      ensures Valid()
      ensures |tokens| > 1 && tokens[1] != "" && old(curMtllibName) != "" ==>
        var key := old(curMtllibName) + "-" + tokens[1];
        && curMesh == key && curMtlName == tokens[1]
        && (key in old(meshes) ==> meshes == old(meshes) && ids == old(ids) && meshIndex == old(meshIndex))
        && (key !in old(meshes) ==>
              && meshes == old(meshes)[key := ObjMesh(NamePrefix + Decimal(old(meshIndex)), old(curMtllibName), tokens[1], [], None)]
              && ids == old(ids) + [key] && meshIndex == old(meshIndex) + 1)
      ensures !(|tokens| > 1 && tokens[1] != "" && old(curMtllibName) != "") ==>
        curMesh == DefaultKey && curMtlName == "" && meshes == old(meshes) && ids == old(ids) && meshIndex == old(meshIndex)
      ensures mtllibs == old(mtllibs) && curMtllibName == old(curMtllibName)
      ensures tempVertexBuffer == old(tempVertexBuffer) && tempTexCoordBuffer == old(tempTexCoordBuffer)
    {
      if |tokens| > 1 && tokens[1] != "" && curMtllibName != "" {
        curMtlName := tokens[1];
        var meshid := curMtllibName + "-" + curMtlName;
        if meshid !in meshes {
          var mesh := ObjMesh(NamePrefix + Decimal(meshIndex), curMtllibName, curMtlName, [], None);
          GroupAdded(meshes, ids, meshIndex, curMesh, meshid, mesh);
          meshes := meshes[meshid := mesh];
          ids := ids + [meshid];
          meshIndex := meshIndex + 1;
        } else {
          CurrentMoved(meshes, ids, meshIndex, curMesh, meshid);
        }
        curMesh := meshid;
      } else {
        curMtlName := "";
        CurrentMoved(meshes, ids, meshIndex, curMesh, DefaultKey);
        curMesh := DefaultKey;
      }
    }

    /** One line: split at blanks and dispatched on its first token; other keywords are ignored. */
    method ParseLine(line: string, parseFloat: string -> real)
      requires Valid() && LineReadable(line)
      modifies this
      ensures Valid()
      ensures State() == LineStep(old(State()), line, parseFloat)
    {
      var tokens := SplitBlanks(line);
      var keyword := tokens[0];
      if keyword == "v" {
        AddVertex(tokens, parseFloat);
      } else if keyword == "vt" {
        AddTexCoord(tokens, parseFloat);
      } else if keyword == "f" {
        if |tokens| > 3 {
          AddFace(tokens);
        }
      } else if keyword == "mtllib" {
        UseLibrary(tokens);
      } else if keyword == "usemtl" {
        UseMaterial(tokens);
      }
    }

    /** The reading loop of `parseObj`: every line of the file in order. */
    method ParseLines(data: string, parseFloat: string -> real)
      requires Valid()
      requires forall line | line in Split(data, '\n') :: LineReadable(line)
      modifies this
      ensures Valid()
      ensures State() == ParseAll(old(State()), Split(data, '\n'), parseFloat)
    {
      var lines := Split(data, '\n');
      var i := 0;
      while i < |lines|
        invariant 0 <= i <= |lines| && Valid()
        invariant forall line | line in lines[..i] :: line in lines
        invariant State() == ParseAll(old(State()), lines[..i], parseFloat)
      {
        assert lines[..i + 1][..i] == lines[..i];
        assert forall line | line in lines[..i + 1] :: line in lines;
        ParseLine(lines[i], parseFloat);
        i := i + 1;
      }
      assert lines[..i] == lines;
    }


    /**
     * The end of `parseObj`: every mesh, in the order the meshes were made,
     * gets lists of its own and is added to the scene when it can be drawn.
     * The lookup tables are made once and shared by all meshes.
     */
    method AddMeshesTo(scene: Scene)
      requires Valid() && Resolvable(State())
      modifies scene
      ensures Gained(scene.children, old(scene.children), Kept(State(), |ids|))
      ensures forall k | |old(scene.children)| <= k < |scene.children| :: fresh(scene.children[k])
      ensures old(scene.Valid()) ==> scene.Valid()
    {
      AddMeshes(scene, State());
    }
  }

  // ---------------------------------------------------------------------
  // The end of parseObj: compaction and the meshes added to the scene
  // ---------------------------------------------------------------------

  /** Every mesh's references name existing global vertices and texture coordinates. */
  predicate Resolvable(s: ObjState)
  {
    forall key | key in s.meshes :: Resolved(s.meshes[key], |s.vertices| / 3, |s.texCoords| / 2)
  }

  /** A finished mesh: its name and its four buffers. */
  datatype MeshData = MeshData(
    name: string,
    indexBuffer: Option<seq<int>>,
    vertexBuffer: Option<seq<real>>,
    texCoordIndexBuffer: Option<seq<int>>,
    texCoordBuffer: Option<seq<real>>)

  /** The fields of a mesh object that the end of `parseObj` sets. */
  function DataOf(mesh: Mesh): MeshData
    reads mesh
  {
    MeshData(mesh.name, mesh.indexBuffer, mesh.vertexBuffer, mesh.texCoordIndexBuffer, mesh.texCoordBuffer)
  }

  /** A finished mesh can be drawn: at least one vertex value triple and three index entries (`!isTrivial()`). */
  predicate Drawable(d: MeshData)
  {
    d.vertexBuffer.Some? && |d.vertexBuffer.value| >= 3 && d.indexBuffer.Some? && |d.indexBuffer.value| >= 3
  }

  /**
   * A parsed mesh compacted against the global lists: with vertices read
   * and a non-empty index stream, the stream renumbered by first appearance
   * and the referenced vertices gathered in that order, otherwise the
   * stream as it is and no vertex list; likewise for texture coordinates.
   */
  function Compacted(om: ObjMesh, vertices: seq<real>, texCoords: seq<real>): MeshData
    requires |vertices| % 3 == 0 && |texCoords| % 2 == 0 && Resolved(om, |vertices| / 3, |texCoords| / 2)
  {
    var (ib, vb) := CompactedStream(om.indexBuffer, vertices, 3);
    var (tib, tb) := if om.texCoordIndexBuffer.Some? then CompactedStream(om.texCoordIndexBuffer.value, texCoords, 2) else (None, None);
    MeshData(om.name, ib, vb, tib, tb)
  }

  /**
   * One stream compacted against a global list of stride-value entries:
   * with entries present and a non-empty stream, the stream renumbered and
   * its entries gathered; otherwise the stream as it is and no list.
   */
  function CompactedStream(s: seq<int>, g: seq<real>, stride: nat): (Option<seq<int>>, Option<seq<real>>)
    requires stride > 0 && |g| % stride == 0 && Resolves(s, |g| / stride)
  {
    if |g| >= stride && |s| > 0 then
      ResolvesFirsts(s, |g| / stride, |s|);
      (Some(Renumber(s, |s|)), Some(Gather(g, Firsts(s, |s|), stride, |g| / stride)))
    else (Some(s), None)
  }

  /**
   * A compacted mesh can be drawn exactly when vertices were read, its
   * index stream has at least three entries and it references at least
   * one vertex.
   */
  lemma CompactedDrawable(om: ObjMesh, vertices: seq<real>, texCoords: seq<real>)
    requires |vertices| % 3 == 0 && |texCoords| % 2 == 0 && Resolved(om, |vertices| / 3, |texCoords| / 2)
    ensures Drawable(Compacted(om, vertices, texCoords)) <==>
      |vertices| >= 3 && |om.indexBuffer| >= 3 && Firsts(om.indexBuffer, |om.indexBuffer|) != []
  {
    var ib := om.indexBuffer;
    if |vertices| >= 3 && |ib| > 0 {
      ResolvesFirsts(ib, |vertices| / 3, |ib|);
      GatherLength(vertices, Firsts(ib, |ib|), 3, |vertices| / 3);
    }
  }

  /**
   * The meshes the first n keys (in creation order) add to the scene: each
   * one compacted, and kept when it can be drawn.
   */
  function Kept(s: ObjState, n: nat): (kept: seq<MeshData>)
    requires StateValid(s) && Resolvable(s) && n <= |s.ids|
    ensures |kept| <= n
  {
    if n == 0 then []
    else
      var d := Compacted(s.meshes[s.ids[n - 1]], s.vertices, s.texCoords);
      Kept(s, n - 1) + (if Drawable(d) then [d] else [])
  }

  /**
   * A mesh is added exactly when it is the drawable compaction of one of
   * the first n parsed meshes, and each added mesh carries that mesh's
   * generated name.
   */
  lemma {:induction false} KeptMembers(s: ObjState, n: nat, d: MeshData)
    requires StateValid(s) && Resolvable(s) && n <= |s.ids|
    ensures d in Kept(s, n) <==>
      exists k | 0 <= k < n :: d == Compacted(s.meshes[s.ids[k]], s.vertices, s.texCoords) && Drawable(d)
    ensures d in Kept(s, n) ==> exists k | 0 <= k < n :: d.name == NamePrefix + Decimal(k)
  {
    if n > 0 {
      KeptMembers(s, n - 1, d);
      var c := Compacted(s.meshes[s.ids[n - 1]], s.vertices, s.texCoords);
      if d == c && Drawable(c) {
        assert d in Kept(s, n);
        assert d.name == NamePrefix + Decimal(n - 1);
      }
    }
  }

  /**
   * AddMeshesTo over a parser state: the keys in creation order, the meshes
   * they key, and the global vertex and texture-coordinate lists.
   */
  method AddMeshes(scene: Scene, s: ObjState)
    requires StateValid(s) && Resolvable(s)
    modifies scene
    ensures Gained(scene.children, old(scene.children), Kept(s, |s.ids|))
    ensures forall k | |old(scene.children)| <= k < |scene.children| :: fresh(scene.children[k])
    ensures old(scene.Valid()) ==> scene.Valid()
  {
    var viBuffer := new int[|s.vertices| / 3];
    var tiBuffer := new int[|s.texCoords| / 2];
    ghost var added: seq<Mesh> := [];
    var i := 0;
    while i < |s.ids|
      invariant 0 <= i <= |s.ids|
      invariant scene.children == old(scene.children) + added
      invariant Carry(added, Kept(s, i))
      invariant forall m | m in added :: fresh(m)
      invariant old(scene.Valid()) ==> scene.Valid()
    {
      added := AddNext(scene, s, i, viBuffer, tiBuffer, old(scene.children), added);
      i := i + 1;
    }
    CarriedChildren(scene.children, old(scene.children), added, Kept(s, |s.ids|));
    forall k | |old(scene.children)| <= k < |scene.children| ensures fresh(scene.children[k]) {
      assert scene.children[k] in added;
    }
  }

  /** One turn of AddMeshes: the mesh of key i, compacted, joins the scene when it can be drawn. */
  method AddNext(scene: Scene, s: ObjState, i: nat, viBuffer: array<int>, tiBuffer: array<int>,
                 ghost base: seq<Mesh>, ghost added: seq<Mesh>)
    returns (ghost added': seq<Mesh>)
    requires StateValid(s) && Resolvable(s) && i < |s.ids|
    requires viBuffer != tiBuffer && viBuffer.Length == |s.vertices| / 3 && tiBuffer.Length == |s.texCoords| / 2
    requires scene.children == base + added && Carry(added, Kept(s, i))
    modifies scene, viBuffer, tiBuffer
    ensures scene.children == base + added' && Carry(added', Kept(s, i + 1))
    ensures forall m | m in added' :: m in added || fresh(m)
    ensures old(scene.Valid()) ==> scene.Valid()
  {
    var mesh := BuildMesh(s.meshes[s.ids[i]], s.vertices, s.texCoords, viBuffer, tiBuffer);
    Offer(scene, mesh);
    added' := added;
    if !mesh.IsTrivial() {
      CarryAppend(added, Kept(s, i), mesh, DataOf(mesh));
      added' := added + [mesh];
    }
  }

  /** The meshes carry the finished data, one each, in order. */
  predicate Carry(added: seq<Mesh>, kept: seq<MeshData>)
    reads added
  {
    |added| == |kept| && forall k | 0 <= k < |added| :: DataOf(added[k]) == kept[k]
  }

  /**
   * The children are the old ones followed by one mesh per finished mesh,
   * carrying it, in order.
   */
  predicate Gained(children: seq<Mesh>, base: seq<Mesh>, kept: seq<MeshData>)
    reads children
  {
    && |children| == |base| + |kept| && children[..|base|] == base
    && forall k | 0 <= k < |kept| :: DataOf(children[|base| + k]) == kept[k]
  }

  /** Children that end with meshes carrying the finished data have gained them. */
  lemma CarriedChildren(children: seq<Mesh>, base: seq<Mesh>, added: seq<Mesh>, kept: seq<MeshData>)
    requires children == base + added && Carry(added, kept)
    ensures Gained(children, base, kept)
  {
    assert children[..|base|] == base;
    forall k | 0 <= k < |kept| ensures DataOf(children[|base| + k]) == kept[k] {
      assert children[|base| + k] == added[k];
    }
  }

  /** One more mesh carrying one more finished mesh. */
  lemma CarryAppend(added: seq<Mesh>, kept: seq<MeshData>, mesh: Mesh, d: MeshData)
    requires Carry(added, kept) && DataOf(mesh) == d
    ensures Carry(added + [mesh], kept + [d])
  {
    forall k | 0 <= k < |added| + 1
      ensures DataOf((added + [mesh])[k]) == (kept + [d])[k]
    {
      if k < |added| {
        assert (added + [mesh])[k] == added[k];
      }
    }
  }

  /**
   * `parseObj`: read every line of the file from the start state, then add
   * to the scene, in creation order, the compacted meshes that can be
   * drawn; the result lists the libraries the 'mtllib' lines name, in file
   * order.
   */
  method ParseObj(scene: Scene, data: string, parseFloat: string -> real) returns (mtllibs: seq<string>)
    requires forall line | line in Split(data, '\n') :: LineReadable(line)
    requires Resolvable(ParseAll(Start(), Split(data, '\n'), parseFloat))
    modifies scene
    ensures mtllibs == Concat(Split(data, '\n'), LibraryOf)
    ensures var parsed := ParseAll(Start(), Split(data, '\n'), parseFloat);
      Gained(scene.children, old(scene.children), Kept(parsed, |parsed.ids|))
    ensures forall k | |old(scene.children)| <= k < |scene.children| :: fresh(scene.children[k])
    ensures old(scene.Valid()) ==> scene.Valid()
  {
    ghost var parsed := ParseAll(Start(), Split(data, '\n'), parseFloat);
    var parser := ParseText(data, parseFloat);
    parser.AddMeshesTo(scene);
    assert parser.State() == parsed;
    mtllibs := parser.mtllibs;
  }

  /** A fresh parser that has read every line of the file; its lists hold what the 'v', 'vt' and 'mtllib' lines name. */
  method ParseText(data: string, parseFloat: string -> real) returns (parser: ObjParser)
    requires forall line | line in Split(data, '\n') :: LineReadable(line)
    ensures fresh(parser) && parser.Valid()
    ensures parser.State() == ParseAll(Start(), Split(data, '\n'), parseFloat)
    ensures parser.mtllibs == Concat(Split(data, '\n'), LibraryOf)
  {
    parser := new ObjParser();
    parser.ParseLines(data, parseFloat);
    ParseAllLibraries(Start(), Split(data, '\n'), parseFloat);
    assert Start().mtllibs == [];
  }

  /** A face line, the only kind whose numbers must be read, names only readable numbers. */
  predicate LineReadable(line: string)
  {
    var tokens := SplitBlanks(line);
    tokens[0] == "f" && |tokens| > 3 ==> Readable(tokens)
  }

  /**
   * One index stream compacted against a global list: the stream renumbered
   * and the entries it references, each once, in order of first reference.
   */
  method CompactStream(s: seq<int>, g: seq<real>, stride: nat, lookup: array<int>)
    returns (renumbered: seq<int>, local: seq<real>)
    requires |g| == stride * lookup.Length && Resolves(s, lookup.Length)
    modifies lookup
    ensures renumbered == Renumber(s, |s|)
    ensures Within(Firsts(s, |s|), lookup.Length) && local == Gather(g, Firsts(s, |s|), stride, lookup.Length)
  {
    var ib := new int[|s|](i requires 0 <= i < |s| => s[i]);
    assert ib[..] == s;
    local := Compact(ib, g, stride, lookup);
    renumbered := ib[..];
  }

  /**
   * A stream compacted when there is data to compact (a non-empty global
   * list and a non-empty stream); otherwise kept as it is, with no list.
   */
  method CompactWhenPresent(s: seq<int>, g: seq<real>, stride: nat, lookup: array<int>)
    returns (stream: Option<seq<int>>, local: Option<seq<real>>)
    requires stride > 0 && |g| % stride == 0 && |g| / stride == lookup.Length && Resolves(s, lookup.Length)
    modifies lookup
    ensures (stream, local) == CompactedStream(s, g, stride)
  {
    if |g| >= stride && |s| > 0 {
      var renumbered, gathered := CompactStream(s, g, stride, lookup);
      stream, local := Some(renumbered), Some(gathered);
    } else {
      stream, local := Some(s), None;
    }
  }

  /** Add a mesh to the scene when it can be drawn. */
  method Offer(scene: Scene, mesh: Mesh)
    requires mesh !in scene.children
    modifies scene, mesh`internalId
    ensures mesh.IsTrivial() ==> scene.children == old(scene.children)
    ensures !mesh.IsTrivial() ==> scene.children == old(scene.children) + [mesh]
    ensures old(scene.Valid()) ==> scene.Valid()
  {
    if !mesh.IsTrivial() {
      scene.AddChild(mesh);
    }
  }

  /**
   * One mesh at the end of `parseObj`: with vertices read and a non-empty
   * index stream, the mesh gets the vertices it references, in order of
   * first reference, and its stream is rewritten to index them; likewise
   * for texture coordinates when the mesh has a non-empty texture stream.
   * Otherwise the stream keeps its global indices and the list stays absent.
   */
  method BuildMesh(om: ObjMesh, vertices: seq<real>, texCoords: seq<real>, viBuffer: array<int>, tiBuffer: array<int>)
    returns (mesh: Mesh)
    requires viBuffer != tiBuffer
    requires |vertices| == 3 * viBuffer.Length && |texCoords| == 2 * tiBuffer.Length
    requires Resolved(om, viBuffer.Length, tiBuffer.Length)
    modifies viBuffer, tiBuffer
    ensures fresh(mesh) && mesh.internalId == 0
    ensures DataOf(mesh) == Compacted(om, vertices, texCoords)
  {
    assert |vertices| / 3 == viBuffer.Length && |texCoords| / 2 == tiBuffer.Length;
    var ib, vb := CompactWhenPresent(om.indexBuffer, vertices, 3, viBuffer);
    var tib: Option<seq<int>>, tb: Option<seq<real>> := None, None;
    if om.texCoordIndexBuffer.Some? {
      tib, tb := CompactWhenPresent(om.texCoordIndexBuffer.value, texCoords, 2, tiBuffer);
    }
    mesh := new Mesh();
    mesh.name := om.name;
    mesh.indexBuffer, mesh.vertexBuffer := ib, vb;
    mesh.texCoordIndexBuffer, mesh.texCoordBuffer := tib, tb;
  }
}
