/**
 * Choosing a scene loader from a URL: the file name follows the last
 * separator, the extension follows the file name's last dot, and the
 * extension is looked up, lower-cased, in the table of registered loaders.
 */
module LoaderSelection {
  import opened Wrappers
  import opened Sequences

  /** The separator both loaders split at: the last '/', or failing that the last '\\'. */
  function LastSlash(url: string): (r: int)
    ensures -1 <= r < |url|
  {
    var k := LastIndexOf(url, '/');
    if k == -1 then LastIndexOf(url, '\\') else k
  }

  /**
   * The path and file name of a URL, split just after its last separator;
   * without a separator the path is empty and the whole URL is the file name.
   */
  function SplitPath(url: string): (parts: (string, string))
  {
    var k := LastSlash(url);
    if k == -1 then ("", url) else (url[..k + 1], url[k + 1..])
  }

  /**
   * The path and the file name put back together give the URL; the path is
   * empty or ends with a separator; the file name holds no '/', and no '\\'
   * either when the URL has no '/'.
   */
  lemma SplitPathParts(url: string)
    ensures SplitPath(url).0 + SplitPath(url).1 == url
    ensures var path := SplitPath(url).0; path == "" || path[|path| - 1] == '/' || path[|path| - 1] == '\\'
    ensures '/' !in SplitPath(url).1
    ensures '/' !in url ==> '\\' !in SplitPath(url).1
  {
    var k := LastSlash(url);
    var file := SplitPath(url).1;
    assert file == url[k + 1..];
    forall i | 0 <= i < |file| ensures file[i] != '/' {
      assert file[i] == url[k + 1 + i];
    }
    if '/' !in url {
      assert LastIndexOf(url, '/') == -1;
      forall i | 0 <= i < |file| ensures file[i] != '\\' {
        assert file[i] == url[k + 1 + i];
      }
    }
  }

  /**
   * The extension `loadScene` looks up: nothing for an empty URL or a file
   * name without a dot, otherwise what follows the file name's last dot.
   */
  function ExtensionOf(url: string): (ext: Option<string>)
  {
    if url == "" then None
    else
      var name := SplitPath(url).1;
      var dot := LastIndexOf(name, '.');
      if dot == -1 then None else Some(name[dot + 1..])
  }

  /**
   * A URL has an extension exactly when its file name holds a dot; the
   * extension holds no dot and no '/', and the URL ends with a dot followed
   * by it.
   */
  lemma ExtensionParts(url: string)
    ensures ExtensionOf(url).Some? <==> '.' in SplitPath(url).1
    ensures ExtensionOf(url).Some? ==>
      var ext := ExtensionOf(url).value;
      && '.' !in ext && '/' !in ext
      && |ext| < |url| && url[|url| - |ext| - 1] == '.' && url[|url| - |ext|..] == ext
  {
    SplitPathParts(url);
    var (path, name) := SplitPath(url);
    LastIndexOfFinds(name, '.');
    if url == "" {
      assert name == "";
    } else if '.' in name {
      ExtensionTail(path, name, url);
      assert ExtensionOf(url).value == name[LastIndexOf(name, '.') + 1..];
    }
  }

  /** The part after the last dot of a file name that ends a URL. */
  lemma ExtensionTail(path: string, name: string, url: string)
    requires url == path + name && '/' !in name && LastIndexOf(name, '.') != -1
    ensures var ext := name[LastIndexOf(name, '.') + 1..];
      && '.' !in ext && '/' !in ext
      && |ext| < |url| && url[|url| - |ext| - 1] == '.' && url[|url| - |ext|..] == ext
  {
    var dot := LastIndexOf(name, '.');
    var ext := name[dot + 1..];
    forall i | 0 <= i < |ext| ensures ext[i] != '.' && ext[i] != '/' {
      assert ext[i] == name[dot + 1 + i];
    }
    assert url[|url| - |ext| - 1] == name[dot];
    assert url[|url| - |ext|..] == name[dot + 1..];
  }

  /** ASCII `toLowerCase` of one character. */
  function LowerChar(c: char): (d: char)
    ensures 'A' <= c <= 'Z' ==> 'a' <= d <= 'z' && d as int - c as int == 32
    ensures !('A' <= c <= 'Z') ==> d == c
  {
    if 'A' <= c <= 'Z' then (c as int + 32) as char else c
  }

  /** `s.toLowerCase()`, character by character. */
  function ToLower(s: string): (t: string)
    ensures |t| == |s|
    ensures forall i | 0 <= i < |s| :: t[i] == LowerChar(s[i])
  {
    seq(|s|, i requires 0 <= i < |s| => LowerChar(s[i]))
  }

  /** Lower-casing twice is lower-casing once. */
  lemma ToLowerIdempotent(s: string)
    ensures ToLower(ToLower(s)) == ToLower(s)
  {
    var t := ToLower(s);
    forall i | 0 <= i < |s| ensures ToLower(t)[i] == t[i] {
      assert t[i] == LowerChar(s[i]);
    }
  }

  /**
   * What a lookup can construct: the library's two loaders, or the plain
   * object `new Object()` that the table's inherited 'constructor' key
   * yields.
   */
  datatype LoaderKind = ObjLoader | StlLoader | PlainObject

  /**
   * The one key a plain JavaScript object inherits whose value constructs
   * something. The other inherited names are not all lower case, or name
   * functions and objects that are not constructors, so that `new` throws
   * and `getLoader` answers null for them.
   */
  const InheritedKey: string := "constructor"

  /**
   * The loader table: extensions, as registered, to loader constructors.
   * A constructor that is not a function is modelled as None.
   */
  class LoaderTable {
    var table: map<string, LoaderKind>

    /** The table as the library leaves it: 'obj' and 'stl' registered. */
    constructor ()
      ensures table == map["obj" := ObjLoader, "stl" := StlLoader]
    {
      table := map[];
      new;
      Register("obj", Some(ObjLoader));
      Register("stl", Some(StlLoader));
    }

    /** `registerLoader`: a function constructor is stored under the extension as given. */
    method Register(ext: string, ctor: Option<LoaderKind>)
      modifies this
      ensures ctor.Some? ==> table == old(table)[ext := ctor.value]
      ensures ctor.None? ==> table == old(table)
    {
      if ctor.Some? {
        table := table[ext := ctor.value];
      }
    }

    /**
     * `getLoader`: what is registered under the lower-cased extension;
     * failing that, the plain object the inherited 'constructor' key
     * builds; otherwise none.
     */
    function GetLoader(ext: string): (loader: Option<LoaderKind>)
      reads this
      ensures ToLower(ext) in table ==> loader == Some(table[ToLower(ext)])
      ensures ToLower(ext) !in table ==> (loader.Some? <==> ToLower(ext) == InheritedKey)
      ensures ToLower(ext) !in table && loader.Some? ==> loader.value == PlainObject
    {
      var key := ToLower(ext);
      if key in table then Some(table[key])
      else if key == InheritedKey then Some(PlainObject)
      else None
    }

    /** The lookup ignores case: an extension selects the same loader as its lower-case form. */
    lemma GetLoaderIgnoresCase(ext: string)
      ensures GetLoader(ext) == GetLoader(ToLower(ext))
    {
      ToLowerIdempotent(ext);
    }

    /**
     * `loadScene`'s choice: a loader exactly when the URL has an extension
     * that is registered in lower case or is 'constructor' in any case, and
     * then the one `getLoader` gives for it.
     */
    function SelectLoader(url: string): (loader: Option<LoaderKind>)
      reads this
      ensures loader.Some? <==>
        ExtensionOf(url).Some? && (ToLower(ExtensionOf(url).value) in table || ToLower(ExtensionOf(url).value) == InheritedKey)
      ensures loader.Some? ==> loader == GetLoader(ExtensionOf(url).value)
    {
      match ExtensionOf(url)
      case None => None
      case Some(ext) => GetLoader(ext)
    }

    /**
     * How `loadScene` ends: it declines (returns false) exactly when no
     * loader is selected, starts loading with a selected loader, and
     * throws a TypeError when the selection is the plain object, which has
     * no `loadFromUrl`.
     */
    function LoadScene(url: string): (outcome: SceneLoad)
      reads this
      ensures outcome == Declined <==> SelectLoader(url).None?
      ensures outcome.Loading? <==> SelectLoader(url).Some? && SelectLoader(url).value != PlainObject
      ensures outcome.Loading? ==> Some(outcome.loader) == SelectLoader(url)
      ensures outcome == NotALoader <==> SelectLoader(url) == Some(PlainObject)
    {
      match SelectLoader(url)
      case None => Declined
      case Some(PlainObject) => NotALoader
      case Some(kind) => Loading(kind)
    }
  }

  /** The ways `loadScene` can end once the URL is read. */
  datatype SceneLoad = Declined | Loading(loader: LoaderKind) | NotALoader

  /**
   * With the library's own registrations, a URL selects the OBJ loader
   * exactly when its extension is "obj" in any case, the STL loader exactly
   * when it is "stl" in any case, the plain object exactly when it is
   * "constructor" in any case, and nothing otherwise.
   */
  lemma DefaultSelection(t: LoaderTable, url: string)
    requires t.table == map["obj" := ObjLoader, "stl" := StlLoader]
    ensures t.SelectLoader(url) == Some(ObjLoader) <==>
      ExtensionOf(url).Some? && ToLower(ExtensionOf(url).value) == "obj"
    ensures t.SelectLoader(url) == Some(StlLoader) <==>
      ExtensionOf(url).Some? && ToLower(ExtensionOf(url).value) == "stl"
    ensures t.SelectLoader(url) == Some(PlainObject) <==>
      ExtensionOf(url).Some? && ToLower(ExtensionOf(url).value) == InheritedKey
    ensures t.SelectLoader(url).None? <==>
      ExtensionOf(url).None? || ToLower(ExtensionOf(url).value) !in {"obj", "stl", InheritedKey}
  {
  }

  /**
   * With the library's own registrations, a URL ending in ".Constructor" (in
   * any case) makes `loadScene` throw instead of declining.
   */
  lemma ConstructorUrlThrows(t: LoaderTable)
    requires t.table == map["obj" := ObjLoader, "stl" := StlLoader]
    ensures t.LoadScene("models/a.Constructor") == NotALoader
  {
    var url := "models/a.Constructor";
    assert url[6] == '/' && forall k | 6 < k < |url| :: url[k] != '/';
    assert LastIndexOf(url, '/') == 6;
    assert SplitPath(url).1 == "a.Constructor";
    var name := "a.Constructor";
    assert name[1] == '.' && forall k | 1 < k < |name| :: name[k] != '.';
    assert LastIndexOf(name, '.') == 1;
    assert ExtensionOf(url) == Some("Constructor");
    assert ToLower("Constructor") == InheritedKey;
  }
}
