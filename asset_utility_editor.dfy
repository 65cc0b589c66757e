/** Which paths count as buildable assets, and the filtered, sorted
    dependency expansion built on it (`AssetUtilityEditor`). */
module AssetUtilityEditor {
  import opened Strings
  import opened Collections
  import opened Sorting
  import opened Paths
  import opened Engine

  /** File types that are never packed into a bundle (compared case-sensitively). */
  const ExcludedExtensions: set<string> :=
    {".cs", ".js", ".boo", ".exe", ".dll", ".meta", ".preset", ".asmdef"}

  /** Both separators replaced by the platform's own. */
  function Normalize(path: string, sep: char): (r: string)
    ensures |r| == |path|
    ensures forall i :: 0 <= i < |path| ==>
      r[i] == if path[i] == '\\' || path[i] == '/' then sep else path[i]
  {
    ReplaceChar(ReplaceChar(path, '\\', sep), '/', sep)
  }

  /** A path inside a package: at least three lower-cased components, the
      first `packages`, the third not `package.json`. */
  predicate IsPathValidPackageAsset(path: string, sep: char) {
    var parts := Split(ToLower(path), sep);
    |parts| >= 3 && parts[0] == "packages" && parts[2] != "package.json"
  }

  /** The package test ignores case, so `Packages/…` and `packages/…` are
      both inside a package. */
  lemma PackageAssetIgnoresCase(path: string, sep: char)
    ensures IsPathValidPackageAsset(path, sep) == IsPathValidPackageAsset(ToLower(path), sep)
  {
    ToLowerIdempotent(path);
  }

  /** The path is under `Assets` (any case) or inside a package. */
  predicate HasAssetRoot(p: string, sep: char) {
    StartsWithIgnoreCase(p, "assets") || IsPathValidPackageAsset(p, sep)
  }

  /** The path is an `Editor` folder or lies inside one. */
  predicate InEditorFolder(p: string, sep: char) {
    EndsWith(p, [sep] + "Editor") || Contains(p, [sep] + "Editor" + [sep])
    || EndsWith(p, "/Editor") || Contains(p, "/Editor/")
  }

  /** Whether `path` may be put into a bundle. An empty string stands for
      both `null` and "". */
  predicate IsValidAssetPath(path: string, db: AssetDatabase) {
    var p := Normalize(path, db.sep);
    path != ""
    && HasAssetRoot(p, db.sep)
    && p !in db.engineResourcePaths
    && !InEditorFolder(p, db.sep)
    && p != "Assets"
    && GetExtension(p, db.sep) !in ExcludedExtensions
  }

  /** `GetDependencies(paths)`: the recursive expansion, keeping valid paths
      only, in ordinal order. */
  function GetDependencies(paths: seq<string>, db: AssetDatabase): (r: seq<string>)
    ensures SortedBy(r, Id)
    ensures forall i :: 0 <= i < |r| ==> IsValidAssetPath(r[i], db)
    ensures multiset(r) == multiset(Filter(db.dependencies(paths), p => IsValidAssetPath(p, db)))
  {
    var valid := Filter(db.dependencies(paths), p => IsValidAssetPath(p, db));
    SortBySameElements(valid, Id);
    Sort(valid)
  }

  /** `GetDependencies(path, recursive)`: the flag is not passed on, so the
      expansion is always recursive. */
  function GetDependenciesOf(path: string, recursive: bool, db: AssetDatabase): (r: seq<string>)
    ensures r == GetDependencies([path], db)
  {
    GetDependencies([path], db)
  }

  /** Every dependency that is a valid path is kept, and nothing else. */
  lemma GetDependenciesKeepsExactlyValid(paths: seq<string>, db: AssetDatabase, x: string)
    ensures x in GetDependencies(paths, db) <==> x in db.dependencies(paths) && IsValidAssetPath(x, db)
  {
    var f := Filter(db.dependencies(paths), p => IsValidAssetPath(p, db));
    assert x in GetDependencies(paths, db) <==> x in multiset(f);
  }

  /** Validity does not depend on which separator the caller wrote. */
  lemma ValidityIgnoresSeparatorStyle(path: string, db: AssetDatabase)
    ensures IsValidAssetPath(path, db) == IsValidAssetPath(ReplaceChar(path, '\\', '/'), db)
  {
    assert Normalize(path, db.sep) == Normalize(ReplaceChar(path, '\\', '/'), db.sep);
  }

  /** A character map that sends `sub` to `sub'` sends an occurrence of
      `sub` to an occurrence of `sub'`. */
  lemma NormalizeKeepsOccurrence(s: string, sub: string, i: int, sep: char)
    requires OccursAt(s, sub, i)
    ensures OccursAt(Normalize(s, sep), Normalize(sub, sep), i)
  {
    var n := Normalize(s, sep);
    forall k | 0 <= k < |sub| ensures n[i..i + |sub|][k] == Normalize(sub, sep)[k] {
      assert s[i + k] == sub[k];
    }
  }

  /** `Contains` holds exactly when there is an occurrence. */
  lemma ContainsAt(s: string, sub: string, i: int)
    requires OccursAt(s, sub, i)
    ensures Contains(s, sub)
  {
  }

  /** Nothing inside or named after an `Editor` folder is valid, whichever
      separators surround it. */
  lemma EditorFolderInvalid(path: string, db: AssetDatabase, a: char, b: char)
    requires a == '/' || a == '\\'
    requires b == '/' || b == '\\'
    requires Contains(path, [a] + "Editor" + [b]) || EndsWith(path, [a] + "Editor")
    ensures !IsValidAssetPath(path, db)
  {
    if Contains(path, [a] + "Editor" + [b]) {
      InsideEditorFolder(path, db.sep, a, b);
    } else {
      NamedEditorFolder(path, db.sep, a);
    }
  }

  lemma InsideEditorFolder(path: string, sep: char, a: char, b: char)
    requires a == '/' || a == '\\'
    requires b == '/' || b == '\\'
    requires Contains(path, [a] + "Editor" + [b])
    ensures Contains(Normalize(path, sep), [sep] + "Editor" + [sep])
  {
    var i := IndexOf(path, [a] + "Editor" + [b], 0);
    NormalizeKeepsOccurrence(path, [a] + "Editor" + [b], i, sep);
    assert Normalize([a] + "Editor" + [b], sep) == [sep] + "Editor" + [sep];
    ContainsAt(Normalize(path, sep), [sep] + "Editor" + [sep], i);
  }

  lemma NamedEditorFolder(path: string, sep: char, a: char)
    requires a == '/' || a == '\\'
    requires EndsWith(path, [a] + "Editor")
    ensures EndsWith(Normalize(path, sep), [sep] + "Editor")
  {
    var p := Normalize(path, sep);
    var i := |path| - 7;
    assert OccursAt(path, [a] + "Editor", i);
    NormalizeKeepsOccurrence(path, [a] + "Editor", i, sep);
    assert Normalize([a] + "Editor", sep) == [sep] + "Editor";
    assert p[|p| - 7..] == [sep] + "Editor";
  }

  /** A string without separators is its own normalization. */
  lemma NormalizeWithoutSeparators(s: string, sep: char)
    requires forall i :: 0 <= i < |s| ==> s[i] != '/' && s[i] != '\\'
    ensures Normalize(s, sep) == s
  {
  }

  /** A string lacking one of the characters of `sub` does not contain `sub`. */
  lemma AbsentCharNotContained(s: string, sub: string, c: char)
    requires c in sub && c !in s
    ensures !Contains(s, sub)
  {
  }

  /** Exactly `Assets` is rejected, while its lower-case spelling passes. */
  lemma AssetsRootIsCaseSensitive(db: AssetDatabase)
    requires db.sep == '/' || db.sep == '\\'
    requires "assets" !in db.engineResourcePaths
    ensures !IsValidAssetPath("Assets", db)
    ensures IsValidAssetPath("assets", db)
  {
    NormalizeWithoutSeparators("Assets", db.sep);
    LowerAssetsValid(db);
  }

  lemma LowerAssetsValid(db: AssetDatabase)
    requires db.sep == '/' || db.sep == '\\'
    requires "assets" !in db.engineResourcePaths
    ensures IsValidAssetPath("assets", db)
  {
    var sep := db.sep;
    NormalizeWithoutSeparators("assets", sep);
    assert ToLower("assets") == "assets";
    LowerAssetsNotEditor(sep);
    assert forall i :: 0 <= i < 6 ==> "assets"[i] != '.';
    assert LastIndexOf("assets", '.') == -1;
    assert "assets"[0] != "Assets"[0];
    if "" in ExcludedExtensions {
      ExcludedExtensionShape("");
    }
    ValidAssetPathFromParts("assets", db);
  }

  lemma LowerAssetsNotEditor(sep: char)
    requires sep == '/' || sep == '\\'
    ensures !InEditorFolder("assets", sep)
  {
    AbsentCharNotContained("assets", [sep] + "Editor" + [sep], 'E');
    AbsentCharNotContained("assets", "/Editor/", 'E');
    assert 'E' in [sep] + "Editor";
    assert 'E' in "/Editor";
  }

  /** Validity in terms of the normalized path. */
  lemma ValidAssetPathFromParts(path: string, db: AssetDatabase)
    requires path != ""
    requires HasAssetRoot(Normalize(path, db.sep), db.sep)
    requires Normalize(path, db.sep) !in db.engineResourcePaths
    requires !InEditorFolder(Normalize(path, db.sep), db.sep)
    requires Normalize(path, db.sep) != "Assets"
    requires GetExtension(Normalize(path, db.sep), db.sep) !in ExcludedExtensions
    ensures IsValidAssetPath(path, db)
  {
  }

  /** The excluded extensions are a dot followed by letters. */
  lemma ExcludedExtensionShape(ext: string)
    requires ext in ExcludedExtensions
    ensures |ext| >= 2 && ext[0] == '.'
    ensures forall i :: 0 < i < |ext| ==> 'a' <= ext[i] <= 'z'
  {
  }

  /** A path ending in an excluded extension is rejected. */
  lemma ExcludedExtensionInvalid(path: string, ext: string, db: AssetDatabase)
    requires db.sep == '/' || db.sep == '\\'
    requires ext in ExcludedExtensions
    requires EndsWith(path, ext)
    ensures !IsValidAssetPath(path, db)
  {
    var sep := db.sep;
    ExcludedExtensionShape(ext);
    var p := Normalize(path, sep);
    assert sep != '.';
    var start := |p| - |ext|;
    forall k | 0 <= k < |ext| ensures p[start..][k] == ext[k] {
      assert path[start + k] == path[start..][k];
    }
    assert p[start..] == ext;
    ExtensionOfSuffix(p, ext, sep);
  }
}
