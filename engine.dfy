/** The editor services the build-time code queries, as values: Unity's
    `AssetDatabase`, `Directory.Exists` and the platform's directory
    separator. Each is an arbitrary function, so every property proved
    holds whatever the project's assets are. */
module Engine {
  import opened Wrappers

  /** A `System.Type` as far as the code looks at it. */
  datatype TypeName = TypeName(name: string, fullName: string)

  /** The type Unity reports for a scene file. */
  const SceneAssetType := TypeName("SceneAsset", "UnityEditor.SceneAsset")

  datatype AssetDatabase = AssetDatabase(
    /** `AssetDatabase.GetDependencies(paths, true)`: the paths themselves
        and everything they reference, recursively. */
    dependencies: seq<string> -> seq<string>,
    /** `AssetDatabase.GetMainAssetTypeAtPath`; `None` for a path without an asset. */
    mainType: string -> Option<TypeName>,
    /** `AssetDatabase.AssetPathToGUID`. */
    guidOf: string -> string,
    /** `Directory.Exists`. */
    isDirectory: string -> bool,
    /** The three engine resource paths of `CommonStrings` in the scriptable build pipeline. */
    engineResourcePaths: set<string>,
    /** `Path.DirectorySeparatorChar`. */
    sep: char)
  {
    /** `GetMainAssetTypeAtPath(p) == typeof(SceneAsset)`. */
    predicate IsScene(p: string) {
      mainType(p) == Some(SceneAssetType)
    }
  }
}
