# XGAsset, modelled in Dafny

XGAsset is a Unity asset-bundle system. In the editor, an address database
lists assets. Each asset has an address and labels, and each entry sits in a
group of a package. A build script uses this database to pack the assets
into bundles, following each group's pack rule. It then computes the bundle
dependency graph and the manifest, and copies a package's bundles and their
dependencies into the streaming-assets folder. At run time, a resource
manager keeps a registry of loaded packages, bundles and assets, with
reference counts. Loads are asynchronous operations that wait on other
operations. A download service fetches remote bundles, with retries,
resumption and validation. Small helpers expand `{key}` placeholders in
URLs, keep the download hosts, pool reusable objects and sort lists.

This project models these parts and proves what they promise:

- Build side:
  - the three pack rules (`PackRules`);
  - the per-package bundle layouts, and how duplicates are moved into
    share bundles (`BuildScript`);
  - the bundle dependency closure and the manifest names
    (`GenerateManifest`, `Manifest`);
  - the files copied to streaming assets (`CopyToStreaming`).
- Editor side:
  - entries, groups and packages of the address database (`Entries`,
    `Groups`, `Packages`);
  - the default settings: address lookup, duplicate checks and label
    bookkeeping (`Settings`);
  - the path predicates of the editor utility (`AssetUtilityEditor`).
- Runtime side:
  - the resources manager's registry, loading, reference counting and
    unloading (`Registry`);
  - a resource package (`ResourcePackages`);
  - the graph of asynchronous operations and its completion (`Operations`);
  - operation handles (`Handles`);
  - the download task scheduler and its validation (`Downloads`);
  - placeholder expansion (`Placeholders`);
  - host URLs (`Hosts`);
  - the object pool (`Pool`);
  - the list helpers (`Lists`).

The helper modules `Wrappers`, `Strings`, `Collections`, `Sorting`,
`Paths`, `Engine` and `Graphs` hold shared definitions and their lemmas.
Mutable objects of the source are classes with `modifies` frames. Pure
computations are functions, and loops are methods that are proved
against those functions.

## Model

| member | source | states |
|---|---|---|
| BuildScript.GenerateBundleLayout | Assets/Editor/Build/BuildScript.cs:110-117 | the rule class named by the group's pack rule runs, an unknown name falling back to `PackTogether` |
| BuildScript.RuleLayoutsInherit | Assets/Editor/Build/BuildScript.cs:110-117 | a rule fails only for an untyped entry under `PackTogetherByType`; every layout of every rule is non-empty and carries its group's guid and copy flag |
| BuildScript.WithCopy | Assets/Editor/Build/BuildScript.cs:97-100 | one layout per input layout, in order, each taking the copy flag and keeping every other field |
| BuildScript.WithCopyKeeps | Assets/Editor/Build/BuildScript.cs:97-100 | overwriting a copy flag every layout already has changes nothing |
| BuildScript.PackageLayoutsSnoc | Assets/Editor/Build/BuildScript.cs:90-105 | one more group: an inactive group adds nothing, an active one adds its rule's layouts with its copy flag, a thrown rule ends the build |
| BuildScript.PackageLayoutsErr | Assets/Editor/Build/BuildScript.cs:90-105 | once a rule has thrown, later groups do not matter |
| BuildScript.GenerateCurrentPackageBundleLayouts | Assets/Editor/Build/BuildScript.cs:86-108 | the loop gathers exactly the package layouts of the active groups in order |
| BuildScript.SetCopy | Assets/Editor/Build/BuildScript.cs:97-100 | the loop sets every layout's copy flag |
| BuildScript.PackageLayoutsAre | Assets/Editor/Build/BuildScript.cs:86-108 | the build fails iff the rule of an active group throws; otherwise a layout is gathered iff an active group's rule makes it |
| BuildScript.PackageLayoutsInherit | Assets/Editor/Build/BuildScript.cs:86-117 | only active groups contribute; each layout is non-empty and carries the guid and the copy flag of its group; the build fails iff an active group's rule throws |
| BuildScript.CreateAssetBundleBuilds | Assets/Editor/Build/BuildScript.cs:77-84 | one build per layout, in order, holding the layout's assets |
| BuildScript.BuildNamesLower | Assets/Editor/Build/BuildScript.cs:81 | each build name is lower case and is the layout's name lower-cased |
| BuildScript.CountAssets | Assets/Editor/Build/BuildScript.cs:127-135 | the inner loop adds each asset's occurrences to its count and adds missing keys |
| BuildScript.CountRefs | Assets/Editor/Build/BuildScript.cs:123-136 | the keys are exactly the referenced assets, and each count is the number of references across all layouts |
| BuildScript.DuplicateKeys | Assets/Editor/Build/BuildScript.cs:138 | distinct keys in ordinal order, exactly those counted twice or more |
| BuildScript.Strip | Assets/Editor/Build/BuildScript.cs:140-143 | stripping keeps the number of layouts |
| BuildScript.StripDuplicates | Assets/Editor/Build/BuildScript.cs:140-143 | the loop takes the duplicates out of every layout with `Except` |
| BuildScript.StripKeeps | Assets/Editor/Build/BuildScript.cs:142 | a stripped layout holds exactly its assets that are not duplicates, each once |
| BuildScript.SlashAt | Assets/Editor/Build/BuildScript.cs:152 | an occurrence of `/` is a directory level of the path |
| BuildScript.SharingMonotone | Assets/Editor/Build/BuildScript.cs:158 | a longer prefix is shared by no more paths |
| BuildScript.LevelSharing | Assets/Editor/Build/BuildScript.cs:150-163 | a deeper level of a path is shared by no more paths than a shallower one |
| BuildScript.ShareKeywordUnique | Assets/Editor/Build/BuildScript.cs:148-163 | the keyword is determined by the paths |
| BuildScript.WalkedToEnd | Assets/Editor/Build/BuildScript.cs:152-154 | a search that finds no further `/` has the keyword: the deepest shared level, or "" for a path without `/` |
| BuildScript.SteppedBack | Assets/Editor/Build/BuildScript.cs:158-161 | at the first level fewer than two paths share, `LastIndexOf` finds no `/` exactly when that level is the first one; otherwise stepping back yields the keyword |
| BuildScript.ShareKeywordAsWritten | Assets/Editor/Build/BuildScript.cs:148-163 | as written: throws `ArgumentOutOfRange` exactly when the first path's first level is shared by no other path, and otherwise finds the keyword |
| BuildScript.ShareKeyword | Assets/Editor/Build/BuildScript.cs:148-163 | corrected: always finds the keyword, taking the first level itself when nothing shares it |
| BuildScript.ShareKeywordPrefix | Assets/Editor/Build/BuildScript.cs:148-168 | the keyword is a prefix of the first path, so that path joins the share layout and leaves the list |
| BuildScript.WithPrefix | Assets/Editor/Build/BuildScript.cs:168 | exactly the paths starting with the keyword, duplicate-free when the paths are |
| BuildScript.ExceptMembers | Assets/Editor/Build/BuildScript.cs:142-170 | `Except` keeps exactly the elements not excluded |
| BuildScript.TakeShare | Assets/Editor/Build/BuildScript.cs:165-170 | one round: the paths starting with the keyword form one more share layout and leave the list, which gets shorter, and every duplicate is still either left to place or in exactly one share layout |
| BuildScript.TakenAreHeld | Assets/Editor/Build/BuildScript.cs:165-170 | after a round the duplicates are exactly the paths left plus the assets of the share layouts |
| BuildScript.ShareDuplicates | Assets/Editor/Build/BuildScript.cs:145-171 | as written: a keyword search that throws ends the loop with `ArgumentOutOfRange`, which happens in the first round exactly when no other duplicate shares the first level of the first; a loop that finishes gives share layouts with no group, copied, named `share_<keyword>.bundle`, holding distinct assets that start with the keyword, and every duplicate lands in exactly one of them |
| BuildScript.GenerateBundleLayoutsByGroup | Assets/Editor/Build/BuildScript.cs:119-174 | as written: a failed package build is passed on; a thrown keyword search fails the build with `ArgumentOutOfRange`, which a lone duplicate with a directory in its path always causes; a build that succeeds gives the package layouts stripped of the duplicates followed by share layouts holding every duplicate exactly once |
| BuildScript.ShareDuplicatesCorrected | Assets/Editor/Build/BuildScript.cs:145-171 | corrected: the share loop never throws; every share layout has no group, is copied, is named `share_<keyword>.bundle` and holds distinct assets starting with its keyword; every duplicate lands in exactly one share layout and nothing else does |
| BuildScript.GenerateBundleLayoutsByGroupCorrected | Assets/Editor/Build/BuildScript.cs:119-174 | corrected: a failed package build is passed on; otherwise the package layouts stripped of duplicates followed by share layouts that hold every duplicate exactly once |
| BuildScript.StripShared | Assets/Editor/Build/BuildScript.cs:123-143 | the duplicates are listed once each in ordinal order, exactly the assets referenced twice or more, and the layouts are stripped of them |
| BuildScript.StrippedThenShared | Assets/Editor/Build/BuildScript.cs:140-173 | stripped layouts followed by share layouts of every duplicate form the build's result as `ByGroup` describes it |
| BuildScript.InAllAssets | Assets/Editor/Build/BuildScript.cs:125-136 | every asset of a layout is counted |
| BuildScript.TwiceIsDup | Assets/Editor/Build/BuildScript.cs:123-138 | an asset referenced by two layouts is a duplicate |
| BuildScript.ByGroupStripped | Assets/Editor/Build/BuildScript.cs:140-143 | each stripped layout keeps, once each, exactly its assets no other layout references |
| BuildScript.ByGroupDisjoint | Assets/Editor/Build/BuildScript.cs:119-174 | no asset is in two output layouts, and none is twice in one |
| BuildScript.ByGroupKeepsAssets | Assets/Editor/Build/BuildScript.cs:119-174 | every asset of the package layouts stays in some output layout |
| BuildScript.ByGroupAddsNoAsset | Assets/Editor/Build/BuildScript.cs:119-174 | the output references no asset the package layouts lack |
| BuildScript.ByGroupSameAssets | Assets/Editor/Build/BuildScript.cs:119-174 | the output references exactly the assets of the package layouts |
| BuildScript.LoneDuplicateThrows | Assets/Editor/Build/BuildScript.cs:158-161 | two groups packing `Assets/a.png` make it the only duplicate, whose first level no other path shares: the keyword search as written throws |
| PackRules.ActivePaths | Assets/Editor/Build/BundlePackRule.cs:23 | every active entry's path is listed, and every listed path is an active entry's |
| PackRules.PackTogether | Assets/Editor/Build/BundlePackRule.cs:16-49 | at most two layouts, none empty, each carrying the group's guid and copy flag, the scene layout named `GroupName.bundle` and the other `GroupName_asset.bundle` |
| PackRules.Pack | Assets/Editor/Build/BundlePackRule.cs:25-48 | at most two layouts once the dependency list is expanded |
| PackRules.ScenesSplit | Assets/Editor/Build/BundlePackRule.cs:27-38 | every dependency is either in the scene list (exactly when it is a scene) or in the rest after `Except`, and the rest holds no scene |
| PackRules.PackLayouts | Assets/Editor/Build/BundlePackRule.cs:20-45 | no layout iff no dependency; otherwise non-empty layouts with the group's guid, copy flag and names, the scene layout first |
| PackRules.PackCovers | Assets/Editor/Build/BundlePackRule.cs:27-45 | the layouts hold only dependencies, every dependency is in one of them, and the scene layout holds exactly the scenes |
| PackRules.PackDisjoint | Assets/Editor/Build/BundlePackRule.cs:31-45 | the two layouts share no asset and have different names |
| PackRules.AddFresh | Assets/Editor/Settings/AssetAddressGroupInfo.cs:147-182 | adding to a new sub-group keeps its entries sorted by path; an empty or already filed path adds nothing, any other adds exactly its fresh entry |
| PackRules.FreshAdds | Assets/Editor/Build/BundlePackRule.cs:99-102 | the entries after adding a run of paths stay sorted by path |
| PackRules.AddFreshFrom | Assets/Editor/Settings/AssetAddressGroupInfo.cs:147-182 | one add introduces at most the new path's entry, and leaves the list empty only for an empty list and empty path |
| PackRules.AddFreshFiles | Assets/Editor/Settings/AssetAddressGroupInfo.cs:147-182 | one add keeps every filed key and files the added path |
| PackRules.FreshAddsFrom | Assets/Editor/Build/BundlePackRule.cs:99-102 | a sub-group holds only fresh entries of non-empty added paths |
| PackRules.FreshAddsFiles | Assets/Editor/Build/BundlePackRule.cs:99-102 | every non-empty added path is filed in the sub-group |
| PackRules.FreshAddsEmpty | Assets/Editor/Build/BundlePackRule.cs:101-105 | a sub-group stays empty iff every added path is empty |
| PackRules.LayoutsEach | Assets/Editor/Build/BundlePackRule.cs:75-78 | one layout list per sub-group |
| PackRules.PackAllIsEach | Assets/Editor/Build/BundlePackRule.cs:75-78 | the gathered layouts are exactly the layouts of some sub-group |
| PackRules.PackAllInherits | Assets/Editor/Build/BundlePackRule.cs:67-98 | sub-groups carrying the group's guid and copy flag and named `GroupName_…` give non-empty layouts that do the same |
| PackRules.PackEach | Assets/Editor/Build/BundlePackRule.cs:74-115 | the `AddRange` loop gathers exactly the layouts of each sub-group in order |
| PackRules.MapActiveAre | Assets/Editor/Build/BundlePackRule.cs:61-72 | the mapped list holds exactly the images of the active entries |
| PackRules.SeparateGroupsAre | Assets/Editor/Build/BundlePackRule.cs:61-72 | the sub-groups of `PackSeparately` are exactly one per active entry, named after the entry's address without extension |
| PackRules.PackSeparately | Assets/Editor/Build/BundlePackRule.cs:57-81 | the layouts are those of the active entries' sub-groups, packed together in entry order |
| PackRules.SeparatelyLayouts | Assets/Editor/Build/BundlePackRule.cs:57-81 | every layout carries the group's guid and copy flag and a `GroupName_` name, and a layout is produced iff it is a layout of an active entry's sub-group |
| PackRules.TypeKeys | Assets/Editor/Build/BundlePackRule.cs:91 | the `GroupBy` keys: distinct, and exactly the type names of the entries |
| PackRules.TypeKeysInFirstOccurrenceOrder | Assets/Editor/Build/BundlePackRule.cs:91 | the `GroupBy` keys come in the order in which their types first occur among the entries |
| Collections.ExceptKeepsOrder | Assets/Editor/Build/BundlePackRule.cs:91 | keeping each element once lists them in the order of their first occurrence |
| PackRules.KeyedPaths | Assets/Editor/Build/BundlePackRule.cs:99-102 | exactly the paths of the active entries of that type |
| PackRules.NonEmptyAre | Assets/Editor/Build/BundlePackRule.cs:104-105 | the kept sub-groups are exactly those holding an entry |
| PackRules.NonEmptyMapAre | Assets/Editor/Build/BundlePackRule.cs:93-106 | the kept images are exactly the non-empty images |
| PackRules.PackNonEmptyMap | Assets/Editor/Build/BundlePackRule.cs:93-113 | the layouts of the kept images are exactly the layouts of the non-empty images |
| PackRules.TypeGroupKept | Assets/Editor/Build/BundlePackRule.cs:99-105 | a type's sub-group is kept iff an active entry of that type has a non-empty path |
| PackRules.GroupKeys | Assets/Editor/Build/BundlePackRule.cs:91 | an entry without a main type makes the key selector dereference null; otherwise each entry's type name |
| PackRules.AddKeyed | Assets/Editor/Build/BundlePackRule.cs:99-102 | the loop adds the active entries of the type in order, giving the type's sub-group |
| PackRules.PackTogetherByType | Assets/Editor/Build/BundlePackRule.cs:89-116 | a null dereference when an entry has no main type; otherwise the layouts of the non-empty type sub-groups, packed together in key order |
| PackRules.KeptTypeGroups | Assets/Editor/Build/BundlePackRule.cs:92-106 | the loop keeps exactly the non-empty sub-groups of the keys, in order |
| PackRules.ByTypeInherits | Assets/Editor/Build/BundlePackRule.cs:96-98 | every layout carries the group's guid and copy flag and a `GroupName_` name |
| PackRules.TypeGroupInherits | Assets/Editor/Build/BundlePackRule.cs:96-98 | a type sub-group carries the group's guid, copy flag and a `GroupName_` name |
| PackRules.ByTypeLayouts | Assets/Editor/Build/BundlePackRule.cs:89-116 | a layout is produced iff it is a layout of the non-empty sub-group of some type name |
| GenerateManifest.MappedFront | Assets/Editor/Build/Task/GenerateManifestData.cs:174-199 | a prefix of mapped file lists is mapped |
| GenerateManifest.DirectKeys | Assets/Editor/Build/Task/GenerateManifestData.cs:174-199 | the direct map's keys are exactly the bundles holding a listed file |
| GenerateManifest.DirectSets | Assets/Editor/Build/Task/GenerateManifestData.cs:179-188 | a bundle's direct set holds exactly the other bundles of the lists whose first file it holds |
| GenerateManifest.EdgesInSet | Assets/Editor/Build/Task/GenerateManifestData.cs:187-188 | every direct edge of a bundle is in its set after the lists |
| GenerateManifest.SetHoldsEdges | Assets/Editor/Build/Task/GenerateManifestData.cs:187-188 | every member of a bundle's set is a direct edge |
| GenerateManifest.DirectClosed | Assets/Editor/Build/Task/GenerateManifestData.cs:188-198 | no bundle depends directly on itself, and every direct dependency is itself a key |
| GenerateManifest.AddKeys | Assets/Editor/Build/Task/GenerateManifestData.cs:191-198 | the inner loop gives every bundle of the list a key and keeps existing sets |
| GenerateManifest.AddList | Assets/Editor/Build/Task/GenerateManifestData.cs:179-198 | one list: the owning bundle gains the list's other bundles and every bundle of the list gets a key |
| GenerateManifest.DirectSnoc | Assets/Editor/Build/Task/GenerateManifestData.cs:174-199 | an empty list is skipped; a non-empty one is one more step |
| GenerateManifest.DirectDependencies | Assets/Editor/Build/Task/GenerateManifestData.cs:172-199 | a listed file without a bundle makes the lookup throw; otherwise the direct map |
| GenerateManifest.ToList | Assets/Editor/Build/Task/GenerateManifestData.cs:206-222 | a duplicate-free list of exactly the set's members |
| GenerateManifest.Absorb | Assets/Editor/Build/Task/GenerateManifestData.cs:211-215 | the set gains every member of the other set, and the newly added ones are returned, each once |
| GenerateManifest.CloseKey | Assets/Editor/Build/Task/GenerateManifestData.cs:206-216 | the work-list loop for one key ends with exactly what that key reaches |
| GenerateManifest.CloseAll | Assets/Editor/Build/Task/GenerateManifestData.cs:201-218 | the recursive pass gives every key exactly what it reaches, although it reads sets it has already grown |
| GenerateManifest.SortedLists | Assets/Editor/Build/Task/GenerateManifestData.cs:220-225 | each set becomes a sorted duplicate-free list of the same members, under the same keys |
| GenerateManifest.CalculateBundleDependencies | Assets/Editor/Build/Task/GenerateManifestData.cs:170-228 | fails iff a listed file has no bundle; otherwise every bundle holding a listed file maps to its sorted direct dependencies, or to everything it reaches when recursive |
| GenerateManifest.RemoveFirstOfDistinct | Assets/Editor/Build/Task/GenerateManifestData.cs:96 | on a list without repeats `Remove(x)` takes out `x` and keeps the rest |
| GenerateManifest.RemoveAllOfDistinct | Assets/Editor/Build/Task/GenerateManifestData.cs:92-98 | on a list without repeats, removing names leaves exactly the members not removed |
| GenerateManifest.RemoveNames | Assets/Editor/Build/Task/GenerateManifestData.cs:94-97 | the inner loop removes each name in turn |
| GenerateManifest.RemoveDirect | Assets/Editor/Build/Task/GenerateManifestData.cs:92-98 | each recursive list loses the direct dependencies of its bundle, and nothing else changes |
| GenerateManifest.BundleDependencies | Assets/Editor/Build/Task/GenerateManifestData.cs:90-98 | the direct map as sorted lists, and for each bundle the indirect list: exactly what it reaches but does not depend on directly |
| GenerateManifest.IndirectSplit | Assets/Editor/Build/Task/GenerateManifestData.cs:90-98 | direct dependencies are among the reached ones, and a bundle is its own indirect dependency iff it lies on a dependency cycle |
| GenerateManifest.RenamedDependencies | Assets/Editor/Build/Task/GenerateManifestData.cs:111-112 | none iff the bundle has no entry; a name missing from the rename map throws; otherwise the renamed dependencies, sorted, one per dependency |
| GenerateManifest.RenamedMembers | Assets/Editor/Build/Task/GenerateManifestData.cs:111-112 | sorting the renamed list keeps its length and its members |
| GenerateManifest.IncludeAssets | Assets/Editor/Build/Task/GenerateManifestData.cs:115-118 | the included assets are sorted, each once, and exactly the file's object paths that are not C# scripts |
| GenerateManifest.IncludedMembers | Assets/Editor/Build/Task/GenerateManifestData.cs:115 | `Distinct` then the script filter keeps exactly the non-script paths |
| GenerateManifest.GetNewFileName | Assets/Editor/Build/Task/GenerateManifestData.cs:164-168 | a name without extension makes `Replace("")` throw; otherwise the renamed file |
| GenerateManifest.NewFileNameEnds | Assets/Editor/Build/Task/GenerateManifestData.cs:164-168 | the renamed file ends with the hash and the extension whenever neither holds a `_` |
| GenerateManifest.ManifestName | Assets/Editor/Build/Task/GenerateManifestData.cs:150 | the manifest stem starts with `Manifest_` |
| GenerateManifest.SuffixExtension | Assets/Editor/Build/Task/GenerateManifestData.cs:151-153 | a stem followed by a well-formed extension has that extension |
| GenerateManifest.ManifestFileExtensions | Assets/Editor/Build/Task/GenerateManifestData.cs:151-153 | the three manifest files end in `.json`, `.hash` and `.zip` |
| GenerateManifest.ManifestFilesDistinct | Assets/Editor/Build/Task/GenerateManifestData.cs:150-153 | the three manifest files differ and share the stem |
| CopyToStreaming.CopyNode | Assets/Editor/Build/Task/CopyToStreamingAssets.cs:129-131 | a name is walkable iff the first record of that name has a dependency list, and then its successors are that list's names |
| CopyToStreaming.DependIsName | Assets/Editor/Build/Task/CopyToStreamingAssets.cs:131-135 | every dependency walked to is a name some record lists |
| CopyToStreaming.WalkStart | Assets/Editor/Build/Task/CopyToStreamingAssets.cs:124-127 | listing the name if it is new starts a walk that keeps the earlier list as a prefix and repeats nothing |
| CopyToStreaming.WalkStep | Assets/Editor/Build/Task/CopyToStreamingAssets.cs:133-136 | a finished walk from a dependency keeps the walk from the name going and only adds names |
| CopyToStreaming.DependCopy | Assets/Editor/Build/Task/CopyToStreamingAssets.cs:122-138 | on success the list grows, without repeats, by the name and everything it reaches, with every dependency listed; a null dereference exactly when something reached has no usable record |
| CopyToStreaming.CopyDeps | Assets/Editor/Build/Task/CopyToStreamingAssets.cs:131-137 | the loop over the dependencies walks each one not listed yet and ends with every dependency of the name listed |
| CopyToStreaming.StartsMembers | Assets/Editor/Build/Task/CopyToStreamingAssets.cs:90-99 | the walks start from exactly the new names of the layouts marked for copying whose lower-cased name was renamed |
| CopyToStreaming.CoverStep | Assets/Editor/Build/Task/CopyToStreamingAssets.cs:90-99 | a finished walk from one more start extends the cover to it |
| CopyToStreaming.StartsSnoc | Assets/Editor/Build/Task/CopyToStreamingAssets.cs:90-99 | one more layout adds its start exactly when it contributes |
| CopyToStreaming.StartBroken | Assets/Editor/Build/Task/CopyToStreamingAssets.cs:90-99 | a contributing layout that reaches a name without a usable record breaks the whole list |
| CopyToStreaming.CoversNotBroken | Assets/Editor/Build/Task/CopyToStreamingAssets.cs:122-138 | a completed cover lists only walkable names, so nothing it reaches is broken |
| CopyToStreaming.CopyClosures | Assets/Editor/Build/Task/CopyToStreamingAssets.cs:90-99 | fails iff some start reaches a name without a usable record; otherwise exactly what the starts reach, each once, with every dependency listed |
| CopyToStreaming.GenerateCopyFiles | Assets/Editor/Build/Task/CopyToStreamingAssets.cs:73-120 | fails as the walks do; otherwise a sorted list holding exactly what the copied layouts reach plus the manifest's `.json`, `.hash` and `.zip` files |
| Operations.Fresh | Assets/Runtime/Provider/AsyncOperationBase.cs:62-76 | a new operation is `Pending`, with no references, callbacks, engine request, asset or completion source |
| Operations.Synced | Assets/Runtime/Provider/AsyncOperationBase.cs:202-209 | with an engine request the asset becomes its bundle, and a finished request marks the operation `Succeeded`; nothing else changes |
| Operations.SyncedTwice | Assets/Runtime/Provider/AsyncOperationBase.cs:202-209 | synchronising twice is synchronising once |
| Operations.AdvancedTrans | Assets/Runtime/Provider/AsyncOperationBase.cs:114-126 | the moves `Start` and `IsDone` make compose: status only towards `Succeeded`, a source only towards resolved |
| Operations.DoneMono | Assets/Runtime/Provider/AsyncOperationBase.cs:198-224 | once done, an operation stays done under any later moves, so no status returns to `Pending` or `Progress` |
| Operations.DoneStep | Assets/Runtime/Provider/AsyncOperationBase.cs:211-220 | `IsDone`'s loop answers false at the first dependency that is not done |
| Operations.StartedStep | Assets/Runtime/Provider/AsyncOperationBase.cs:137-142 | every `Start` that completes was of an operation that was not done when its turn came |
| Operations.StartStep | Assets/Runtime/Provider/AsyncOperationBase.cs:137-142 | each dependency in turn is done afterwards: it was done already, or it was started |
| Operations.RecountStep | Assets/Runtime/Provider/AsyncOperationBase.cs:266-272 | finishing the walk into one dependency keeps the walk from the parent consistent |
| Operations.RecountedExactly | Assets/Runtime/Provider/AsyncOperationBase.cs:261-289 | a walk from an unvisited operation visits exactly the operations reachable from it without passing a node visited before |
| Operations.CollectStep | Assets/Runtime/Provider/AsyncOperationBase.cs:102-108 | collecting a dependency's statuses keeps the collection from the parent consistent |
| Operations.Operations.constructor | Assets/Runtime/Provider/AsyncOperationBase.cs:60-76 | no operations yet |
| Operations.Operations.Create | Assets/Runtime/Provider/AsyncOperationBase.cs:60-76 | appends one fresh operation with the given `DependOps` |
| Operations.Operations.SetDependOps | Assets/Runtime/Provider/AsyncOperationBase.cs:240-244 | sets one operation's `DependOps` and nothing else |
| Operations.Operations.IsDone | Assets/Runtime/Provider/AsyncOperationBase.cs:198-224 | synchronises the operation; false while any dependency is not done; otherwise true exactly when the status is `Succeeded` or `Failure` |
| Operations.Operations.Start | Assets/Runtime/Provider/AsyncOperationBase.cs:114-126 | starts the dependencies that are not done, runs `StartSelf` at most once, ends `Succeeded` and done, fires every queued callback, which stay queued, and resolves an existing source |
| Operations.Operations.StartDepends | Assets/Runtime/Provider/AsyncOperationBase.cs:128-149 | starts, in order, only the dependencies not done when their turn comes; all are done afterwards |
| Operations.Operations.Recount | Assets/Runtime/Provider/AsyncOperationBase.cs:261-289 | with a visited set, each newly visited reachable operation moves by exactly `delta`, and already visited ones are untouched |
| Operations.Operations.AddRef | Assets/Runtime/Provider/AsyncOperationBase.cs:261-274 | each newly visited reachable operation gains exactly one reference |
| Operations.Operations.DecRef | Assets/Runtime/Provider/AsyncOperationBase.cs:276-289 | each newly visited reachable operation loses exactly one reference |
| Operations.Operations.Unload | Assets/Runtime/Provider/AsyncOperationBase.cs:291-299 | the operation becomes unloadable when its count is at most 0, and the flag is never reset |
| Operations.Operations.Subscribe | Assets/Runtime/Provider/AsyncOperationBase.cs:228-236 | a done operation invokes the callback at once without queueing it; one not done queues it; null is ignored |
| Operations.Operations.Unsubscribe | Assets/Runtime/Provider/AsyncOperationBase.cs:237 | drops the callback's last queued occurrence |
| Operations.Operations.Task | Assets/Runtime/Provider/AsyncOperationBase.cs:246-255 | a completed task exactly when the operation is done; otherwise its completion source, created once |
| Operations.Operations.GetAssets | Assets/Runtime/Provider/AsyncOperationBase.cs:161-175 | null exactly when `DependOps` is null; otherwise the dependencies' assets in order |
| Operations.Operations.GetProgressStatusSet | Assets/Runtime/Provider/AsyncOperationBase.cs:96-110 | adds the operation's status value, and descends into the dependencies only when that value was new |
| Handles.SumOfRemove | Assets/Runtime/AssetOperationHandle.cs:73-80 | the byte sum over the set does not depend on the order the set is enumerated in |
| Handles.ModAdd | Assets/Runtime/AssetOperationHandle.cs:77-78 | adding before or after the `ulong` reduction gives the same result |
| Handles.AddUp | Assets/Runtime/AssetOperationHandle.cs:71-80 | the loop's totals are the `ulong` sums of the valid statuses' completed and total bytes |
| Handles.IsDone | Assets/Runtime/AssetOperationHandle.cs:22 | true without an operation, otherwise the operation's `IsDone` |
| Handles.GetAssets | Assets/Runtime/AssetOperationHandle.cs:29-32 | null without an operation or without `DependOps`; otherwise the dependencies' assets |
| Handles.GetProgressStatus | Assets/Runtime/AssetOperationHandle.cs:66-91 | sums the bytes of the valid statuses reachable from a fresh set, and always returns `IsValid`; throws without an operation |
| Handles.Bumped | Assets/Runtime/AssetOperationHandle.cs:108-122 | every operation keeps its place; only reference counts move |
| Handles.Recount | Assets/Runtime/AssetOperationHandle.cs:108-122 | one walk with its own visited set moves each reachable operation by exactly `delta`, however many paths lead to it |
| Handles.AddRef | Assets/Runtime/AssetOperationHandle.cs:108-114 | every operation the handle reaches gains exactly one reference; no operation, no change |
| Handles.DecRef | Assets/Runtime/AssetOperationHandle.cs:116-122 | every operation the handle reaches loses exactly one reference; no operation, no change |
| Handles.Release | Assets/Runtime/AssetOperationHandle.cs:93-96 | the same effect as `DecRef` |
| Handles.AddRefDecRef | Assets/Runtime/AssetOperationHandle.cs:108-122 | `DecRef` after `AddRef` on the same handle restores every count |
| Handles.BumpedExactly | Assets/Runtime/AssetOperationHandle.cs:108-122 | exactly the operations reachable from the handle's move, each by exactly `delta` |
| Manifest.FindBundle | Assets/Runtime/ResourcePackage.cs:42 | the first record of the name, or none exactly when no record has it |
| Manifest.FindAddress | Assets/Runtime/ResourcePackage.cs:18 | the first address record of the address, or none exactly when no record has it |
| Manifest.AddFirstWins | Assets/Runtime/ResourcesManager.cs:68-78 | bundle registration is first-wins: an old name keeps its record, a new name gets its first record, and no other name appears |
| Registry.AddToList | Assets/Runtime/ResourcesManager.cs:18-23 | the list is created when null and holds `info` afterwards, so the wrap `IsArray`; the single record is untouched |
| Registry.AddToListOnce | Assets/Runtime/ResourcesManager.cs:20-22 | a duplicate-free list stays duplicate-free and gains `info` and nothing else |
| Registry.Stamp | Assets/Runtime/ResourcesManager.cs:82 | every address record carries the manifest's package name, and nothing else changes |
| Registry.NamesRegistered | Assets/Runtime/ResourcesManager.cs:68-73 | every bundle record's name ends up registered |
| Registry.DuplicatesSound | Assets/Runtime/ResourcesManager.cs:74-77 | an error is logged for a name only when some record of it has an MD5 other than the registered one |
| Registry.DuplicatesComplete | Assets/Runtime/ResourcesManager.cs:74-77 | every record whose MD5 differs from the registered record of its name is logged |
| Registry.AddAddressesKeeps | Assets/Runtime/ResourcesManager.cs:84-101 | address registration never replaces a record or drops a key, and label lists only grow |
| Registry.AddLabelsKeeps | Assets/Runtime/ResourcesManager.cs:93-101 | the label loop never replaces a record or drops a key, and label lists only grow |
| Registry.AddAddressesOk | Assets/Runtime/ResourcesManager.cs:80-103 | every key keeps a record or a non-empty, duplicate-free label list |
| Registry.AddLabelsOk | Assets/Runtime/ResourcesManager.cs:93-101 | the label loop keeps every key well-formed |
| Registry.LabelsListed | Assets/Runtime/ResourcesManager.cs:93-101 | every label of every registered record lists that record |
| Registry.LabelListed | Assets/Runtime/ResourcesManager.cs:93-101 | each label of one record lists it |
| Registry.LabelsOnly | Assets/Runtime/ResourcesManager.cs:93-101 | a label list holds only what it held before and records carrying that label |
| Registry.LabelOnly | Assets/Runtime/ResourcesManager.cs:93-101 | one record's label loop adds it only under its own labels |
| Registry.FirstAddressWins | Assets/Runtime/ResourcesManager.cs:84-91 | a fresh key not used as a label holds exactly the first record with that address, if any |
| Registry.LabelsUntouched | Assets/Runtime/ResourcesManager.cs:93-101 | a key that is not one of the labels is left alone |
| Registry.AddAddressesPlain | Assets/Runtime/ResourcesManager.cs:84-101 | a taken key that no new record uses as a label keeps its wrap |
| Registry.AddFirstNamed | Assets/Runtime/ResourcesManager.cs:68-73 | every record stays registered under its own name |
| Registry.MarkOne | Assets/Runtime/Provider/AsyncOperationBase.cs:291-295 | one provider's `Unload` is marking that provider |
| Registry.MarkedExactly | Assets/Runtime/ResourcesManager.cs:320-333 | a marked provider becomes unloadable exactly when it was, or has no references left; nothing else changes |
| Registry.MarkedUnion | Assets/Runtime/ResourcesManager.cs:320-333 | the order of the three unload loops does not matter, and unloading twice is unloading once |
| Registry.Sweep | Assets/Runtime/ResourcesManager.cs:335-340 | the entries whose provider is unloadable are removed, and all others are kept as they were |
| Registry.Prune | Assets/Runtime/ResourcesManager.cs:335-354 | after marking, a table keeps exactly the entries whose provider was not unloadable and still had references |
| Registry.UnloadAll | Assets/Runtime/ResourcesManager.cs:320-323 | the loop over one table marks exactly that table's providers |
| Registry.RegisterBundles | Assets/Runtime/ResourcesManager.cs:68-78 | the bundle loop computes `AddFirst` and logs `Duplicates` |
| Registry.RegisterAddresses | Assets/Runtime/ResourcesManager.cs:80-103 | the address loop stamps each record and registers it under its address and its labels |
| Registry.RegisterLabels | Assets/Runtime/ResourcesManager.cs:93-101 | the label loop adds the record under each of its labels, creating missing keys |
| Registry.ResourcesManager.constructor | Assets/Runtime/ResourcesManager.cs:28-33 | every table starts empty |
| Registry.ResourcesManager.OnPackageLoadCompleted | Assets/Runtime/ResourcesManager.cs:58-110 | with no manifest or a known package, no table changes; otherwise the package is added, the bundles registered first-wins with clashes logged, and the address records stamped and registered |
| Registry.ResourcesManager.GetAddressInfos | Assets/Runtime/ResourcesManager.cs:280-296 | lists `Lookup` of the key |
| Registry.ResourcesManager.GetAddressInfo | Assets/Runtime/ResourcesManager.cs:271-278 | the first record `Lookup` lists, or null exactly when it lists none |
| Registry.ResourcesManager.GetBundleInfo | Assets/Runtime/ResourcesManager.cs:298-302 | the registered record, or null exactly when the name is unregistered |
| Registry.ResourcesManager.GetBundleInfoByAddress | Assets/Runtime/ResourcesManager.cs:304-308 | null for an unknown address; the record's bundle otherwise; throws exactly when that bundle is unregistered |
| Registry.ResourcesManager.GetAssetPackageName | Assets/Runtime/ResourcesManager.cs:247-250 | the package of the first record found, or "" |
| Registry.ResourcesManager.GetDependentAssetBundle | Assets/Runtime/ResourcesManager.cs:252-269 | the walk lists each bundle reachable from the root once, and terminates on cycles |
| Registry.ResourcesManager.DependentBundles | Assets/Runtime/ResourcesManager.cs:220-222 | with the root removed, the list holds exactly the bundles the root reaches, each once |
| Registry.ResourcesManager.InternalCreateBundleProvider | Assets/Runtime/ResourcesManager.cs:236-245 | the registered provider of the bundle, or exactly one new registered provider |
| Registry.ResourcesManager.CreateBundleDependProvider | Assets/Runtime/ResourcesManager.cs:218-234 | one provider per bundle reachable from the bundle, each bundle listed once; existing providers are reused and the provider table only grows |
| Registry.ResourcesManager.DependOnce | Assets/Runtime/ResourcesManager.cs:209-210 | `DependOps` set once stays; otherwise they become the providers of what the bundle reaches |
| Registry.ResourcesManager.CreateBundleProvider | Assets/Runtime/ResourcesManager.cs:204-216 | null for an unknown address; otherwise the bundle's provider, with its dependencies wired once; throws exactly when the bundle is unregistered |
| Registry.ResourcesManager.InternalCreateAssetProviderHandle | Assets/Runtime/ResourcesManager.cs:190-202 | the same address gives the same provider; a new one depends on the bundle provider; a throw registers nothing |
| Registry.ResourcesManager.CreateAssetProviderHandles | Assets/Runtime/ResourcesManager.cs:170-188 | an error line when nothing is found; otherwise the providers of the found records are appended in order |
| Registry.ResourcesManager.AddAssetProviders | Assets/Runtime/ResourcesManager.cs:181-185 | the loop appends each record's provider, and throws exactly when one is blocked |
| Registry.ResourcesManager.CreateAssetHandle | Assets/Runtime/ResourcesManager.cs:137-151 | a handle on the first record's provider, or an empty handle when nothing is found; the provider is created but not started |
| Registry.ResourcesManager.CreateSceneHandle | Assets/Runtime/ResourcesManager.cs:119-135 | the same scene name gives the same provider; a new one depends on the bundle provider of the scene's record; the provider is created but not started |
| Registry.ResourcesManager.Unload | Assets/Runtime/ResourcesManager.cs:318-355 | every provider of the three tables is marked; each table then keeps exactly the providers that were not unloadable and still had references |
| Registry.ResourcesManager.MarkAll | Assets/Runtime/ResourcesManager.cs:320-333 | the three unload loops mark exactly the providers of the three tables |
| Registry.ResourcesManager.SweepAll | Assets/Runtime/ResourcesManager.cs:335-354 | the three sweeps keep exactly the surviving providers |
| ResourcePackages.FirstDetailIsFirst | Assets/Runtime/ResourcePackage.cs:38-48 | the cross-manifest lookup answers from the first manifest holding the name, and finds nothing only when none does |
| ResourcePackages.FirstAddressIsFirst | Assets/Runtime/ResourcePackage.cs:14-24 | the same for address records |
| ResourcePackages.FirstDetailIsRecord | Assets/Runtime/ResourcePackage.cs:38-48 | a record found by name is a record of that name in some manifest |
| ResourcePackages.FindBundleAt | Assets/Runtime/ResourcePackage.cs:42 | a record found in one manifest is one of its records, with that name |
| ResourcePackages.LoadNode | Assets/Runtime/ResourcePackage.cs:67-76 | the walk descends from exactly the bundles some manifest records, into their dependencies that are not loaded |
| ResourcePackages.DependencyIsName | Assets/Runtime/ResourcePackage.cs:74 | a dependency of a found record is one of the manifests' dependency names |
| ResourcePackages.ResourcePackage.GetAddressInfo | Assets/Runtime/ResourcePackage.cs:14-24 | the first address record across the manifests, or null |
| ResourcePackages.ResourcePackage.FindBundleDetail | Assets/Runtime/ResourcePackage.cs:38-48 | the first bundle record across the manifests, or null |
| ResourcePackages.ResourcePackage.GetDependentAssetBundle | Assets/Runtime/ResourcePackage.cs:65-82 | each reachable dependency that is not loaded is listed once, loaded bundles are neither listed nor descended into, and the walk terminates on cycles |
| ResourcePackages.ResourcePackage.LoadAssetBundle | Assets/Runtime/ResourcePackage.cs:50-63 | a loaded bundle changes nothing; otherwise exactly the bundle and what it reaches through unloaded bundles are added, from `TestBuild/{name}`, and loaded ones are kept |
| ResourcePackages.ResourcePackage.GetAssetBundle | Assets/Runtime/ResourcePackage.cs:26-36 | none exactly when no manifest records the name; otherwise the bundle, loaded together with what it reaches |
| Entries.LabelsAfterAdd | Assets/Editor/Settings/AssetAddressEntry.cs:18-26 | a label already present changes nothing; otherwise the list gains exactly that label and is sorted |
| Entries.AddKeepsDistinct | Assets/Editor/Settings/AssetAddressEntry.cs:21-25 | adding keeps the labels duplicate-free |
| Entries.AddIsIdempotent | Assets/Editor/Settings/AssetAddressEntry.cs:21 | adding a label twice is adding it once |
| Entries.RemoveDeletesFromDistinct | Assets/Editor/Settings/AssetAddressEntry.cs:28-31 | removing a label from a duplicate-free list leaves none of it, and no duplicate |
| Entries.AddThenRemoveRestores | Assets/Editor/Settings/AssetAddressEntry.cs:18-31 | removing a label just added gives back the original labels, now sorted |
| Entries.LabelsHeld | Assets/Editor/Settings/AssetAddressEntry.cs:18-36 | what `HasLabel` answers after an edit: an added label is held and nothing else changes; a removed label is no longer held in a duplicate-free list and nothing else changes |
| Entries.AssetAddressEntry.constructor | Assets/Editor/Settings/AssetAddressEntry.cs:9-16 | path, address and guid are "", the labels are empty and the entry is active |
| Entries.AssetAddressEntry.Create | Assets/Editor/Settings/AssetAddressGroupInfo.cs:165-172 | an entry with the given path, address, guid, main type and group name, no labels, active |
| Entries.AssetAddressEntry.HasLabel | Assets/Editor/Settings/AssetAddressEntry.cs:33-36 | the entry holds a label iff it is in its label list (kept and changed as stated by `LabelsHeld`, `Addlabel` and `RemoveLabel`) |
| Entries.AssetAddressEntry.Addlabel | Assets/Editor/Settings/AssetAddressEntry.cs:18-26 | the labels become `LabelsAfterAdd`; afterwards `HasLabel` holds for the label and answers as before for every other |
| Entries.AssetAddressEntry.RemoveLabel | Assets/Editor/Settings/AssetAddressEntry.cs:28-31 | the first occurrence of the label is removed; on duplicate-free labels `HasLabel` then fails for it and answers as before for every other |
| Groups.Repeat | Assets/Editor/Settings/AssetAddressGroupInfo.cs:85-101 | `n` copies of the entry |
| Groups.PushLookup | Assets/Editor/Settings/AssetAddressGroupInfo.cs:85-101 | each key's list grows by one copy of the entry per occurrence of the key among the entry's keys |
| Groups.FirstFiledUnder | Assets/Editor/Settings/AssetAddressGroupInfo.cs:117-130 | the first entry filed under the key, or -1 exactly when none is |
| Groups.IndexMembers | Assets/Editor/Settings/AssetAddressGroupInfo.cs:213-220 | the rebuilt cache lists an entry under a key exactly when it is one of the entries and the key is its address, path, guid or one of its labels |
| Groups.IndexListed | Assets/Editor/Settings/AssetAddressGroupInfo.cs:213-220 | every entry the rebuilt cache lists under a key is filed under it |
| Groups.ListedIndex | Assets/Editor/Settings/AssetAddressGroupInfo.cs:213-220 | every entry filed under a key is listed under it |
| Groups.IndexFirst | Assets/Editor/Settings/AssetAddressGroupInfo.cs:213-220 | the rebuilt cache lists first the first entry filed under the key, and nothing when none is |
| Groups.FirstFiledUnderPrefix | Assets/Editor/Settings/AssetAddressGroupInfo.cs:121-124 | adding one more entry changes the first hit only when there was none |
| Groups.RemoveFromLists | Assets/Editor/Settings/AssetAddressGroupInfo.cs:111-114 | the label loop removes no key |
| Groups.RemoveCache | Assets/Editor/Settings/AssetAddressGroupInfo.cs:103-115 | the address, path and guid keys go entirely, and no other key is removed |
| Groups.FindEntry | Assets/Editor/Settings/AssetAddressGroupInfo.cs:186 | the first entry whose path or address equals the key, or -1 exactly when none does |
| Groups.FindKeyIsFindEntry | Assets/Editor/Settings/AssetAddressGroupInfo.cs:186 | the search over (path, address) pairs finds the same position |
| Groups.InsertByPath | Assets/Editor/Settings/AssetAddressGroupInfo.cs:175 | inserting into a list sorted by path keeps it sorted and adds exactly the entry |
| Groups.SortByPath | Assets/Editor/Settings/AssetAddressGroupInfo.cs:175 | the entries sorted by ordinal path, as a permutation |
| Groups.PushAllIsIndex | Assets/Editor/Settings/AssetAddressGroupInfo.cs:213-220 | adding every entry to an empty cache gives the rebuilt index |
| Groups.AssetAddressGroupInfo.constructor | Assets/Editor/Settings/AssetAddressGroupInfo.cs:15-37 | the field defaults: empty names, folder and guid, no entries, copied to streaming assets and active |
| Groups.AssetAddressGroupInfo.Create | Assets/Editor/Settings/AssetAddressPackage.cs:97-103 | a group with the given package, folder, name and guid and the other defaults |
| Groups.AssetAddressGroupInfo.AddCacheFor | Assets/Editor/Settings/AssetAddressGroupInfo.cs:85-101 | the cache becomes `AddCache` of the entry |
| Groups.AssetAddressGroupInfo.RemoveCacheFor | Assets/Editor/Settings/AssetAddressGroupInfo.cs:103-115 | the cache becomes `RemoveCache` of the entry |
| Groups.AssetAddressGroupInfo.FillCache | Assets/Editor/Settings/AssetAddressGroupInfo.cs:121-124 | every entry is added to the cache in list order |
| Groups.AssetAddressGroupInfo.GenerateCache | Assets/Editor/Settings/AssetAddressGroupInfo.cs:213-220 | the cache is rebuilt from the entries alone |
| Groups.AssetAddressGroupInfo.GetAssetInfo | Assets/Editor/Settings/AssetAddressGroupInfo.cs:117-130 | rebuilds an empty cache, then returns the first entry filed under the key, or null |
| Groups.AssetAddressGroupInfo.GetAssetInfos | Assets/Editor/Settings/AssetAddressGroupInfo.cs:132-145 | rebuilds an empty cache, then returns the whole list under the key, or null |
| Groups.AssetAddressGroupInfo.AddAssetEntry | Assets/Editor/Settings/AssetAddressGroupInfo.cs:147-182 | null for a non-matching or empty path; the first entry filed under the path if any, appending nothing; otherwise a new entry whose address defaults to the path, filed in the cache, with the entries re-sorted by path |
| Groups.AssetAddressGroupInfo.NewEntry | Assets/Editor/Settings/AssetAddressGroupInfo.cs:165-175 | a fresh entry with the path, address, guid, main type and group name, added to the cache and to the sorted entries |
| Groups.AssetAddressGroupInfo.InsertEntry | Assets/Editor/Settings/AssetAddressGroupInfo.cs:173-175 | the entry is filed in the cache and the entries are re-sorted with it |
| Groups.AssetAddressGroupInfo.RemoveEntry | Assets/Editor/Settings/AssetAddressGroupInfo.cs:184-196 | removes the first entry whose path or address is the key and reports whether there was one; its address, path and guid keys go, and it leaves its label lists |
| Groups.AssetAddressGroupInfo.HasAssetInfo | Assets/Editor/Settings/AssetAddressGroupInfo.cs:198-201 | true exactly when something is filed under the key |
| Groups.AssetAddressGroupInfo.IsAssetMatch | Assets/Editor/Settings/AssetAddressGroupInfo.cs:208-211 | a group matches an asset path iff the path starts with the group's folder path, ordinally (equivalently, by `MatchIsContinuation`, iff the path continues the folder path) |
| Groups.AssetAddressGroupInfo.MatchIsContinuation | Assets/Editor/Settings/AssetAddressGroupInfo.cs:208-211 | `IsAssetMatch` holds exactly for the paths that continue the folder path |
| Packages.ReplaceOnce | Assets/Editor/Settings/AssetAddressPackage.cs:71-78 | "" for an empty string; the string itself when the pattern is absent; otherwise what follows the first occurrence, so always a suffix of the input, shorter by the pattern and everything before it |
| Packages.ReplaceFirst | Assets/Editor/Settings/AssetAddressPackage.cs:71-78 | reference definition: replacing the first occurrence keeps the text before it and changes the length by the difference of the two strings |
| Packages.ReplaceOnceDropsPrefix | Assets/Editor/Settings/AssetAddressPackage.cs:71-78 | the text before the first occurrence plus `ReplaceOnce` is the first occurrence removed; the two agree exactly when the string starts with the pattern |
| Packages.DefaultGroupName | Assets/Editor/Settings/AssetAddressPackage.cs:88-92 | the default group name derived from a folder path holds no `/` and no `\` |
| Packages.FlatPath | Assets/Editor/Settings/AssetAddressPackage.cs:90 | turning separators into `_` leaves no `/` and no `\` |
| Packages.SuffixKeepsAbsence | Assets/Editor/Settings/AssetAddressPackage.cs:90-91 | a suffix of a separator-free string is separator-free, so both `ReplaceOnce` steps keep the name flat |
| Packages.LastNamed | Assets/Editor/Settings/AssetAddressPackage.cs:58-62 | the last group whose folder path or name is the key, and no later one has it |
| Packages.RefillLookup | Assets/Editor/Settings/AssetAddressPackage.cs:54-67 | after refilling the cache, a key is present iff it was cached or some group has it as folder path or name; then it maps to the last such group, otherwise the old entry is kept |
| Packages.RefillValues | Assets/Editor/Settings/AssetAddressPackage.cs:58-62 | every cached group after a refill was cached before or is one of the package's groups |
| Packages.LastMatch | Assets/Editor/Settings/AssetAddressPackage.cs:118 | `FindLast`: the last group whose folder path prefixes the path, and no later group's does |
| Packages.FindFolder | Assets/Editor/Settings/AssetAddressPackage.cs:123 | `Find`: the first group with exactly that folder path, and no earlier group has it |
| Packages.InsertByFolder | Assets/Editor/Settings/AssetAddressPackage.cs:103-104 | inserting into a list sorted by folder path keeps it sorted and adds exactly that group |
| Packages.SortByFolder | Assets/Editor/Settings/AssetAddressPackage.cs:104 | the ordinal sort by folder path yields a sorted permutation of the groups |
| Packages.SortedByFolderPairs | Assets/Editor/Settings/AssetAddressPackage.cs:104 | in the sorted list every earlier folder path is ordinally at most every later one |
| Packages.MatchIsLongest | Assets/Editor/Settings/AssetAddressPackage.cs:116-119 | in the sorted list the last matching group comes no earlier than any matching group and has the longest folder path, so it is the innermost folder |
| Packages.FirstHit | Assets/Editor/Settings/AssetAddressPackage.cs:130-137 | the first cache that holds the key, and none before it does |
| Packages.FirstHitIn | Assets/Editor/Settings/AssetAddressPackage.cs:130-137 | the first group whose (rebuilt) cache holds the key, and no earlier group's does |
| Packages.FirstHitInViews | Assets/Editor/Settings/AssetAddressPackage.cs:130-137 | the first group hit is the first hit among the groups' cache views |
| Packages.HitIn | Assets/Editor/Settings/AssetAddressPackage.cs:130-139 | none iff no cache holds the key; otherwise the first entry of a cache that holds it |
| Packages.HitInAppend | Assets/Editor/Settings/AssetAddressPackage.cs:130-139 | searching a concatenation searches the first part and falls back to the second only on a miss |
| Packages.AllUnderStartsWithFirstHit | Assets/Editor/Settings/AssetAddressPackage.cs:128-156 | the concatenated hits are empty iff no group holds the key, and their head is the entry `GetAssetInfo` returns |
| Packages.FirstHolder | Assets/Editor/Settings/AssetAddressPackage.cs:174-183 | the first group whose entry list holds the path, and no earlier group does; the `||` short circuit stops there |
| Packages.FirstKeyHolder | Assets/Editor/Settings/AssetAddressPackage.cs:174-183 | the first key list holding the path, and none before it |
| Packages.KeyHolderIsFirstHolder | Assets/Editor/Settings/AssetAddressPackage.cs:174-183 | the first holder among the groups is the first holder among their key snapshots |
| Packages.RemovalPlan | Assets/Editor/Settings/AssetAddressPackage.cs:174-183 | snapshots of every group's entries, cache and keys agree with the groups, and name the group and index `RemoveAssetInfo` removes |
| Packages.RemoveFirstHolder | Assets/Editor/Settings/AssetAddressPackage.cs:174-183 | the removal loop: true iff some group holds the path; only the first holder loses that entry and its cache records, every other group is unchanged |
| Packages.RemoveAt | Assets/Editor/Settings/AssetAddressPackage.cs:178 | one iteration: the group loses the entry iff it holds the path, and the other groups are untouched |
| Packages.AssetAddressPackage.constructor | Assets/Editor/Settings/AssetAddressPackage.cs:50-52 | a package starts with no groups and an empty group cache |
| Packages.AssetAddressPackage.GetGroup | Assets/Editor/Settings/AssetAddressPackage.cs:54-114 | a cache miss refills the cache from every group; the result is the cached group for the key, or none |
| Packages.AssetAddressPackage.GetMatchGroup | Assets/Editor/Settings/AssetAddressPackage.cs:116-119 | the last group in list order whose folder path prefixes the path, or none when no group's does |
| Packages.AssetAddressPackage.AddGroup | Assets/Editor/Settings/AssetAddressPackage.cs:80-109 | no group and no change for a missing directory; otherwise the cached group for the folder, or a fresh active group with the default name, the directory's GUID and no entries, inserted keeping the groups sorted by folder path |
| Packages.AssetAddressPackage.CreateGroup | Assets/Editor/Settings/AssetAddressPackage.cs:97-105 | the new group carries the folder, name, package and GUID, is empty, and the groups become the sorted list with it added |
| Packages.AssetAddressPackage.AppendGroup | Assets/Editor/Settings/AssetAddressPackage.cs:103-104 | the groups become the sorted list with the new group added, still duplicate-free |
| Packages.AssetAddressPackage.RemoveGroup | Assets/Editor/Settings/AssetAddressPackage.cs:121-126 | a missing folder throws and changes nothing; otherwise the first group with that folder leaves the list and its folder leaves the cache |
| Packages.AssetAddressPackage.GetAssetInfo | Assets/Editor/Settings/AssetAddressPackage.cs:128-140 | the first entry of the first group whose cache holds the path, or none; exactly the groups consulted have their caches built |
| Packages.AssetAddressPackage.Consult | Assets/Editor/Settings/AssetAddressPackage.cs:130-137 | the search loop finds what `HitIn` finds over the groups' cache views, and only builds caches |
| Packages.AssetAddressPackage.Probe | Assets/Editor/Settings/AssetAddressPackage.cs:132 | asking one group builds its cache and gives its first entry for the path; no other group changes |
| Packages.AssetAddressPackage.GetAssetInfos | Assets/Editor/Settings/AssetAddressPackage.cs:142-156 | none when no group holds the path, otherwise every group's entries for it in group order; every cache gets built |
| Packages.AssetAddressPackage.AddAssetInfo | Assets/Editor/Settings/AssetAddressPackage.cs:158-172 | with separators normalised, an empty path or one under no group adds nothing and gives none; otherwise the last (innermost) matching group adds or returns the entry as its `AddAssetEntry` does, and no other group changes |
| Packages.OfferAt | Assets/Editor/Settings/AssetAddressPackage.cs:163 | the one group asked behaves as its `AddAssetEntry`; the others are untouched |
| Packages.OfferFromLast | Assets/Editor/Settings/AssetAddressPackage.cs:161-168 | the groups are asked from last to first: nothing changes when the path is empty or no group matches; otherwise only the last matching group takes the path, as its `AddAssetEntry` does |
| Packages.AssetAddressPackage.RemoveAssetInfo | Assets/Editor/Settings/AssetAddressPackage.cs:174-183 | true iff some group holds the path; the first holder loses the first such entry and its cache records, every other group is unchanged |
| Packages.AssetAddressPackage.HasAssetInfo | Assets/Editor/Settings/AssetAddressPackage.cs:185-188 | true iff some group's cache holds the path, with the same cache side effects as `GetAssetInfo` |
| Packages.AssetAddressPackage.GenerateCache | Assets/Editor/Settings/AssetAddressPackage.cs:190-198 | every cached group rebuilds its entry index from its entries, and the group cache is emptied |
| Settings.CalcAddress | Assets/Editor/Settings/AssetAddressDefaultSettings.cs:87-90 | the default address holds no path separator and is the file name with its extension (or a trailing dot) cut off |
| Settings.AssetAddressDefaultSettings.GetEntry | Assets/Editor/Settings/AssetAddressDefaultSettings.cs:275-286 | the packages are asked in order and the answer is the first entry filed under the address in the first group (of the first package) that has one; no lookup changes what any cache shows, and each cache is left as it was or rebuilt from its entries |
| Settings.AssetAddressDefaultSettings.FirstAnswer | Assets/Editor/Settings/AssetAddressDefaultSettings.cs:278-283 | the loop with its `break` finds exactly the first hit over all groups' cache views |
| Settings.AssetAddressDefaultSettings.Ask | Assets/Editor/Settings/AssetAddressDefaultSettings.cs:280-282 | one package asked after a miss in all earlier ones extends the search to the end of its groups |
| Settings.AssetAddressDefaultSettings.Consult | Assets/Editor/Settings/AssetAddressDefaultSettings.cs:280 | a package's own lookup answers the first hit among its groups' views |
| Settings.HitInCached | Assets/Editor/Settings/AssetAddressDefaultSettings.cs:275-286 | a lookup answer is always an entry filed in one of the caches |
| Settings.AssetAddressDefaultSettings.ChangeAssetAddress | Assets/Editor/Settings/AssetAddressDefaultSettings.cs:432-446 | equal addresses change nothing; a new address already answered is refused; a missing old address is the null dereference; otherwise exactly the entry `GetEntry(oldAddress)` finds takes the new address and no other cached entry's address changes; each group's cache is left as it was or rebuilt from its entries |
| Settings.AssetAddressDefaultSettings.RemoveEntry | Assets/Editor/Settings/AssetAddressDefaultSettings.cs:298-307 | true iff some package holds the path or address; the short circuit means only the first holder group of the first such package loses its first matching entry and cache records, every other group is unchanged |
| Settings.Holders | Assets/Editor/Settings/AssetAddressDefaultSettings.cs:301-304 | each package's first holding group, in package order |
| Settings.FirstNonNeg | Assets/Editor/Settings/AssetAddressDefaultSettings.cs:301-304 | the first package that removes anything, and none before it does |
| Settings.DropFirst | Assets/Editor/Settings/AssetAddressDefaultSettings.cs:300-306 | the `remove ||` loop: removes in the first holding package only and reports whether it did; all other groups keep their entries and caches |
| Settings.Drop | Assets/Editor/Settings/AssetAddressDefaultSettings.cs:303 | `RemoveAssetInfo` of one package as a step: only its first holder changes, as `RemoveAssetInfo` promises |
| Settings.DropAt | Assets/Editor/Settings/AssetAddressDefaultSettings.cs:303 | the same step stated on the snapshots of every group's entries and cache |
| Settings.AssetAddressDefaultSettings.RemoveGroup | Assets/Editor/Settings/AssetAddressDefaultSettings.cs:333-349 | each package loses the group picked by `GroupsWithout` and its folder key from the lookup; the packages stay valid |
| Settings.CacheWithout | Assets/Editor/Settings/AssetAddressDefaultSettings.cs:346 | the group lookup loses only the picked group's folder-path key, and nothing when no group is named by the value |
| Settings.WithoutFinds | Assets/Editor/Settings/AssetAddressDefaultSettings.cs:340-346 | the picked group's folder path is always found, at or before the picked position, so the package's removal never faults |
| Settings.WithoutDropsOne | Assets/Editor/Settings/AssetAddressDefaultSettings.cs:333-349 | a package is unchanged iff no group is named by the value; otherwise exactly one group goes and no group is added |
| Settings.WithoutDistinctFolders | Assets/Editor/Settings/AssetAddressDefaultSettings.cs:338-346 | with distinct folder paths the group removed is exactly the last one whose folder path or name is the value |
| Settings.FindDistinctFolder | Assets/Editor/Settings/AssetAddressPackage.cs:123 | with distinct folder paths a group's folder path finds that same group |
| Settings.WithoutAll | Assets/Editor/Settings/AssetAddressDefaultSettings.cs:336-348 | each package's groups and lookup after the removal, package by package |
| Settings.RemoveNamedAll | Assets/Editor/Settings/AssetAddressDefaultSettings.cs:336-348 | the loop over the packages leaves each package with exactly its `Without` state |
| Settings.RemoveNamed | Assets/Editor/Settings/AssetAddressDefaultSettings.cs:338-347 | one package's turn: the last named group is picked and removed by folder path |
| Settings.AssetAddressDefaultSettings.AddLabel | Assets/Editor/Settings/AssetAddressDefaultSettings.cs:351-358 | an empty or known label changes nothing; a new one is added and the list sorted; the label is then listed and the list stays duplicate-free |
| Settings.AssetAddressDefaultSettings.RemoveLabel | Assets/Editor/Settings/AssetAddressDefaultSettings.cs:360-373 | the settings lose the first occurrence of the label, and every entry of every group of every package loses it and no longer holds it |
| Settings.StripOne | Assets/Editor/Settings/AssetAddressDefaultSettings.cs:369 | one entry loses the label once, however often it is visited |
| Settings.StripEntries | Assets/Editor/Settings/AssetAddressDefaultSettings.cs:367-370 | the inner loop strips every entry of the group |
| Settings.StripGroups | Assets/Editor/Settings/AssetAddressDefaultSettings.cs:365-371 | the middle loop strips every entry of every group of the package |
| Settings.StripPackages | Assets/Editor/Settings/AssetAddressDefaultSettings.cs:363-372 | the outer loop strips every entry of every package |
| Settings.RepeatsAt | Assets/Editor/Settings/AssetAddressDefaultSettings.cs:213-242 | exactly the positions whose key occurred earlier, in increasing order |
| Settings.NoRepeatsIffDistinct | Assets/Editor/Settings/AssetAddressDefaultSettings.cs:213-242 | nothing is reported iff no key occurs twice |
| Settings.ReportRepeats | Assets/Editor/Settings/AssetAddressDefaultSettings.cs:213-224 | the seen-list scan reports exactly the repeated positions |
| Settings.VisitsEveryPath | Assets/Editor/Settings/AssetAddressDefaultSettings.cs:228-241 | the entry check visits every asset path of the package as often as the package lists it |
| Settings.GroupVisitsPaths | Assets/Editor/Settings/AssetAddressDefaultSettings.cs:230-232 | walking a group's entries from last to first visits the same paths |
| Settings.PackageLogsQuiet | Assets/Editor/Settings/AssetAddressDefaultSettings.cs:212-242 | a package's checks log nothing iff its group names are distinct and no asset path is listed twice in it |
| Settings.PackageLogsTwice | Assets/Editor/Settings/AssetAddressDefaultSettings.cs:212-242 | every report names a group name or (with the package) an asset path that occurs at least twice |
| Settings.GroupLogsTwice | Assets/Editor/Settings/AssetAddressDefaultSettings.cs:216-219 | every group report names a group name occurring twice |
| Settings.EntryLogsTwice | Assets/Editor/Settings/AssetAddressDefaultSettings.cs:233-240 | every entry report carries the package name and a path occurring twice |
| Settings.TwiceIn | Assets/Editor/Settings/AssetAddressDefaultSettings.cs:216-233 | a key seen before occurs at least twice |
| Settings.CheckPackage | Assets/Editor/Settings/AssetAddressDefaultSettings.cs:212-242 | the two duplicate checks log exactly the package's reports, and remove nothing |
| Settings.Paint | Assets/Editor/Settings/AssetAddressDefaultSettings.cs:248-251 | writing a name to every element of a list: each of them shows it, every other element keeps its name |
| Settings.StampAll | Assets/Editor/Settings/AssetAddressDefaultSettings.cs:244-252 | writing names list after list keeps every named element and names every listed one |
| Settings.StampLast | Assets/Editor/Settings/AssetAddressDefaultSettings.cs:244-252 | an element ends with the name of the last list holding it |
| Settings.StampKeeps | Assets/Editor/Settings/AssetAddressDefaultSettings.cs:244-252 | an element no list holds keeps its name |
| Settings.StampAppend | Assets/Editor/Settings/AssetAddressDefaultSettings.cs:244-252 | writing two runs of lists is writing the first, then the second |
| Settings.StampEntries | Assets/Editor/Settings/AssetAddressDefaultSettings.cs:248-251 | every entry of the group takes the group's name |
| Settings.StampGroup | Assets/Editor/Settings/AssetAddressDefaultSettings.cs:246-251 | the group takes the package name and each of its entries the group name |
| Settings.StampGroups | Assets/Editor/Settings/AssetAddressDefaultSettings.cs:244-252 | every group of the package takes its name and every entry its group's name; what the groups do not reach keeps its names |
| Settings.FixPackage | Assets/Editor/Settings/AssetAddressDefaultSettings.cs:212-252 | one package: the logs are exactly its duplicate reports, then groups and entries are stamped |
| Settings.FixAt | Assets/Editor/Settings/AssetAddressDefaultSettings.cs:160-253 | one iteration extends the logs by that package's reports and the stamping by its groups |
| Settings.FixPackages | Assets/Editor/Settings/AssetAddressDefaultSettings.cs:160-253 | `Fix`'s checks and stamping over all packages: the logs are every package's reports in order, each group ends with the name of the last package listing it and each entry with the name of the last group listing it |
| Settings.StampGridFlat | Assets/Editor/Settings/AssetAddressDefaultSettings.cs:244-252 | stamping package after package is stamping all their groups in order |
| Settings.FixLogsQuiet | Assets/Editor/Settings/AssetAddressDefaultSettings.cs:212-242 | `Fix` logs nothing iff no package repeats a group name or an asset path |
| AssetUtilityEditor.Normalize | Assets/Editor/Other/AssetUtilityEditor.cs:65 | same length; both separators become the platform separator and every other character is kept |
| AssetUtilityEditor.IsValidAssetPath | Assets/Editor/Other/AssetUtilityEditor.cs:61-78 | a path may be bundled iff it is non-empty and, once normalised, lies under `Assets` or in a package, is not an engine resource, not in an `Editor` folder, not `Assets` itself and has no excluded extension (used by `ValidAssetPathFromParts`, `EditorFolderInvalid`, `ExcludedExtensionInvalid`) |
| AssetUtilityEditor.GetDependencies | Assets/Editor/Other/AssetUtilityEditor.cs:21-29 | the result is sorted ordinally, holds only valid paths, and is a permutation of the engine's dependency list filtered by `IsValidAssetPath` |
| AssetUtilityEditor.GetDependenciesOf | Assets/Editor/Other/AssetUtilityEditor.cs:16-34 | the single-path overload ignores its flag: it is the recursive expansion of the one path |
| AssetUtilityEditor.GetDependenciesKeepsExactlyValid | Assets/Editor/Other/AssetUtilityEditor.cs:21-24 | a path is in the result iff it is a dependency and valid |
| AssetUtilityEditor.ValidityIgnoresSeparatorStyle | Assets/Editor/Other/AssetUtilityEditor.cs:65 | validity is the same whether the caller writes `\` or `/` |
| AssetUtilityEditor.NormalizeKeepsOccurrence | Assets/Editor/Other/AssetUtilityEditor.cs:65-73 | normalising keeps an occurrence of a substring, as the normalised substring, at the same place |
| AssetUtilityEditor.ContainsAt | Assets/Editor/Other/AssetUtilityEditor.cs:72-73 | an occurrence means `Contains` holds |
| AssetUtilityEditor.EditorFolderInvalid | Assets/Editor/Other/AssetUtilityEditor.cs:72-74 | any path ending in an `Editor` folder or passing through one, with either separator on either side, is invalid |
| AssetUtilityEditor.InsideEditorFolder | Assets/Editor/Other/AssetUtilityEditor.cs:72 | a path through an `Editor` folder, with any separators, passes through one after normalising |
| AssetUtilityEditor.NamedEditorFolder | Assets/Editor/Other/AssetUtilityEditor.cs:72 | a path ending in an `Editor` folder, with any separator, still ends so after normalising |
| AssetUtilityEditor.NormalizeWithoutSeparators | Assets/Editor/Other/AssetUtilityEditor.cs:65 | a string without separators is left as it is |
| AssetUtilityEditor.AbsentCharNotContained | Assets/Editor/Other/AssetUtilityEditor.cs:72-73 | a string missing a character of the pattern cannot contain it |
| AssetUtilityEditor.AssetsRootIsCaseSensitive | Assets/Editor/Other/AssetUtilityEditor.cs:66-76 | exactly `Assets` is invalid while lower-case `assets` passes |
| AssetUtilityEditor.LowerAssetsValid | Assets/Editor/Other/AssetUtilityEditor.cs:61-78 | `assets` passes every test |
| AssetUtilityEditor.LowerAssetsNotEditor | Assets/Editor/Other/AssetUtilityEditor.cs:72-73 | `assets` is not an `Editor` folder |
| AssetUtilityEditor.ValidAssetPathFromParts | Assets/Editor/Other/AssetUtilityEditor.cs:61-78 | a non-empty path whose normalised form passes the root, engine-path, `Editor`, `Assets` and extension tests is valid |
| AssetUtilityEditor.IsPathValidPackageAsset | Assets/Editor/Other/AssetUtilityEditor.cs:80-86 | a path is inside a package iff its lower-cased components number at least three, the first is `packages` and the third is not `package.json` (case-blind by `PackageAssetIgnoresCase`) |
| AssetUtilityEditor.PackageAssetIgnoresCase | Assets/Editor/Other/AssetUtilityEditor.cs:80-86 | the package test lower-cases the path first, so it answers alike for any spelling of `Packages` |
| AssetUtilityEditor.ExcludedExtensionShape | Assets/Editor/Other/AssetUtilityEditor.cs:14 | every excluded extension is a dot followed by lower-case letters |
| AssetUtilityEditor.ExcludedExtensionInvalid | Assets/Editor/Other/AssetUtilityEditor.cs:61-78 | a path ending in an excluded extension, exactly as written, is invalid |
| Downloads.TempPathDiffers | Assets/Runtime/Services/DownloadServices.cs:98 | the temporary path is the local path with `.temp` appended, and never the local path itself |
| Downloads.RangeHeaderRoundTrip | Assets/Runtime/Services/DownloadServices.cs:198-211 | a resumed request's header is `bytes={offset}-`, and reading its digits gives the offset back; no header at offset 0 |
| Downloads.FirstPending | Assets/Runtime/Services/DownloadServices.cs:160 | `Find(Status == Pending)`: the least pending position, or -1 exactly when no task is pending |
| Downloads.Dispatched | Assets/Runtime/Services/DownloadServices.cs:158-168 | the inner loop's statuses keep the list length and change only `Pending` entries to `Processing` |
| Downloads.DispatchedCount | Assets/Runtime/Services/DownloadServices.cs:158-168 | with room for `n`, exactly `min(n, pending)` tasks start |
| Downloads.DispatchedOnlyStarts | Assets/Runtime/Services/DownloadServices.cs:158-168 | a status that changes was `Pending` and becomes `Processing`; all others are untouched |
| Downloads.DispatchedInOrder | Assets/Runtime/Services/DownloadServices.cs:158-168 | tasks start in list order: every pending task before a started one starts too |
| Downloads.DispatchedNone | Assets/Runtime/Services/DownloadServices.cs:158-164 | with no pending task or no room, no status changes |
| Downloads.Kept | Assets/Runtime/Services/DownloadServices.cs:172-180 | the sweep never lengthens the list |
| Downloads.KeptMembers | Assets/Runtime/Services/DownloadServices.cs:172-180 | every kept task was in the list, and every unfinished task is kept |
| Downloads.KeptDropsFinished | Assets/Runtime/Services/DownloadServices.cs:172-180 | exactly the finished tasks are removed, and the removals equal the number of finished tasks |
| Downloads.KeptDistinct | Assets/Runtime/Services/DownloadServices.cs:172-180 | the sweep keeps the (url, localPath) keys distinct |
| Downloads.Unfinished | Assets/Runtime/Services/DownloadServices.cs:172-180 | the backward `RemoveAt` loop leaves exactly the unfinished tasks in order, and counts the finished ones |
| Downloads.RunsCount | Assets/Runtime/Services/DownloadServices.cs:50-51 | a task that always fails validation runs `MaxRetry - Retry` more times, counting by `Runs`, which each `DelayAndRetry` lowers by one; with the default 5, five runs in all |
| Downloads.VerdictMeaning | Assets/Runtime/Services/DownloadServices.cs:321-363 | a file passes exactly when its size matches a known total and every non-empty CRC32 and MD5 matches; a missing file with a known total throws |
| Downloads.DeletesOnlyFailing | Assets/Runtime/Services/DownloadServices.cs:326-359 | the temp file is deleted only by a failing verdict; a shorter file is kept so the next try resumes it |
| Downloads.PolicyFailures | Assets/Runtime/Services/DownloadServices.cs:259-287 | a failed request is validated like a successful one unless its code is 200, 404 or 503 |
| Downloads.ResumedCap | Assets/Runtime/Services/DownloadServices.cs:156-180 | a loop turn never starts tasks beyond the cap, and the running count only grows after the sweep |
| Downloads.FindTask | Assets/Runtime/Services/DownloadServices.cs:127 | the position of the task with the (url, localPath) key, or -1 exactly when none has it |
| Downloads.DownloadTask.constructor | Assets/Runtime/Services/DownloadServices.cs:43-58 | a new task is pending, with no request, zero bytes, `MaxRetry` 5, `Retry` 0 and no handlers |
| Downloads.DownloadTask.Subscribe | Assets/Runtime/Services/DownloadServices.cs:60-68 | a finished task invokes the handler at once without queueing it; any other task queues it; null is ignored; nothing but the handler list and the invocations changes |
| Downloads.DownloadTask.Unsubscribe | Assets/Runtime/Services/DownloadServices.cs:69 | removes the handler's last registration, invoking nothing; only the handler list changes |
| Downloads.DownloadTask.Abort | Assets/Runtime/Services/DownloadServices.cs:77-81 | the request, if any, is marked aborted and the task is `Finish` without invoking handlers; only the request and status change |
| Downloads.DownloadTask.SetTotalBytes | Assets/Runtime/Services/DownloadServices.cs:83-86 | stores the size as a `ulong`; no other field changes |
| Downloads.DownloadTask.SetMD5 | Assets/Runtime/Services/DownloadServices.cs:88-91 | stores the MD5; no other field changes |
| Downloads.DownloadTask.SetCrc32 | Assets/Runtime/Services/DownloadServices.cs:93-96 | stores the CRC32; no other field changes |
| Downloads.DownloadTask.WaitCompleted | Assets/Runtime/Services/DownloadServices.cs:100-104 | the completion source is created once and the answer is whether it has completed; one first created after completion never completes; only the source changes |
| Downloads.DownloadTask.SetCompleted | Assets/Runtime/Services/DownloadServices.cs:106-111 | the task becomes `Finish`, every queued handler is invoked in order and kept, and an existing source completes; the request, offsets, retries and success flag are untouched |
| Downloads.DownloadServices.constructor | Assets/Runtime/Services/DownloadServices.cs:120-123 | no tasks, nothing running, a cap of 3 |
| Downloads.DownloadServices.DownloadFile | Assets/Runtime/Services/DownloadServices.cs:125-143 | returns the existing task of an equal (url, localPath) pair, otherwise appends exactly one new pending task with the initial fields (`Unstarted`); `joined` is the list's progress at that point; then `RanTask` from its statuses: when no loop starts nothing else changes, otherwise the free slots go to the pending tasks in list order (`Dispatched`) and the count rises by the number started; every task either keeps its status, request and offsets or was pending and is launched with its own `Range` request (`StartedFrom`) |
| Downloads.DownloadServices.TaskFor | Assets/Runtime/Services/DownloadServices.cs:127-138 | the task of an equal (url, localPath) pair, with the list unchanged; otherwise a fresh task, `Unstarted` and pending with no request or offsets, appended as the only change to the list; the keys stay distinct |
| Downloads.DownloadServices.RunTask | Assets/Runtime/Services/DownloadServices.cs:145-170 | `RanTask`: returns at once while running with some non-pending task; otherwise runs, stops on an empty list, and starts `Dispatched` tasks up to the cap; each started task gets the request and offsets `ExecTask` gives it and every other task keeps them (`StartedFrom`) |
| Downloads.DownloadServices.AllPending | Assets/Runtime/Services/DownloadServices.cs:149 | true exactly when every task is `Pending` |
| Downloads.DownloadServices.FindPending | Assets/Runtime/Services/DownloadServices.cs:160 | the first pending position, the same as `FirstPending` |
| Downloads.DownloadServices.Dispatch | Assets/Runtime/Services/DownloadServices.cs:158-168 | the statuses become `Dispatched` with the room under the cap, the count grows by the tasks started, and each started task is launched while all others keep their progress (`StartedFrom`) |
| Downloads.DownloadServices.StartPending | Assets/Runtime/Services/DownloadServices.cs:158-168 | as `Dispatch`, on a given task list, count and cap |
| Downloads.DispatchedFromMeaning | Assets/Runtime/Services/DownloadServices.cs:158-168 | starting the first pending task `n` times over progress records changes the statuses exactly as `Dispatched` does, and leaves every task with its old progress or, if it was pending, with its launch (`StartedFrom`) |
| Downloads.StartedFromTrans | Assets/Runtime/Services/DownloadServices.cs:158-168 | two rounds of starts in a row are one round: a task launched in either keeps that launch |
| Downloads.DownloadServices.StartNext | Assets/Runtime/Services/DownloadServices.cs:160-166 | one turn of the inner loop: when a task is pending, the first one is launched, one fewer task is pending and the remaining `DispatchedFrom` needs one start less; otherwise nothing changes and nothing is pending |
| Downloads.DownloadServices.ExecTask | Assets/Runtime/Services/DownloadServices.cs:186-215 | a finished task is left alone; any other is `Launched`: a request with the resume offset's `Range` header, zero downloaded bytes and `Processing`; no field outside the request, offsets and status changes |
| Downloads.DownloadServices.Frame | Assets/Runtime/Services/DownloadServices.cs:170-183 | after a frame the finished tasks are removed, each lowering the count; an empty list stops the loop, otherwise pending tasks start again up to the cap (`Resumed`); every task of the old list keeps its progress or was pending and is launched (`LaunchedOrKept`) |
| Downloads.DownloadServices.Sweep | Assets/Runtime/Services/DownloadServices.cs:172-180 | the list becomes `Kept` and the count drops by the number of finished tasks |
| Downloads.DownloadServices.Continue | Assets/Runtime/Services/DownloadServices.cs:156-183 | an empty list stops the loop; otherwise pending tasks start again up to the cap, each launched while the others keep their progress (`StartedFrom`) |
| Downloads.DownloadServices.Poll | Assets/Runtime/Services/DownloadServices.cs:291-306 | the total is set only while it is 0 and the Content-Length is positive, to offset plus length; the downloaded bytes become offset plus received when received > 0; `ulong` sums wrap; the status, offset and request stay |
| Downloads.DownloadServices.ValidFile | Assets/Runtime/Services/DownloadServices.cs:321-363 | returns `Verdict` of the temp file, and deletes it exactly when `DeletesTemp` holds |
| Downloads.DownloadServices.Accept | Assets/Runtime/Services/DownloadServices.cs:244-247 | the temp file replaces the local file and the task completes with `Success`, its handlers invoked and an existing source completed; a missing temp file throws after the local file is deleted, leaving the task unchanged |
| Downloads.DownloadServices.DelayAndRetry | Assets/Runtime/Services/DownloadServices.cs:308-319 | counts the try; while `Retry < MaxRetry` the task waits for its delay with its source untouched, otherwise it completes unsuccessfully, invoking its handlers and completing an existing source; each call uses up one of the task's `Runs` and the task runs again exactly when more than one was left |
| Downloads.DownloadServices.Resume | Assets/Runtime/Services/DownloadServices.cs:312-313 | after the delay the task executes again: an unfinished task is `Launched`, a finished one keeps its request and offsets |
| Downloads.DownloadServices.Complete | Assets/Runtime/Services/DownloadServices.cs:242-252 | a throwing `Verdict` (missing file with a known size) changes neither files nor task; a failing one is retried, and the temp file is deleted exactly when `DeletesTemp` holds; a passing one is moved into place and the task succeeds, or, if the temp file is missing, the local file is deleted and the move throws |
| Downloads.DownloadServices.OnRequestDone | Assets/Runtime/Services/DownloadServices.cs:231-289 | releases the request; code 200 grants one more try and retries and 503 lowers the cap by one, never below 2, and retries, both leaving the files alone; 404 deletes the temp file and completes unsuccessfully; any other outcome validates with the files and task changing as in `Complete` |
| Downloads.DownloadServices.AbortAll | Assets/Runtime/Services/DownloadServices.cs:370-376 | every task's request, if any, is marked aborted, every task is `Finish` and no handler runs |
| Placeholders.FindIsIndexOf | Assets/Runtime/Misc/StringPlaceholderUtil.cs:50-53 | the brace search is the ordinal `IndexOf` from the given position: the first occurrence, or -1 when there is none |
| Placeholders.NoBraceUnchanged | Assets/Runtime/Misc/StringPlaceholderUtil.cs:50-76 | a string without `{` comes back unchanged |
| Placeholders.KnownKeyReplaced | Assets/Runtime/Misc/StringPlaceholderUtil.cs:57-68 | a `{key}` with a known key becomes its value, which is not scanned again; scanning resumes after the `}` |
| Placeholders.UnknownKeyKept | Assets/Runtime/Misc/StringPlaceholderUtil.cs:63-66 | a `{key}` with an unknown key is kept verbatim, braces included |
| Placeholders.Placeholder | Assets/Runtime/Misc/StringPlaceholderUtil.cs:50-58 | the key runs from the first `{` to the first `}` after it, so `{a{b}` uses the key `a{b` |
| Placeholders.UnclosedCopied | Assets/Runtime/Misc/StringPlaceholderUtil.cs:53-74 | a `{` with no later `}` stops the scan and the rest is copied verbatim |
| Placeholders.NoKeysIdentity | Assets/Runtime/Misc/StringPlaceholderUtil.cs:47-74 | with an empty table, the expansion is the input itself |
| Placeholders.StringPlaceholderUtil.constructor | Assets/Runtime/Misc/StringPlaceholderUtil.cs:8-11 | the table starts empty |
| Placeholders.StringPlaceholderUtil.Add | Assets/Runtime/Misc/StringPlaceholderUtil.cs:13-17 | sets or overwrites the key |
| Placeholders.StringPlaceholderUtil.Remove | Assets/Runtime/Misc/StringPlaceholderUtil.cs:19-22 | drops the key |
| Placeholders.StringPlaceholderUtil.Get | Assets/Runtime/Misc/StringPlaceholderUtil.cs:24-32 | the key's value, or "" for an absent key |
| Placeholders.StringPlaceholderUtil.Clear | Assets/Runtime/Misc/StringPlaceholderUtil.cs:34-37 | the table becomes empty |
| Placeholders.StringPlaceholderUtil.GetString | Assets/Runtime/Misc/StringPlaceholderUtil.cs:39-77 | the buffer loop returns `Render`: "" for "", the input itself when the expansion is empty, otherwise the left-to-right expansion |
| Hosts.FirstSetting | Assets/Runtime/Services/HostServices.cs:44 | `FirstOrDefault` on the package name: a setting of that package, or none exactly when no setting has it |
| Hosts.FirstSettingIsFirst | Assets/Runtime/Services/HostServices.cs:44 | the setting found is the first one of the package |
| Collections.AddAbsent | Assets/Runtime/Services/HostServices.cs:18-21 | the `Contains` test before `Add` (hosts) or `Enqueue` (pool queues): the element is in the result, which extends the old list by at most that element |
| Collections.AddAbsentDistinct | Assets/Runtime/Pool/ObjectPool.cs:26-29 | adding only absent elements keeps the host list and every pool queue free of duplicates |
| Hosts.AddedIdempotent | Assets/Runtime/Services/HostServices.cs:18-21 | adding a host twice is the same as adding it once |
| Hosts.FileUrlParts | Assets/Runtime/Services/HostServices.cs:47 | the URL ends in `/` and the file name, and starts with the first host and `/` |
| Hosts.TerminatedQuery | Assets/Runtime/Services/HostServices.cs:63-71 | the accumulated string is the `&`-joined query plus one trailing `&` |
| Hosts.QueryItems | Assets/Runtime/Services/HostServices.cs:63-71 | splitting the query at `&` gives back the items when no key or value holds `&` |
| Hosts.ParamString | Assets/Runtime/Services/HostServices.cs:63-67 | the loop builds "" for no parameters, otherwise the query with one trailing `&` |
| Hosts.HostServices.Enabled | Assets/Runtime/Services/HostServices.cs:14 | the service is enabled iff at least one host is registered (made true by `AddDownloadHost` and `SetDownloadHost`, checked by `GetMainUrl`) |
| Hosts.HostServices.constructor | Assets/Runtime/Services/HostServices.cs:10-12 | no hosts, settings not loaded |
| Hosts.HostServices.LoadConfig | Assets/Runtime/Services/HostServices.cs:34-37 | loads the settings once and keeps them loaded |
| Hosts.HostServices.AddDownloadHost | Assets/Runtime/Services/HostServices.cs:16-25 | the hosts become `AddAbsent(hosts, host)`, so the service is `Enabled` |
| Hosts.HostServices.SetDownloadHost | Assets/Runtime/Services/HostServices.cs:27-32 | the host list becomes exactly `[host]` |
| Hosts.HostServices.GetMainUrl | Assets/Runtime/Services/HostServices.cs:39-56 | `MainUrl`: "" when disabled or when the package has no setting, and exactly in the second case the package name is appended to the missing log; otherwise first host `/` expanded remote path `/` file name; a missing settings asset throws; an enabled service holds the loaded settings afterwards, a disabled one keeps its settings untouched |
| Hosts.HostServices.GetMainUrlWithParams | Assets/Runtime/Services/HostServices.cs:58-76 | the `GetMainUrl` result, followed by `?` and the `&`-joined items only when the URL and the parameters are non-empty; a throw passes through; settings and missing log change exactly as in `GetMainUrl` |
| Pool.OwnTypeCleared | Assets/Runtime/Pool/ObjectPool.cs:20-25 | an object of the pool's own type `T` is cleared only as a dictionary or by a recycle callback |
| Pool.GetPutRotates | Assets/Runtime/Pool/ObjectPool.cs:12-30 | a `Get` followed by a `Put` of the same object moves the head to the tail |
| Pool.ObjectPool.constructor | Assets/Runtime/Pool/ObjectPool.cs:10 | no queues |
| Pool.ObjectPool.Get | Assets/Runtime/Pool/ObjectPool.cs:12-16 | dequeues the head when the type's queue is non-empty, otherwise returns a fresh object of the type; the queue is created if missing |
| Pool.ObjectPool.Put | Assets/Runtime/Pool/ObjectPool.cs:18-30 | null is ignored; otherwise the object is cleared as `Cleared` says and enqueued unless it is already queued, which is logged instead |
| Pool.ObjectPool.Enqueue | Assets/Runtime/Pool/ObjectPool.cs:26-29 | the queue becomes `AddAbsent` of the old queue and the object, and a duplicate is counted |
| Pool.Recycle | Assets/Runtime/Pool/ObjectPool.cs:20-25 | the object is emptied exactly when `Cleared` holds |
| Pool.ObjectPool.Release | Assets/Runtime/Pool/ObjectPool.cs:42-47 | empties the type's queue when it has one, and creates none |
| Pool.ObjectPool.ReleaseType | Assets/Runtime/Pool/ObjectPool.cs:49-57 | null changes nothing; otherwise it behaves as `Release` |
| Lists.Sort2List | Assets/Runtime/Misc/ListExt.cs:8-12 | sorts the list in place into a sorted permutation of its strings, and returns the same list |
| Lists.Sort2ListOf | Assets/Runtime/Misc/ListExt.cs:14-17 | a fresh list holding a sorted permutation of the strings |
| Lists.ToRefList | Assets/Runtime/Misc/ListExt.cs:19-29 | the given list, or a fresh one when none is given, now holds exactly the strings in order |

## Left out

- Unity and engine calls: `AssetDatabase` queries (scene test, main type, GUID, recursive dependencies), `Directory.Exists`, `Resources.Load`, file sizes and hashes, and `UnityWebRequest` results are parameters, the `Engine.AssetDatabase` value or constant fields. What they compute is not modelled.
- The file system is a map from paths to contents. Copying, moving and deleting are updates of that map.
- Floating point: `Percent` and the progress fractions are left out. Byte counts are `ulong` sums with explicit wrap-around.
- Asynchronous waiting: `await`, `UniTask.NextFrame`, `UniTask.Delay` and the `AwaitSync` busy-waits are not modelled. A download is modelled as explicit steps (`ExecTask`, `Poll`, `OnRequestDone`, `Resume`, `Frame`) that a caller runs in sequence. An operation's `Start` is a sequential recursion over its dependencies.
- Operation recursion (`Start`, `IsDone`, `AddRef`/`DecRef`) takes a ghost rank that witnesses the dependency graph has no cycle. On a cycle the source would recurse without end, and that is not modelled.
- An operation's `GetHashCode` identity is its index in the `Operations` arena.
- Completion and event handlers are ids. Invoking them is recorded as the sequence of ids invoked, not as running their code.
- `Debug.Log`/`LogError` output is a log sequence or an error counter.
- Culture: every string comparison, sort and `ToLower` is ordinal, or ASCII for `ToLower`. The source's culture-sensitive comparisons can order non-ASCII strings differently.
- Enumeration order of `Dictionary` and `HashSet` is an arbitrary but fixed sequence supplied by the caller. A `SortedDictionary` is a map together with its ordinal key order.
- A `null` list, dictionary or string is modelled as `None`, an empty map or "" wherever the source treats those alike.
- The `StringBuilder` of `StringPlaceholderUtil.GetString` is a string value.
- `ReferencePool` and the pooled `HashSet`s are fresh values on each call.
- Exceptions end the modelled step with an `Err` result. A download task that throws stays `Processing`, as in the source, and no later step is modelled for it.
- Downloads.DownloadServices.Sweep: aborted tasks that were still `Pending` are removed and counted off `_downloadCount` like the others, so the count can fall below the number of running downloads. This is stated as the source does it, without an invariant tying the count to the statuses.
- Downloads.DownloadTask.WaitCompleted: a completion source first created after the task finished never completes. This is stated, not corrected.
- Completion callbacks of an operation are never cleared, and no operation is ever set to `Failure`. Both are stated as the source behaves.
- `Packages.ReplaceOnce` drops the text before the match and ignores its replacement argument. It is modelled as written and stated by `Packages.ReplaceOnceDropsPrefix`.
- The editor GUI, `AddressRule`, `CollectRule`, `AllAssetPostprocessor` and the MonoBehaviour components are not part of this model.
- The ScriptableObject creation, loading and saving of `AssetAddressDefaultSettings` (lines 25-127, `Save`, `SavePackage`) are not part of this model.
- Settings operations that only delegate to modelled package or group operations, or filter them with LINQ, are not modelled separately: `GetEntries`, `GetEntryByLabel`, both `GetGroup`, `HasLabel`, `GetAssetInfo`, `RemoveAssetInfo`, `HasAssetInfo`, `AddAssetInfo`, `AddGroup`, `SetAssetAddress` and `Build`.
- `Fix`: only the duplicate checks and the stamping of package and group names are modelled. The GUID repair, the removal of folder entries and the deferred `RemoveGroup`/`RemoveEntry` calls need the asset database and are left out.
- `GenerateManifestData.Run`: only the indirect-set subtraction and the renaming of bundle files are modelled. The `ContentBuildInterface` lookups, file writes and referenced-asset collection are left out.
- `CopyToStreamingAssets.Run`: the file copies are left out. The list of files to copy is modelled.
- `BuildScript.StartBuild` and `GetBuildTask` (Unity build pipeline wiring) are not part of this model.
- Provider classes (`BundleProvider`, `AssetProvider`, `SceneProvider`, `PackageProvider`) are not part of this model. The registry creates operations for them in the arena and records which provider kind each one is.
- Registry.ResourcesManager.CreateAssetHandle: the returned operation is created but not started; the source calls `op.Start()` on it (Assets/Runtime/ResourcesManager.cs:146). Starting needs a rank witnessing that the new operation's dependency graph has no cycle, which the registry does not carry; what `Start` does to an operation is stated by `Operations.Operations.Start`.
- Registry.ResourcesManager.CreateSceneHandle: likewise the scene operation is not started, where the source calls `provider.Start()` on every call, for a new or an already registered provider (Assets/Runtime/ResourcesManager.cs:133).
- Registry.AddToList: address records are compared by value, where `AddressInfos.Contains` compares references (`AddressInfo` does not override `Equals`). Two distinct records equal in every field are listed once under a label here and twice in the source.
- Settings.AssetAddressDefaultSettings.ChangeAssetAddress: the closing `SavePackage()`, which rebuilds every group's cache through `GenerateCache`, is not modelled; the ensures states only that each cache is kept or rebuilt by the lookups.
- BuildScript.ShareDuplicates: for the share rounds after the first, the model states what a successful run gives and that a failure is `ArgumentOutOfRange`, but not exactly which later rounds throw; the first round and a lone duplicate are characterised exactly.
- BuildScript.GenerateBundleLayoutsByGroup: likewise, the inputs on which the share search throws are characterised only through a lone duplicate.

## Findings

| source | as written | input that shows it | evidently intended | confidence | as-written member | corrected member |
|---|---|---|---|---|---|---|
| Assets/Editor/Build/BuildScript.cs:158-161 | when fewer than two leftover duplicates start with the first directory level of `paths[0]`, the keyword is that level, which holds no `/`; `keyword.Substring(0, keyword.LastIndexOf("/"))` becomes `Substring(0, -1)` and throws `ArgumentOutOfRangeException` | one asset `Assets/a.png` packed by two groups: it is the only duplicate, only one path starts with `Assets`, and the build throws | keep the first level as the share keyword, so the duplicate goes into `share_Assets` | not executed | BuildScript.ShareKeywordAsWritten, BuildScript.ShareDuplicates, BuildScript.GenerateBundleLayoutsByGroup, BuildScript.LoneDuplicateThrows | BuildScript.ShareKeyword, BuildScript.ShareDuplicatesCorrected, BuildScript.GenerateBundleLayoutsByGroupCorrected |
