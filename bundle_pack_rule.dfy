/** The bundle layouts of the build and the three pack rules of
    `BundlePackRule.cs`, which turn one address group into layouts.

    The build reads the address settings by value: a group and its entries
    appear here as `GroupView` and `EntryView`, holding the fields the pack
    rules look at. A pack rule never changes the group it is given; the
    sub-groups it creates are new objects, modelled as values too. */
module PackRules {
  import opened Wrappers
  import opened Strings
  import opened Collections
  import opened Sorting
  import opened Paths
  import opened Engine
  import opened AssetUtilityEditor

  /** `AssetAddressDefaultSettings.BundleSuffix`. */
  const BundleSuffix := ".bundle"

  /** `BundleBuildLayout`: one bundle to build. `MainType` is never assigned
      and is left out. */
  datatype BundleBuildLayout = BundleBuildLayout(
    bundleName: string,
    groupGuid: string,
    copyToStreamingAssets: bool,
    sceneBundle: bool,
    allRefAssets: seq<string>)

  /** The fields of an `AssetAddressEntry` the build reads. */
  datatype EntryView = EntryView(assetPath: string, address: string, guid: string, active: bool)

  /** The fields of an `AssetAddressGroupInfo` the build reads. */
  datatype GroupView = GroupView(
    groupName: string,
    guid: string,
    copyToStreamingAssets: bool,
    active: bool,
    packRule: string,
    entries: seq<EntryView>)

  function PathOf(e: EntryView): string { e.assetPath }

  /** `Entries.Where(e => e.Active).Select(e => e.AssetPath)`. */
  function ActivePaths(es: seq<EntryView>): (r: seq<string>)
    ensures forall i :: 0 <= i < |es| && es[i].active ==> es[i].assetPath in r
    ensures forall p :: p in r ==> exists i :: 0 <= i < |es| && es[i].active && es[i].assetPath == p
  {
    if es == [] then []
    else
      var n := |es| - 1;
      var init := ActivePaths(es[..n]);
      assert forall i :: 0 <= i < n ==> es[i] == es[..n][i];
      init + if es[n].active then [es[n].assetPath] else []
  }

  /** The expanded dependency list of a group's active entries, the list
      every rule starts from. */
  function Deps(g: GroupView, db: AssetDatabase): seq<string> {
    GetDependencies(ActivePaths(g.entries), db)
  }

  /** The scenes among a dependency list, in order (`Where(IsScene)`). */
  function Scenes(deps: seq<string>, db: AssetDatabase): seq<string> {
    Filter(deps, p => db.IsScene(p))
  }

  /** `PackTogether`: one layout for the scenes among the group's expanded
      dependencies, named after the group, and one for everything else,
      named `_asset`; an empty layout is not returned. */
  function PackTogether(g: GroupView, db: AssetDatabase): (r: seq<BundleBuildLayout>)
    ensures |r| <= 2
    ensures forall i :: 0 <= i < |r| ==>
              r[i].allRefAssets != []
              && r[i].groupGuid == g.guid
              && r[i].copyToStreamingAssets == g.copyToStreamingAssets
              && r[i].bundleName == (if r[i].sceneBundle then g.groupName + BundleSuffix
                                     else g.groupName + "_asset" + BundleSuffix)
  {
    var deps := Deps(g, db);
    PackLayouts(g, deps, db);
    Pack(g, deps, db)
  }

  /** `PackTogether` once the dependency list `deps` is expanded. */
  function Pack(g: GroupView, deps: seq<string>, db: AssetDatabase): (r: seq<BundleBuildLayout>)
    ensures |r| <= 2
  {
    var assetName := g.groupName + "_asset" + BundleSuffix;
    if |deps| == 0 then []
    else if |Scenes(deps, db)| > 0 then
      var scenes := Scenes(deps, db);
      var rest := Except(deps, set x | x in scenes);
      [BundleBuildLayout(g.groupName + BundleSuffix, g.guid, g.copyToStreamingAssets, true, scenes)]
      + if |rest| > 0 then [BundleBuildLayout(assetName, g.guid, g.copyToStreamingAssets, false, rest)] else []
    else
      [BundleBuildLayout(assetName, g.guid, g.copyToStreamingAssets, false, deps)]
  }

  /** Splitting off the scenes: every dependency is a scene or stays in the
      rest, and the rest holds no scene. */
  lemma ScenesSplit(deps: seq<string>, db: AssetDatabase)
    ensures forall x :: x in Scenes(deps, db) ==> x in deps && db.IsScene(x)
    ensures forall x :: x in deps ==> (x in Scenes(deps, db) <==> db.IsScene(x))
    ensures forall x :: x in Except(deps, set y | y in Scenes(deps, db)) ==> x in deps && !db.IsScene(x)
    ensures forall x :: x in deps ==> x in Scenes(deps, db) || x in Except(deps, set y | y in Scenes(deps, db))
  {
    var scenes := Scenes(deps, db);
    var rest := Except(deps, set y | y in scenes);
    forall x | x in deps ensures (x in scenes <==> db.IsScene(x)) && (x in scenes || x in rest) {
      var i :| 0 <= i < |deps| && deps[i] == x;
    }
  }

  /** The shape of the layouts of one group: nothing for an empty
      dependency list, otherwise non-empty layouts that carry the group's
      guid and copy flag, named after the group, the scene layout first. */
  lemma PackLayouts(g: GroupView, deps: seq<string>, db: AssetDatabase)
    ensures Pack(g, deps, db) == [] <==> deps == []
    ensures forall i :: 0 <= i < |Pack(g, deps, db)| ==>
              var l := Pack(g, deps, db)[i];
              l.allRefAssets != []
              && l.groupGuid == g.guid
              && l.copyToStreamingAssets == g.copyToStreamingAssets
              && l.bundleName == (if l.sceneBundle then g.groupName + BundleSuffix
                                  else g.groupName + "_asset" + BundleSuffix)
    ensures forall i :: 0 < i < |Pack(g, deps, db)| ==> !Pack(g, deps, db)[i].sceneBundle
  {
  }

  /** The layouts of one group cover its dependency list and hold nothing
      else; the scene layout holds exactly its scenes. */
  lemma PackCovers(g: GroupView, deps: seq<string>, db: AssetDatabase)
    ensures forall i, x :: 0 <= i < |Pack(g, deps, db)| && x in Pack(g, deps, db)[i].allRefAssets ==>
              x in deps && (db.IsScene(x) <==> Pack(g, deps, db)[i].sceneBundle)
    ensures forall x :: x in deps ==> exists i :: 0 <= i < |Pack(g, deps, db)| && x in Pack(g, deps, db)[i].allRefAssets
  {
    var r := Pack(g, deps, db);
    ScenesSplit(deps, db);
    forall x | x in deps ensures exists i :: 0 <= i < |r| && x in r[i].allRefAssets {
      if x in r[0].allRefAssets {
      } else {
        assert x in r[1].allRefAssets;
      }
    }
  }

  /** The layouts of one group share no asset, and their names differ. */
  lemma PackDisjoint(g: GroupView, deps: seq<string>, db: AssetDatabase)
    ensures forall i, j :: 0 <= i < j < |Pack(g, deps, db)| ==>
              Pack(g, deps, db)[i].bundleName != Pack(g, deps, db)[j].bundleName
              && forall x :: x in Pack(g, deps, db)[i].allRefAssets ==> x !in Pack(g, deps, db)[j].allRefAssets
  {
    var r := Pack(g, deps, db);
    ScenesSplit(deps, db);
    if |r| == 2 {
      assert r[0].sceneBundle && !r[1].sceneBundle;
      assert |r[0].bundleName| != |r[1].bundleName|;
    }
  }

  /** An entry as the sub-groups of the rules hold it: its address is its
      path, and it has no labels. */
  function FreshEntry(p: string, db: AssetDatabase): EntryView {
    EntryView(p, p, db.guidOf(p), true)
  }

  /** A lookup of `key` in a sub-group holding `es` finds an entry: entries
      are filed under their path, address and guid. */
  predicate Filed(es: seq<EntryView>, key: string) {
    exists i :: 0 <= i < |es| && (es[i].assetPath == key || es[i].address == key || es[i].guid == key)
  }

  /** `AddAssetEntry(p)` on a sub-group a rule just created: its folder path
      is empty, so every path matches; an empty path or one already filed
      adds nothing; otherwise a new entry is added and the list re-sorted by
      path. */
  function AddFresh(es: seq<EntryView>, p: string, db: AssetDatabase): (r: seq<EntryView>)
    requires SortedBy(es, PathOf)
    ensures SortedBy(r, PathOf)
    ensures p == "" || Filed(es, p) ==> r == es
    ensures p != "" && !Filed(es, p) ==> multiset(r) == multiset(es) + multiset{FreshEntry(p, db)}
  {
    if p == "" || Filed(es, p) then es
    else SortBy(es + [FreshEntry(p, db)], PathOf)
  }

  /** The entries of a new sub-group after `AddAssetEntry` of each of `ps` in turn. */
  function FreshAdds(ps: seq<string>, db: AssetDatabase): (r: seq<EntryView>)
    ensures SortedBy(r, PathOf)
  {
    if ps == [] then [] else AddFresh(FreshAdds(ps[..|ps| - 1], db), ps[|ps| - 1], db)
  }

  /** One `AddAssetEntry` adds at most the fresh entry of the added path,
      and leaves an empty list empty only for an empty path. */
  lemma AddFreshFrom(es: seq<EntryView>, p: string, db: AssetDatabase)
    requires SortedBy(es, PathOf)
    ensures forall e :: e in AddFresh(es, p, db) ==> e in es || e == FreshEntry(p, db)
    ensures AddFresh(es, p, db) == [] <==> es == [] && p == ""
  {
    var r := AddFresh(es, p, db);
    if p != "" && !Filed(es, p) {
      forall e | e in r ensures e in es || e == FreshEntry(p, db) {
        assert e in multiset(es) + multiset{FreshEntry(p, db)};
      }
      assert FreshEntry(p, db) in multiset(r);
    }
  }

  /** One `AddAssetEntry` keeps every filed key and files the added path. */
  lemma AddFreshFiles(es: seq<EntryView>, p: string, db: AssetDatabase)
    requires SortedBy(es, PathOf)
    ensures forall q :: Filed(es, q) ==> Filed(AddFresh(es, p, db), q)
    ensures p != "" ==> Filed(AddFresh(es, p, db), p)
  {
    var r := AddFresh(es, p, db);
    if p != "" && !Filed(es, p) {
      forall q | Filed(es, q) ensures Filed(r, q) {
        var i :| 0 <= i < |es| && (es[i].assetPath == q || es[i].address == q || es[i].guid == q);
        assert es[i] in multiset(r);
        var j :| 0 <= j < |r| && r[j] == es[i];
      }
      assert FreshEntry(p, db) in multiset(r);
      var k :| 0 <= k < |r| && r[k] == FreshEntry(p, db);
    }
  }

  /** A sub-group's entries are fresh entries of non-empty added paths. */
  lemma {:induction false} FreshAddsFrom(ps: seq<string>, db: AssetDatabase)
    ensures forall e :: e in FreshAdds(ps, db) ==> e.assetPath in ps && e.assetPath != "" && e == FreshEntry(e.assetPath, db)
  {
    if ps != [] {
      var init, p := ps[..|ps| - 1], ps[|ps| - 1];
      assert ps == init + [p];
      FreshAddsFrom(init, db);
      AddFreshFrom(FreshAdds(init, db), p, db);
    }
  }

  /** Every non-empty added path is filed in the sub-group. */
  lemma {:induction false} FreshAddsFiles(ps: seq<string>, db: AssetDatabase)
    ensures forall p :: p in ps && p != "" ==> Filed(FreshAdds(ps, db), p)
  {
    if ps != [] {
      var init, p := ps[..|ps| - 1], ps[|ps| - 1];
      assert ps == init + [p];
      FreshAddsFiles(init, db);
      AddFreshFiles(FreshAdds(init, db), p, db);
    }
  }

  /** A sub-group stays empty exactly when every added path is empty. */
  lemma {:induction false} FreshAddsEmpty(ps: seq<string>, db: AssetDatabase)
    ensures FreshAdds(ps, db) == [] <==> forall p :: p in ps ==> p == ""
  {
    if ps != [] {
      var init, p := ps[..|ps| - 1], ps[|ps| - 1];
      assert ps == init + [p];
      FreshAddsEmpty(init, db);
      AddFreshFrom(FreshAdds(init, db), p, db);
      if p != "" {
        assert p in ps;
      } else {
        forall q | q in init ensures q in ps {}
      }
    }
  }

  /** The layouts of each group of `gs`. */
  function LayoutsEach(gs: seq<GroupView>, db: AssetDatabase): (r: seq<seq<BundleBuildLayout>>)
    ensures |r| == |gs|
  {
    seq(|gs|, k requires 0 <= k < |gs| => PackTogether(gs[k], db))
  }

  /** `foreach (g in groups) layouts.AddRange(PackTogether(g))`: the layouts
      of each group in turn. */
  function PackAll(gs: seq<GroupView>, db: AssetDatabase): seq<BundleBuildLayout> {
    Flatten(LayoutsEach(gs, db))
  }

  /** The layouts of several groups are exactly the layouts of each. */
  lemma PackAllIsEach(gs: seq<GroupView>, db: AssetDatabase)
    ensures forall l :: l in PackAll(gs, db) <==> exists k :: 0 <= k < |gs| && l in PackTogether(gs[k], db)
  {
    var each := LayoutsEach(gs, db);
    FlattenFrom(each);
    forall k | 0 <= k < |gs| ensures forall l :: l in PackTogether(gs[k], db) ==> l in PackAll(gs, db) {
      FlattenHolds(each, k);
    }
  }

  /** Sub-groups that carry a group's guid and copy flag and are named after
      it give layouts that do the same. */
  lemma PackAllInherits(gs: seq<GroupView>, g: GroupView, db: AssetDatabase)
    requires forall s :: s in gs ==> s.guid == g.guid && s.copyToStreamingAssets == g.copyToStreamingAssets
                                     && StartsWith(s.groupName, g.groupName + "_")
    ensures forall l :: l in PackAll(gs, db) ==>
              l.groupGuid == g.guid && l.copyToStreamingAssets == g.copyToStreamingAssets
              && l.allRefAssets != [] && StartsWith(l.bundleName, g.groupName + "_")
  {
    PackAllIsEach(gs, db);
    forall l | l in PackAll(gs, db)
      ensures l.groupGuid == g.guid && l.copyToStreamingAssets == g.copyToStreamingAssets
      ensures l.allRefAssets != [] && StartsWith(l.bundleName, g.groupName + "_")
    {
      var k :| 0 <= k < |gs| && l in PackTogether(gs[k], db);
      var i :| 0 <= i < |PackTogether(gs[k], db)| && PackTogether(gs[k], db)[i] == l;
      assert gs[k] in gs;
      PrefixOfAppend(g.groupName + "_", gs[k].groupName, BundleSuffix);
      PrefixOfAppend(g.groupName + "_", gs[k].groupName, "_asset");
      PrefixOfAppend(g.groupName + "_", gs[k].groupName + "_asset", BundleSuffix);
    }
  }

  lemma PrefixOfAppend(p: string, s: string, t: string)
    requires StartsWith(s, p)
    ensures StartsWith(s + t, p)
  {
    assert (s + t)[..|p|] == s[..|p|];
  }

  /** Runs `PackTogether` on each group and gathers the layouts. */
  method PackEach(gs: seq<GroupView>, db: AssetDatabase) returns (layouts: seq<BundleBuildLayout>)
    ensures layouts == PackAll(gs, db)
  {
    layouts := [];
    for i := 0 to |gs|
      invariant layouts == Flatten(LayoutsEach(gs, db)[..i])
    {
      FlattenPrefixStep(LayoutsEach(gs, db), i);
      layouts := layouts + PackTogether(gs[i], db);
    }
    Whole(LayoutsEach(gs, db));
  }

  /** The sub-group `PackSeparately` makes for entry `e`: named after the
      group and the file name of the entry's address without its extension,
      it holds the entry's path. */
  function SeparateGroup(g: GroupView, e: EntryView, db: AssetDatabase): GroupView {
    GroupView(g.groupName + "_" + GetFileNameWithoutExtension(e.address, db.sep),
              g.guid, g.copyToStreamingAssets, true, "", AddFresh([], e.assetPath, db))
  }

  /** The sub-groups of `PackSeparately`: one per active entry, in entry order. */
  function SeparateGroups(g: GroupView, es: seq<EntryView>, db: AssetDatabase): seq<GroupView> {
    MapActive(es, e => SeparateGroup(g, e, db))
  }

  /** `f` of each active entry of `es`, in entry order. */
  function MapActive<T>(es: seq<EntryView>, f: EntryView -> T): seq<T> {
    if es == [] then []
    else
      var n := |es| - 1;
      MapActive(es[..n], f) + if es[n].active then [f(es[n])] else []
  }

  lemma {:induction false} MapActiveAre<T>(es: seq<EntryView>, f: EntryView -> T)
    ensures forall x :: x in MapActive(es, f) <==> exists i :: 0 <= i < |es| && es[i].active && x == f(es[i])
  {
    if es != [] {
      var n := |es| - 1;
      MapActiveAre(es[..n], f);
    }
  }

  /** The sub-groups of `PackSeparately` are exactly those of the active entries. */
  lemma SeparateGroupsAre(g: GroupView, es: seq<EntryView>, db: AssetDatabase)
    ensures forall s :: s in SeparateGroups(g, es, db) <==>
              exists i :: 0 <= i < |es| && es[i].active && s == SeparateGroup(g, es[i], db)
  {
    MapActiveAre(es, e => SeparateGroup(g, e, db));
  }

  /** `PackSeparately`: a sub-group per active entry, each packed together. */
  method PackSeparately(g: GroupView, db: AssetDatabase) returns (layouts: seq<BundleBuildLayout>)
    ensures layouts == PackAll(SeparateGroups(g, g.entries, db), db)
  {
    var newGroups := [];
    for i := 0 to |g.entries|
      invariant newGroups == SeparateGroups(g, g.entries[..i], db)
    {
      assert g.entries[..i + 1][..i] == g.entries[..i];
      var entry := g.entries[i];
      if !entry.active {
        continue;
      }
      var name := GetFileNameWithoutExtension(entry.address, db.sep);
      var newGroup := GroupView(g.groupName + "_" + name, g.guid, g.copyToStreamingAssets, true, "",
                                AddFresh([], entry.assetPath, db));
      newGroups := newGroups + [newGroup];
    }
    assert g.entries[..|g.entries|] == g.entries;
    layouts := PackEach(newGroups, db);
  }

  /** The layouts of `PackSeparately` carry the group's guid and copy flag,
      are named after it, and are those of the sub-groups of its active
      entries: an inactive entry contributes nothing. */
  lemma SeparatelyLayouts(g: GroupView, db: AssetDatabase)
    ensures forall l :: l in PackAll(SeparateGroups(g, g.entries, db), db) ==>
              l.groupGuid == g.guid && l.copyToStreamingAssets == g.copyToStreamingAssets
              && l.allRefAssets != [] && StartsWith(l.bundleName, g.groupName + "_")
    ensures forall l :: l in PackAll(SeparateGroups(g, g.entries, db), db) <==>
              exists i :: 0 <= i < |g.entries| && g.entries[i].active && l in PackTogether(SeparateGroup(g, g.entries[i], db), db)
  {
    var gs := SeparateGroups(g, g.entries, db);
    SeparateGroupsAre(g, g.entries, db);
    forall s | s in gs ensures StartsWith(s.groupName, g.groupName + "_") {
      var i :| 0 <= i < |g.entries| && g.entries[i].active && s == SeparateGroup(g, g.entries[i], db);
      PrefixOfAppend(g.groupName + "_", g.groupName + "_", GetFileNameWithoutExtension(g.entries[i].address, db.sep));
    }
    PackAllInherits(gs, g, db);
    PackAllIsEach(gs, db);
    forall l | l in PackAll(gs, db)
      ensures exists i :: 0 <= i < |g.entries| && g.entries[i].active && l in PackTogether(SeparateGroup(g, g.entries[i], db), db)
    {
      var k :| 0 <= k < |gs| && l in PackTogether(gs[k], db);
      assert gs[k] in gs;
    }
    forall i, l | 0 <= i < |g.entries| && g.entries[i].active && l in PackTogether(SeparateGroup(g, g.entries[i], db), db)
      ensures l in PackAll(gs, db)
    {
      var s := SeparateGroup(g, g.entries[i], db);
      assert s in gs;
      var k :| 0 <= k < |gs| && gs[k] == s;
    }
  }

  /** `GetMainAssetTypeAtPath(e.AssetPath).Name`; `None` where the type is `null`. */
  function TypeKey(e: EntryView, db: AssetDatabase): Option<string> {
    match db.mainType(e.assetPath)
    case None => None
    case Some(t) => Some(t.name)
  }

  /** Every entry has a main type, so that `GroupBy` can name it. */
  predicate AllTyped(es: seq<EntryView>, db: AssetDatabase) {
    forall i :: 0 <= i < |es| ==> TypeKey(es[i], db).Some?
  }

  /** The type name of each entry. */
  function TypeNames(es: seq<EntryView>, db: AssetDatabase): (r: seq<string>)
    requires AllTyped(es, db)
    ensures |r| == |es| && forall i :: 0 <= i < |es| ==> TypeKey(es[i], db) == Some(r[i])
  {
    seq(|es|, i requires 0 <= i < |es| => TypeKey(es[i], db).value)
  }

  /** The keys of `GroupBy`: the type names of the entries, each once, in
      the order in which they first occur. */
  function TypeKeys(es: seq<EntryView>, db: AssetDatabase): (r: seq<string>)
    requires AllTyped(es, db)
    ensures Distinct(r)
    ensures forall k :: k in r <==> exists i :: 0 <= i < |es| && TypeKey(es[i], db) == Some(k)
  {
    var names := TypeNames(es, db);
    assert forall k :: k in names ==> exists i :: 0 <= i < |es| && TypeKey(es[i], db) == Some(k);
    Except(names, {})
  }

  /** The keys of `GroupBy` come in the order in which their types first
      occur: wherever an entry of a later key's type stands, an entry of
      an earlier key's type stands before it. */
  lemma TypeKeysInFirstOccurrenceOrder(es: seq<EntryView>, db: AssetDatabase)
    requires AllTyped(es, db)
    ensures var r := TypeKeys(es, db);
      forall a, b, j :: 0 <= a < b < |r| && 0 <= j < |es| && TypeKey(es[j], db) == Some(r[b]) ==>
        exists i :: 0 <= i < j && TypeKey(es[i], db) == Some(r[a])
  {
    var names := TypeNames(es, db);
    var r := TypeKeys(es, db);
    assert r == Except(names, {});
    ExceptKeepsOrder(names, {});
    forall a, b, j | 0 <= a < b < |r| && 0 <= j < |es| && TypeKey(es[j], db) == Some(r[b])
      ensures exists i :: 0 <= i < j && TypeKey(es[i], db) == Some(r[a])
    {
      assert names[j] == r[b];
      assert r[a] in names[..j];
      var i :| 0 <= i < j && names[..j][i] == r[a];
      assert TypeKey(es[i], db) == Some(r[a]);
    }
  }

  /** The paths of the active entries whose type name is `k`, in entry
      order: what `AddAssetEntry` receives for one group of `GroupBy`, whose
      members are the entries with that key in their original order. */
  function KeyedPaths(es: seq<EntryView>, k: string, db: AssetDatabase): (r: seq<string>)
    ensures forall p :: p in r <==>
              exists i :: 0 <= i < |es| && es[i].active && TypeKey(es[i], db) == Some(k) && es[i].assetPath == p
  {
    if es == [] then []
    else
      var n := |es| - 1;
      assert forall i :: 0 <= i < n ==> es[..n][i] == es[i];
      KeyedPaths(es[..n], k, db) + if es[n].active && TypeKey(es[n], db) == Some(k) then [es[n].assetPath] else []
  }

  /** The sub-group of `PackTogetherByType` for type name `k`: named after
      the group and the type, it holds the active entries of that type. */
  function TypeGroup(g: GroupView, k: string, db: AssetDatabase): GroupView {
    GroupView(g.groupName + "_" + k, g.guid, g.copyToStreamingAssets, true, "",
              FreshAdds(KeyedPaths(g.entries, k, db), db))
  }

  /** `f` of each element of `xs`, in order. */
  function Map<A, B>(xs: seq<A>, f: A -> B): (r: seq<B>)
    ensures |r| == |xs| && forall i :: 0 <= i < |xs| ==> r[i] == f(xs[i])
  {
    seq(|xs|, i requires 0 <= i < |xs| => f(xs[i]))
  }

  /** The groups of `gs` that hold an entry, in order. */
  function NonEmpty(gs: seq<GroupView>): seq<GroupView> {
    if gs == [] then []
    else
      var n := |gs| - 1;
      NonEmpty(gs[..n]) + if gs[n].entries != [] then [gs[n]] else []
  }

  lemma {:induction false} NonEmptyAre(gs: seq<GroupView>)
    ensures forall s :: s in NonEmpty(gs) <==> s in gs && s.entries != []
  {
    if gs != [] {
      var n := |gs| - 1;
      NonEmptyAre(gs[..n]);
      assert gs == gs[..n] + [gs[n]];
    }
  }

  /** The non-empty groups among `f` of each of `xs`. */
  lemma NonEmptyMapAre<A>(xs: seq<A>, f: A -> GroupView)
    ensures forall s :: s in NonEmpty(Map(xs, f)) <==> exists x :: x in xs && s == f(x) && s.entries != []
  {
    var all := Map(xs, f);
    NonEmptyAre(all);
    forall s | s in all ensures exists x :: x in xs && s == f(x) {
      var i :| 0 <= i < |all| && all[i] == s;
      assert xs[i] in xs;
    }
    forall x | x in xs ensures f(x) in all {
      var i :| 0 <= i < |xs| && xs[i] == x;
      assert all[i] == f(x);
    }
  }

  /** The layouts of the non-empty groups among `f` of each of `xs`. */
  lemma PackNonEmptyMap<A>(xs: seq<A>, f: A -> GroupView, db: AssetDatabase)
    ensures forall l :: l in PackAll(NonEmpty(Map(xs, f)), db) <==>
              exists x :: x in xs && f(x).entries != [] && l in PackTogether(f(x), db)
  {
    var gs := NonEmpty(Map(xs, f));
    NonEmptyMapAre(xs, f);
    PackAllIsEach(gs, db);
    forall l | l in PackAll(gs, db) ensures exists x :: x in xs && f(x).entries != [] && l in PackTogether(f(x), db) {
      var k :| 0 <= k < |gs| && l in PackTogether(gs[k], db);
      assert gs[k] in gs;
    }
    forall x, l | x in xs && f(x).entries != [] && l in PackTogether(f(x), db) ensures l in PackAll(gs, db) {
      assert f(x) in gs;
      var k :| 0 <= k < |gs| && gs[k] == f(x);
    }
  }

  /** The sub-groups of `PackTogetherByType` for the type names `ks`: those
      that received an entry. */
  function TypeGroups(g: GroupView, ks: seq<string>, db: AssetDatabase): seq<GroupView> {
    NonEmpty(Map(ks, k => TypeGroup(g, k, db)))
  }

  /** A type's sub-group is kept exactly when an active entry of that type
      has a non-empty path. */
  lemma TypeGroupKept(g: GroupView, k: string, db: AssetDatabase)
    ensures TypeGroup(g, k, db).entries != [] <==>
              exists i :: 0 <= i < |g.entries| && g.entries[i].active && g.entries[i].assetPath != ""
                          && TypeKey(g.entries[i], db) == Some(k)
  {
    var ps := KeyedPaths(g.entries, k, db);
    FreshAddsEmpty(ps, db);
    if TypeGroup(g, k, db).entries != [] {
      var p :| p in ps && p != "";
      var i :| 0 <= i < |g.entries| && g.entries[i].active && TypeKey(g.entries[i], db) == Some(k) && g.entries[i].assetPath == p;
    } else {
      forall i | 0 <= i < |g.entries| && g.entries[i].active && TypeKey(g.entries[i], db) == Some(k)
        ensures g.entries[i].assetPath == ""
      {
        assert g.entries[i].assetPath in ps;
      }
    }
  }

  /** The type name of each entry, or a null dereference for an entry
      without a main type: the key selector of `GroupBy`. */
  method GroupKeys(es: seq<EntryView>, db: AssetDatabase) returns (r: Result<seq<string>>)
    ensures !AllTyped(es, db) ==> r == Err(NullReference)
    ensures AllTyped(es, db) ==> r == Ok(TypeNames(es, db))
  {
    var names := [];
    for i := 0 to |es|
      invariant |names| == i
      invariant forall j :: 0 <= j < i ==> TypeKey(es[j], db) == Some(names[j])
    {
      var key := TypeKey(es[i], db);
      if key.None? {
        return Err(NullReference);
      }
      names := names + [key.value];
    }
    assert names == TypeNames(es, db);
    return Ok(names);
  }

  lemma KeyedPathsSnoc(es: seq<EntryView>, j: int, k: string, db: AssetDatabase)
    requires 0 <= j < |es|
    ensures KeyedPaths(es[..j + 1], k, db) ==
            KeyedPaths(es[..j], k, db) + if es[j].active && TypeKey(es[j], db) == Some(k) then [es[j].assetPath] else []
  {
    assert es[..j + 1][..j] == es[..j];
  }

  lemma FreshAddsSnoc(ps: seq<string>, p: string, db: AssetDatabase)
    ensures FreshAdds(ps + [p], db) == AddFresh(FreshAdds(ps, db), p, db)
  {
    assert (ps + [p])[..|ps|] == ps;
  }

  /** The entries of the sub-group for type name `key`: `AddAssetEntry` of
      each active member of that key, in entry order. */
  method AddKeyed(g: GroupView, key: string, db: AssetDatabase) returns (es: seq<EntryView>)
    ensures es == TypeGroup(g, key, db).entries
  {
    es := [];
    for j := 0 to |g.entries|
      invariant es == FreshAdds(KeyedPaths(g.entries[..j], key, db), db)
    {
      KeyedPathsSnoc(g.entries, j, key, db);
      var entry := g.entries[j];
      if TypeKey(entry, db) == Some(key) && entry.active {
        FreshAddsSnoc(KeyedPaths(g.entries[..j], key, db), entry.assetPath, db);
        assert KeyedPaths(g.entries[..j + 1], key, db) == KeyedPaths(g.entries[..j], key, db) + [entry.assetPath];
        es := AddFresh(es, entry.assetPath, db);
        assert es == FreshAdds(KeyedPaths(g.entries[..j + 1], key, db), db);
      } else {
        assert KeyedPaths(g.entries[..j + 1], key, db) == KeyedPaths(g.entries[..j], key, db);
      }
    }
    assert g.entries[..|g.entries|] == g.entries;
  }

  /** `PackTogetherByType`: groups the entries by main-type name, makes a
      sub-group of the active entries of each type, drops the empty ones and
      packs each together. An entry without a main type makes `GroupBy`'s key
      selector dereference `null`. */
  method PackTogetherByType(g: GroupView, db: AssetDatabase) returns (r: Result<seq<BundleBuildLayout>>)
    ensures !AllTyped(g.entries, db) ==> r == Err(NullReference)
    ensures AllTyped(g.entries, db) ==> r == Ok(PackAll(TypeGroups(g, TypeKeys(g.entries, db), db), db))
  {
    var names := GroupKeys(g.entries, db);
    if names.Err? {
      return Err(names.fault);
    }
    var keys := Except(names.value, {});
    var newGroups := KeptTypeGroups(g, keys, db);
    var layouts := PackEach(newGroups, db);
    return Ok(layouts);
  }

  /** The sub-group of each key in turn, kept when it received an entry. */
  method KeptTypeGroups(g: GroupView, keys: seq<string>, db: AssetDatabase) returns (newGroups: seq<GroupView>)
    ensures newGroups == TypeGroups(g, keys, db)
  {
    ghost var all := Map(keys, k => TypeGroup(g, k, db));
    newGroups := [];
    for k := 0 to |keys|
      invariant newGroups == NonEmpty(all[..k])
    {
      NonEmptySnoc(all, k);
      var es := AddKeyed(g, keys[k], db);
      if |es| > 0 {
        newGroups := newGroups + [GroupView(g.groupName + "_" + keys[k], g.guid, g.copyToStreamingAssets, true, "", es)];
      }
    }
    assert all[..|keys|] == all;
  }

  lemma NonEmptySnoc(gs: seq<GroupView>, k: int)
    requires 0 <= k < |gs|
    ensures NonEmpty(gs[..k + 1]) == NonEmpty(gs[..k]) + if gs[k].entries != [] then [gs[k]] else []
  {
    assert gs[..k + 1][..k] == gs[..k];
  }

  /** The layouts of `PackTogetherByType` carry the group's guid and copy
      flag and are named after it, whatever the type names. */
  lemma ByTypeInherits(g: GroupView, ks: seq<string>, db: AssetDatabase)
    ensures forall l :: l in PackAll(TypeGroups(g, ks, db), db) ==>
              l.groupGuid == g.guid && l.copyToStreamingAssets == g.copyToStreamingAssets
              && l.allRefAssets != [] && StartsWith(l.bundleName, g.groupName + "_")
  {
    var gs := TypeGroups(g, ks, db);
    NonEmptyMapAre(ks, k => TypeGroup(g, k, db));
    forall s | s in gs ensures s.guid == g.guid && s.copyToStreamingAssets == g.copyToStreamingAssets
                               && StartsWith(s.groupName, g.groupName + "_") {
      var k :| k in ks && s == TypeGroup(g, k, db) && s.entries != [];
      TypeGroupInherits(g, k, db);
    }
    PackAllInherits(gs, g, db);
  }

  lemma TypeGroupInherits(g: GroupView, k: string, db: AssetDatabase)
    ensures TypeGroup(g, k, db).guid == g.guid && TypeGroup(g, k, db).copyToStreamingAssets == g.copyToStreamingAssets
    ensures StartsWith(TypeGroup(g, k, db).groupName, g.groupName + "_")
  {
    PrefixOfAppend(g.groupName + "_", g.groupName + "_", k);
  }

  /** The layouts of `PackTogetherByType` are those of the kept sub-groups,
      one per type name of an entry. */
  lemma ByTypeLayouts(g: GroupView, db: AssetDatabase)
    requires AllTyped(g.entries, db)
    ensures forall l :: l in PackAll(TypeGroups(g, TypeKeys(g.entries, db), db), db) <==>
              exists k :: k in TypeKeys(g.entries, db) && TypeGroup(g, k, db).entries != []
                          && l in PackTogether(TypeGroup(g, k, db), db)
  {
    PackNonEmptyMap(TypeKeys(g.entries, db), k => TypeGroup(g, k, db), db);
  }
}
