/** The layout stage of `BuildScript`: every active group of the current
    package is packed by its rule, assets that occur in two or more layouts
    are stripped from them and regrouped into `share_` layouts by directory
    prefix, and each layout becomes an `AssetBundleBuild`. */
module BuildScript {
  import opened Wrappers
  import opened Strings
  import opened Collections
  import opened Sorting
  import opened Engine
  import opened PackRules

  // ---------------------------------------------------------------------
  // Rules and the layouts of the current package
  // ---------------------------------------------------------------------

  /** The layouts of the rule named by `g.packRule`. The rule classes are
      looked up by name; a name that is none of them falls back to
      `PackTogether`. `PackTogetherByType` throws for an entry without a
      main type. */
  function RuleLayouts(g: GroupView, db: AssetDatabase): Result<seq<BundleBuildLayout>> {
    if g.packRule == "PackSeparately" then
      Ok(PackAll(SeparateGroups(g, g.entries, db), db))
    else if g.packRule == "PackTogetherByType" then
      if AllTyped(g.entries, db) then Ok(PackAll(TypeGroups(g, TypeKeys(g.entries, db), db), db))
      else Err(NullReference)
    else
      Ok(PackTogether(g, db))
  }

  /** `GenerateBundleLayout(group)`: instantiates the rule and runs it. */
  method GenerateBundleLayout(g: GroupView, db: AssetDatabase) returns (r: Result<seq<BundleBuildLayout>>)
    ensures r == RuleLayouts(g, db)
  {
    if g.packRule == "PackSeparately" {
      var layouts := PackSeparately(g, db);
      r := Ok(layouts);
    } else if g.packRule == "PackTogetherByType" {
      r := PackTogetherByType(g, db);
    } else {
      r := Ok(PackTogether(g, db));
    }
  }

  /** Every rule fails only for an untyped entry under `PackTogetherByType`,
      and its layouts are non-empty and carry the group's guid and copy flag. */
  lemma RuleLayoutsInherit(g: GroupView, db: AssetDatabase)
    ensures RuleLayouts(g, db).Err? <==> g.packRule == "PackTogetherByType" && !AllTyped(g.entries, db)
    ensures RuleLayouts(g, db).Ok? ==>
              forall l :: l in RuleLayouts(g, db).value ==>
                l.allRefAssets != [] && l.groupGuid == g.guid && l.copyToStreamingAssets == g.copyToStreamingAssets
  {
    if g.packRule == "PackSeparately" {
      SeparatelyLayouts(g, db);
    } else if g.packRule == "PackTogetherByType" {
      if AllTyped(g.entries, db) {
        ByTypeInherits(g, TypeKeys(g.entries, db), db);
      }
    }
  }

  /** The rule of each group. */
  function Rules(db: AssetDatabase): GroupView -> Result<seq<BundleBuildLayout>> {
    g => RuleLayouts(g, db)
  }

  /** The layouts with their copy flag set to `copy`. */
  function WithCopy(ls: seq<BundleBuildLayout>, copy: bool): (r: seq<BundleBuildLayout>)
    ensures |r| == |ls|
    ensures forall i :: 0 <= i < |ls| ==>
      r[i].copyToStreamingAssets == copy && r[i].(copyToStreamingAssets := ls[i].copyToStreamingAssets) == ls[i]
  {
    seq(|ls|, i requires 0 <= i < |ls| => ls[i].(copyToStreamingAssets := copy))
  }

  /** Setting the copy flag that every layout already has changes nothing. */
  lemma WithCopyKeeps(ls: seq<BundleBuildLayout>, copy: bool)
    requires forall l :: l in ls ==> l.copyToStreamingAssets == copy
    ensures WithCopy(ls, copy) == ls
  {
    forall i | 0 <= i < |ls| ensures WithCopy(ls, copy)[i] == ls[i] {
      assert ls[i] in ls;
    }
  }

  /** `GenerateCurrentPackageBundleLayouts` over the groups `gs`, with
      `rule` giving a group's layouts: the layouts of each active group in
      turn, with the group's copy flag; the first rule that throws ends the
      build. */
  function PackageLayouts(gs: seq<GroupView>, rule: GroupView -> Result<seq<BundleBuildLayout>>): Result<seq<BundleBuildLayout>> {
    if gs == [] then Ok([])
    else
      var n := |gs| - 1;
      match PackageLayouts(gs[..n], rule)
      case Err(f) => Err(f)
      case Ok(ls) =>
        if !gs[n].active then Ok(ls)
        else
          match rule(gs[n])
          case Err(f) => Err(f)
          case Ok(more) => Ok(ls + WithCopy(more, gs[n].copyToStreamingAssets))
  }

  lemma PackageLayoutsSnoc(gs: seq<GroupView>, i: int, rule: GroupView -> Result<seq<BundleBuildLayout>>)
    requires 0 <= i < |gs|
    ensures PackageLayouts(gs[..i + 1], rule) ==
            match PackageLayouts(gs[..i], rule)
            case Err(f) => Err(f)
            case Ok(ls) =>
              if !gs[i].active then Ok(ls)
              else
                match rule(gs[i])
                case Err(f) => Err(f)
                case Ok(more) => Ok(ls + WithCopy(more, gs[i].copyToStreamingAssets))
  {
    assert gs[..i + 1][..i] == gs[..i];
  }

  /** Once a rule has thrown, later groups do not matter. */
  lemma {:induction false} PackageLayoutsErr(gs: seq<GroupView>, i: int, rule: GroupView -> Result<seq<BundleBuildLayout>>)
    requires 0 <= i <= |gs| && PackageLayouts(gs[..i], rule).Err?
    ensures PackageLayouts(gs, rule) == PackageLayouts(gs[..i], rule)
    decreases |gs| - i
  {
    if i < |gs| {
      PackageLayoutsSnoc(gs, i, rule);
      PackageLayoutsErr(gs, i + 1, rule);
    } else {
      assert gs[..i] == gs;
    }
  }

  /** `GenerateCurrentPackageBundleLayouts`. */
  method GenerateCurrentPackageBundleLayouts(gs: seq<GroupView>, db: AssetDatabase) returns (r: Result<seq<BundleBuildLayout>>)
    ensures r == PackageLayouts(gs, Rules(db))
  {
    ghost var rule := Rules(db);
    var bundleLayouts := [];
    for i := 0 to |gs|
      invariant PackageLayouts(gs[..i], rule) == Ok(bundleLayouts)
    {
      PackageLayoutsSnoc(gs, i, rule);
      if gs[i].active {
        var layouts := GenerateBundleLayout(gs[i], db);
        if layouts.Err? {
          PackageLayoutsErr(gs, i + 1, rule);
          return Err(layouts.fault);
        }
        var ls := SetCopy(layouts.value, gs[i].copyToStreamingAssets);
        bundleLayouts := bundleLayouts + ls;
      }
    }
    assert gs[..|gs|] == gs;
    return Ok(bundleLayouts);
  }

  /** `bundleLayout.CopyToStreamingAssets = copy` for each layout. */
  method SetCopy(layouts: seq<BundleBuildLayout>, copy: bool) returns (ls: seq<BundleBuildLayout>)
    ensures ls == WithCopy(layouts, copy)
  {
    ls := layouts;
    for j := 0 to |ls|
      invariant |ls| == |layouts|
      invariant forall k :: 0 <= k < j ==> ls[k] == layouts[k].(copyToStreamingAssets := copy)
      invariant forall k :: j <= k < |ls| ==> ls[k] == layouts[k]
    {
      ls := ls[j := ls[j].(copyToStreamingAssets := copy)];
    }
  }

  /** The package's layouts are exactly those of its active groups' rules,
      provided each rule already gives its group's copy flag. The build
      fails exactly when the rule of an active group throws. */
  lemma {:induction false} PackageLayoutsAre(gs: seq<GroupView>, rule: GroupView -> Result<seq<BundleBuildLayout>>)
    requires forall g :: rule(g).Ok? ==> forall l :: l in rule(g).value ==> l.copyToStreamingAssets == g.copyToStreamingAssets
    ensures PackageLayouts(gs, rule).Err? <==> exists i :: 0 <= i < |gs| && gs[i].active && rule(gs[i]).Err?
    ensures PackageLayouts(gs, rule).Ok? ==>
              forall l :: l in PackageLayouts(gs, rule).value <==>
                exists i :: 0 <= i < |gs| && gs[i].active && l in rule(gs[i]).value
  {
    if gs != [] {
      var n := |gs| - 1;
      PackageLayoutsAre(gs[..n], rule);
      assert forall i :: 0 <= i < n ==> gs[..n][i] == gs[i];
      if rule(gs[n]).Ok? {
        WithCopyKeeps(rule(gs[n]).value, gs[n].copyToStreamingAssets);
      }
    }
  }

  /** The package's layouts are exactly those of its active groups' rules,
      copy flags included: overwriting the copy flag changes nothing. Each
      is non-empty and carries the guid and the copy flag of its group. The
      build fails exactly when the rule of an active group throws. */
  lemma PackageLayoutsInherit(gs: seq<GroupView>, db: AssetDatabase)
    ensures PackageLayouts(gs, Rules(db)).Err? <==>
              exists i :: 0 <= i < |gs| && gs[i].active && RuleLayouts(gs[i], db).Err?
    ensures PackageLayouts(gs, Rules(db)).Ok? ==>
              forall l :: l in PackageLayouts(gs, Rules(db)).value <==>
                exists i :: 0 <= i < |gs| && gs[i].active && l in RuleLayouts(gs[i], db).value
    ensures PackageLayouts(gs, Rules(db)).Ok? ==>
              forall l :: l in PackageLayouts(gs, Rules(db)).value ==>
                exists i :: 0 <= i < |gs| && gs[i].active && l.allRefAssets != []
                            && l.groupGuid == gs[i].guid && l.copyToStreamingAssets == gs[i].copyToStreamingAssets
  {
    var rule := Rules(db);
    forall g | rule(g).Ok? ensures forall l :: l in rule(g).value ==> l.copyToStreamingAssets == g.copyToStreamingAssets {
      RuleLayoutsInherit(g, db);
    }
    PackageLayoutsAre(gs, rule);
    if PackageLayouts(gs, rule).Ok? {
      forall l | l in PackageLayouts(gs, rule).value
        ensures exists i :: 0 <= i < |gs| && gs[i].active && l.allRefAssets != []
                            && l.groupGuid == gs[i].guid && l.copyToStreamingAssets == gs[i].copyToStreamingAssets
      {
        var i :| 0 <= i < |gs| && gs[i].active && l in rule(gs[i]).value;
        RuleLayoutsInherit(gs[i], db);
      }
    }
  }

  // ---------------------------------------------------------------------
  // Bundle builds
  // ---------------------------------------------------------------------

  /** `AssetBundleBuild`: the name and the assets handed to the build pipeline. */
  datatype AssetBundleBuild = AssetBundleBuild(assetBundleName: string, assetNames: seq<string>)

  /** `CreateAssetBundleBuilds`: one build per layout, in order, named by the
      lower-cased bundle name. */
  function CreateAssetBundleBuilds(ls: seq<BundleBuildLayout>): (r: seq<AssetBundleBuild>)
    ensures |r| == |ls|
    ensures forall i :: 0 <= i < |ls| ==> r[i].assetNames == ls[i].allRefAssets
  {
    seq(|ls|, i requires 0 <= i < |ls| => AssetBundleBuild(ToLower(ls[i].bundleName), ls[i].allRefAssets))
  }

  /** Build names are lower case and agree with their layout's name when
      case is ignored. */
  lemma BuildNamesLower(ls: seq<BundleBuildLayout>)
    ensures forall i :: 0 <= i < |ls| ==>
              var name := CreateAssetBundleBuilds(ls)[i].assetBundleName;
              ToLower(name) == name && name == ToLower(ls[i].bundleName)
  {
    forall i | 0 <= i < |ls| ensures ToLower(ToLower(ls[i].bundleName)) == ToLower(ls[i].bundleName) {
      ToLowerIdempotent(ls[i].bundleName);
    }
  }

  // ---------------------------------------------------------------------
  // Reference counts and duplicate assets
  // ---------------------------------------------------------------------

  /** The assets of each layout. */
  function AssetLists(ls: seq<BundleBuildLayout>): (r: seq<seq<string>>)
    ensures |r| == |ls| && forall i :: 0 <= i < |ls| ==> r[i] == ls[i].allRefAssets
  {
    seq(|ls|, i requires 0 <= i < |ls| => ls[i].allRefAssets)
  }

  /** Every asset reference of the layouts, layout by layout. */
  function AllAssets(ls: seq<BundleBuildLayout>): seq<string> {
    Flatten(AssetLists(ls))
  }

  /** The count `refCount` holds for `a`; 0 for a missing key. */
  function Count(refCount: map<string, nat>, a: string): nat {
    if a in refCount then refCount[a] else 0
  }

  /** The inner loop of the count: `refCount[asset] += 1` for each asset,
      adding a missing key at 0 first. */
  method CountAssets(m0: map<string, nat>, assets: seq<string>) returns (m: map<string, nat>)
    ensures forall a :: a in m <==> a in m0 || a in assets
    ensures forall a :: Count(m, a) == Count(m0, a) + CountOf(assets, a)
  {
    m := m0;
    for j := 0 to |assets|
      invariant forall a :: a in m <==> a in m0 || a in assets[..j]
      invariant forall a :: Count(m, a) == Count(m0, a) + CountOf(assets[..j], a)
    {
      var asset := assets[j];
      assert assets[..j + 1] == assets[..j] + [asset];
      if asset !in m {
        m := m[asset := 0];
      }
      m := m[asset := m[asset] + 1];
    }
    assert assets[..|assets|] == assets;
  }

  /** The reference count of every asset of the layouts. */
  method CountRefs(ls: seq<BundleBuildLayout>) returns (refCount: map<string, nat>)
    ensures forall a :: a in refCount <==> a in AllAssets(ls)
    ensures forall a :: Count(refCount, a) == CountOf(AllAssets(ls), a)
  {
    ghost var lists := AssetLists(ls);
    refCount := map[];
    for i := 0 to |ls|
      invariant forall a :: a in refCount <==> a in Flatten(lists[..i])
      invariant forall a :: Count(refCount, a) == CountOf(Flatten(lists[..i]), a)
    {
      FlattenPrefixStep(lists, i);
      refCount := CountAssets(refCount, ls[i].allRefAssets);
    }
    assert lists[..|ls|] == lists;
  }

  /** The assets referenced two or more times across the layouts. */
  function DupSet(ls: seq<BundleBuildLayout>): set<string> {
    set a | a in AllAssets(ls) && CountOf(AllAssets(ls), a) >= 2
  }

  /** `refCount.Where(v => v.Value >= 2).Select(v => v.Key).ToList()`: the
      keys counted twice or more, in key order. */
  method DuplicateKeys(refCount: map<string, nat>) returns (dups: seq<string>)
    ensures Distinct(dups) && SortedBy(dups, Id)
    ensures forall a :: a in dups <==> a in refCount && refCount[a] >= 2
  {
    var keys := refCount.Keys;
    var found := [];
    while keys != {}
      invariant keys <= refCount.Keys
      invariant Distinct(found)
      invariant forall a :: a in found <==> a in refCount && a !in keys && refCount[a] >= 2
      decreases |keys|
    {
      var k :| k in keys;
      if refCount[k] >= 2 {
        DistinctSnoc(found, k);
        found := found + [k];
      }
      keys := keys - {k};
    }
    dups := Sort(found);
    SortByDistinct(found, Id);
    SortBySameElements(found, Id);
  }

  /** Each layout with the duplicate assets taken out: `AllRefAssets.Except(dups)`. */
  function Strip(ls: seq<BundleBuildLayout>, dups: set<string>): (r: seq<BundleBuildLayout>)
    ensures |r| == |ls|
  {
    seq(|ls|, i requires 0 <= i < |ls| => ls[i].(allRefAssets := Except(ls[i].allRefAssets, dups)))
  }

  /** The loop that strips every layout. */
  method StripDuplicates(ls: seq<BundleBuildLayout>, dups: seq<string>) returns (r: seq<BundleBuildLayout>)
    ensures r == Strip(ls, set a | a in dups)
  {
    var excluded := set a | a in dups;
    r := ls;
    for i := 0 to |r|
      invariant |r| == |ls|
      invariant forall k :: 0 <= k < i ==> r[k] == ls[k].(allRefAssets := Except(ls[k].allRefAssets, excluded))
      invariant forall k :: i <= k < |r| ==> r[k] == ls[k]
    {
      r := r[i := r[i].(allRefAssets := Except(r[i].allRefAssets, excluded))];
    }
  }

  // ---------------------------------------------------------------------
  // The share keyword
  // ---------------------------------------------------------------------

  /** `p[..i]` ends just before a `/` of `p`: a directory level of the path. */
  predicate IsLevel(p: string, i: int) {
    0 <= i < |p| && p[i] == '/'
  }

  /** No `/` before position `i`: `p[..i]` is the first directory level. */
  predicate FirstLevel(p: string, i: int) {
    IsLevel(p, i) && forall j :: 0 <= j < i ==> p[j] != '/'
  }

  lemma SlashAt(p: string, i: int)
    ensures OccursAt(p, "/", i) <==> IsLevel(p, i)
  {
    if 0 <= i < |p| {
      assert p[i..i + 1] == [p[i]];
    }
  }

  /** `paths.Count(v => v.StartsWith(k))`. */
  function Sharing(paths: seq<string>, k: string): nat {
    if paths == [] then 0
    else (if StartsWith(paths[0], k) then 1 else 0) + Sharing(paths[1..], k)
  }

  /** A longer prefix is shared by no more paths. */
  lemma {:induction false} SharingMonotone(paths: seq<string>, k1: string, k2: string)
    requires StartsWith(k2, k1)
    ensures Sharing(paths, k2) <= Sharing(paths, k1)
  {
    if paths != [] {
      SharingMonotone(paths[1..], k1, k2);
      if StartsWith(paths[0], k2) {
        assert paths[0][..|k1|] == k2[..|k1|];
      }
    }
  }

  /** A deeper level is shared by no more paths than a shallower one. */
  lemma LevelSharing(paths: seq<string>, p: string, i: int, j: int)
    requires 0 <= i <= j <= |p|
    ensures Sharing(paths, p[..j]) <= Sharing(paths, p[..i])
  {
    assert p[..j][..i] == p[..i];
    SharingMonotone(paths, p[..i], p[..j]);
  }

  /** The prefix of `paths[0]` the share loop settles on: "" when the path
      has no `/`; otherwise the deepest directory level that two or more of
      `paths` start with, or, when not even the first level is, that first
      level. */
  ghost predicate IsShareKeyword(paths: seq<string>, keyword: string)
    requires paths != []
  {
    var p := paths[0];
    if forall j :: 0 <= j < |p| ==> p[j] != '/' then keyword == ""
    else
      exists i :: IsLevel(p, i) && keyword == p[..i]
                  && (Sharing(paths, p[..i]) >= 2 || FirstLevel(p, i))
                  && forall j :: IsLevel(p, j) && i < j ==> Sharing(paths, p[..j]) < 2
  }

  /** The first directory level of `paths[0]` is shared by no other path. */
  ghost predicate FirstLevelUnshared(paths: seq<string>)
    requires paths != []
  {
    exists i :: FirstLevel(paths[0], i) && Sharing(paths, paths[0][..i]) < 2
  }

  /** The share keyword is determined by the paths. */
  lemma ShareKeywordUnique(paths: seq<string>, k1: string, k2: string)
    requires paths != [] && IsShareKeyword(paths, k1) && IsShareKeyword(paths, k2)
    ensures k1 == k2
  {
    var p := paths[0];
    if exists j :: 0 <= j < |p| && p[j] == '/' {
      var i1 :| IsLevel(p, i1) && k1 == p[..i1]
                && (Sharing(paths, p[..i1]) >= 2 || FirstLevel(p, i1))
                && forall j :: IsLevel(p, j) && i1 < j ==> Sharing(paths, p[..j]) < 2;
      var i2 :| IsLevel(p, i2) && k2 == p[..i2]
                && (Sharing(paths, p[..i2]) >= 2 || FirstLevel(p, i2))
                && forall j :: IsLevel(p, j) && i2 < j ==> Sharing(paths, p[..j]) < 2;
    }
  }

  /** The facts the keyword loops keep: every level before `index` is
      shared by two or more paths, and `keyword` is the last of them. */
  ghost predicate Walked(paths: seq<string>, index: int, keyword: string)
    requires paths != []
  {
    var p := paths[0];
    0 <= index <= |p|
    && (index == 0 ==> keyword == "")
    && (index > 0 ==> IsLevel(p, index - 1) && keyword == p[..index - 1])
    && forall j :: IsLevel(p, j) && j < index ==> Sharing(paths, p[..j]) >= 2
  }

  /** A loop that finds no further `/` has its keyword. */
  lemma WalkedToEnd(paths: seq<string>, index: int, keyword: string)
    requires paths != [] && Walked(paths, index, keyword)
    requires forall j :: index <= j < |paths[0]| ==> paths[0][j] != '/'
    ensures IsShareKeyword(paths, keyword) && StartsWith(paths[0], keyword)
    ensures !FirstLevelUnshared(paths)
  {
    var p := paths[0];
    if index > 0 {
      assert IsLevel(p, index - 1) && keyword == p[..index - 1] && Sharing(paths, p[..index - 1]) >= 2;
      forall i | FirstLevel(p, i) ensures Sharing(paths, p[..i]) >= 2 {
        assert i <= index - 1;
      }
    }
  }

  /** The next `/` at `at` reached a level fewer than two paths share: the
      loop steps back to the level before (`LastIndexOf`), if there is one. */
  lemma SteppedBack(paths: seq<string>, index: int, keyword: string, at: int)
    requires paths != [] && Walked(paths, index, keyword)
    requires index <= at && IsLevel(paths[0], at) && Sharing(paths, paths[0][..at]) < 2
    requires forall j :: index <= j < at ==> paths[0][j] != '/'
    ensures var li := LastIndexOf(paths[0][..at], '/');
            (li < 0 <==> FirstLevelUnshared(paths))
            && (li < 0 ==> IsShareKeyword(paths, paths[0][..at]))
            && (li >= 0 ==> IsShareKeyword(paths, paths[0][..li]))
  {
    var p := paths[0];
    var li := LastIndexOf(p[..at], '/');
    forall j | IsLevel(p, j) && at < j ensures Sharing(paths, p[..j]) < 2 {
      LevelSharing(paths, p, at, j);
    }
    if li < 0 {
      assert forall j :: 0 <= j < at ==> p[..at][j] == p[j];
      assert FirstLevel(p, at);
    } else {
      assert p[li] == p[..at][li];
      assert li < index;
      assert Sharing(paths, p[..li]) >= 2;
      forall j | IsLevel(p, j) && li < j ensures Sharing(paths, p[..j]) < 2 {
      }
      assert p[..at][..li] == p[..li];
      forall i | FirstLevel(p, i) ensures Sharing(paths, p[..i]) >= 2 {
        assert i <= li;
        LevelSharing(paths, p, i, li);
      }
    }
  }

  /** The keyword search of the share loop as written: it walks the
      directory levels of `paths[0]` while two or more paths share them and,
      at the first level that fewer share, steps back to the level before
      with `Substring(0, LastIndexOf("/"))`. At the first level there is no
      `/` to step back to and `Substring(0, -1)` throws. */
  method ShareKeywordAsWritten(paths: seq<string>) returns (r: Result<string>)
    requires paths != []
    ensures r.Err? <==> FirstLevelUnshared(paths)
    ensures r.Err? ==> r.fault == ArgumentOutOfRange
    ensures r.Ok? ==> IsShareKeyword(paths, r.value)
  {
    var p := paths[0];
    var keyword := "";
    var index := 0;
    while true
      invariant Walked(paths, index, keyword)
      decreases |p| - index
    {
      var at := IndexOf(p, "/", index);
      if at < 0 {
        forall j | index <= j < |p| ensures p[j] != '/' {
          SlashAt(p, j);
        }
        WalkedToEnd(paths, index, keyword);
        return Ok(keyword);
      }
      SlashAt(p, at);
      forall j | index <= j < at ensures p[j] != '/' {
        SlashAt(p, j);
      }
      if Sharing(paths, p[..at]) < 2 {
        SteppedBack(paths, index, keyword, at);
        keyword := p[..at];
        var li := LastIndexOf(keyword, '/');
        if li < 0 {
          return Err(ArgumentOutOfRange);
        }
        return Ok(keyword[..li]);
      }
      keyword := p[..at];
      index := at + 1;
    }
  }

  /** The keyword search of the share loop, stepping back only when there is
      a level to step back to: a path whose first level no other path shares
      gets that level as its keyword. */
  method ShareKeyword(paths: seq<string>) returns (keyword: string)
    requires paths != []
    ensures IsShareKeyword(paths, keyword)
  {
    var p := paths[0];
    keyword := "";
    var index := 0;
    while true
      invariant Walked(paths, index, keyword)
      decreases |p| - index
    {
      var at := IndexOf(p, "/", index);
      if at < 0 {
        forall j | index <= j < |p| ensures p[j] != '/' {
          SlashAt(p, j);
        }
        WalkedToEnd(paths, index, keyword);
        return;
      }
      SlashAt(p, at);
      forall j | index <= j < at ensures p[j] != '/' {
        SlashAt(p, j);
      }
      if Sharing(paths, p[..at]) < 2 {
        SteppedBack(paths, index, keyword, at);
        keyword := p[..at];
        var li := LastIndexOf(keyword, '/');
        if li >= 0 {
          keyword := keyword[..li];
        }
        return;
      }
      keyword := p[..at];
      index := at + 1;
    }
  }

  /** The keyword is a prefix of the first path, which therefore goes into
      the share layout. */
  lemma ShareKeywordPrefix(paths: seq<string>, keyword: string)
    requires paths != [] && IsShareKeyword(paths, keyword)
    ensures StartsWith(paths[0], keyword)
  {
    var p := paths[0];
    if exists j :: 0 <= j < |p| && p[j] == '/' {
      var i :| IsLevel(p, i) && keyword == p[..i];
    }
  }

  // ---------------------------------------------------------------------
  // Share layouts
  // ---------------------------------------------------------------------

  /** `$"share_{keyword.Replace("/", "_")}" + BundleSuffix`. */
  function ShareName(keyword: string): string {
    "share_" + Replace(keyword, "/", "_") + BundleSuffix
  }

  /** `paths.Where(v => v.StartsWith(k))`. */
  function WithPrefix(paths: seq<string>, k: string): (r: seq<string>)
    ensures forall a :: a in r <==> a in paths && StartsWith(a, k)
    ensures Distinct(paths) ==> Distinct(r)
  {
    if paths == [] then []
    else
      var rest := WithPrefix(paths[1..], k);
      assert forall a :: a in paths[1..] ==> a in paths;
      if StartsWith(paths[0], k) then [paths[0]] + rest
      else rest
  }

  /** A share layout: no group, copied to streaming assets, named after a
      keyword that all its assets start with, holding distinct assets. */
  ghost predicate IsShare(s: BundleBuildLayout) {
    s.groupGuid == "" && s.copyToStreamingAssets && !s.sceneBundle
    && s.allRefAssets != [] && Distinct(s.allRefAssets)
    && exists k :: s.bundleName == ShareName(k) && forall a :: a in s.allRefAssets ==> StartsWith(a, k)
  }

  /** The assets of `Except` are those of the input that are not excluded. */
  lemma ExceptMembers<T>(s: seq<T>, excluded: set<T>)
    ensures forall x :: x in Except(s, excluded) <==> x in s && x !in excluded
  {
    forall x | x in Except(s, excluded) ensures x in s && x !in excluded {
      var i :| 0 <= i < |Except(s, excluded)| && Except(s, excluded)[i] == x;
    }
    forall x | x in s && x !in excluded ensures x in Except(s, excluded) {
      var i :| 0 <= i < |s| && s[i] == x;
    }
  }

  /** The state of the share loop over the duplicates `dups`: `paths` are
      the duplicates still to place, `shares` the share layouts so far;
      every duplicate is in exactly one of them. */
  ghost predicate SharesSoFar(dups: seq<string>, paths: seq<string>, shares: seq<BundleBuildLayout>) {
    Distinct(paths)
    && (forall s :: s in shares ==> IsShare(s))
    && (forall a :: a in dups <==> a in paths || Holds(shares, a))
    && (forall i, a :: 0 <= i < |shares| && a in shares[i].allRefAssets ==> a !in paths)
    && (forall i, j, a :: 0 <= i < j < |shares| && a in shares[i].allRefAssets ==> a !in shares[j].allRefAssets)
  }

  /** One round of the share loop with the keyword of `paths[0]`: the paths
      starting with it form a share layout and leave the list. */
  method TakeShare(ghost dups: seq<string>, paths: seq<string>, shares: seq<BundleBuildLayout>, keyword: string)
      returns (paths': seq<string>, shares': seq<BundleBuildLayout>)
    requires paths != [] && SharesSoFar(dups, paths, shares) && IsShareKeyword(paths, keyword)
    ensures SharesSoFar(dups, paths', shares') && |paths'| < |paths|
    ensures shares' == shares + [BundleBuildLayout(ShareName(keyword), "", true, false, WithPrefix(paths, keyword))]
    ensures paths' == Except(paths, set a | a in WithPrefix(paths, keyword))
  {
    ShareKeywordPrefix(paths, keyword);
    var assets := WithPrefix(paths, keyword);
    var shareLayout := BundleBuildLayout(ShareName(keyword), "", true, false, assets);
    assert paths[0] in assets;
    shares' := shares + [shareLayout];
    var taken := set a | a in assets;
    ExceptMembers(paths, taken);
    paths' := Except(paths, taken);
    TakenAreHeld(dups, paths, shares, shareLayout, taken);
  }

  /** After a round the duplicates are still exactly those left to place
      or held by a share layout. */
  lemma TakenAreHeld(dups: seq<string>, paths: seq<string>, shares: seq<BundleBuildLayout>,
                     layout: BundleBuildLayout, taken: set<string>)
    requires forall a :: a in dups <==> a in paths || Holds(shares, a)
    requires forall a :: a in taken <==> a in layout.allRefAssets
    requires forall a :: a in taken ==> a in paths
    ensures forall a :: a in dups <==> a in Except(paths, taken) || Holds(shares + [layout], a)
  {
    var shares' := shares + [layout];
    ExceptMembers(paths, taken);
    forall a | a in dups ensures a in Except(paths, taken) || Holds(shares', a) {
      if a in taken {
        assert a in shares'[|shares|].allRefAssets;
      } else if a !in paths {
        var i :| 0 <= i < |shares| && a in shares[i].allRefAssets;
        assert a in shares'[i].allRefAssets;
      }
    }
    forall a | Holds(shares', a) ensures a in dups {
      var i :| 0 <= i < |shares'| && a in shares'[i].allRefAssets;
      if i < |shares| {
        assert a in shares[i].allRefAssets;
      }
    }
  }

  /** The share loop as written: while duplicates remain, the keyword of the
      first is searched, and one share layout takes every remaining path
      that starts with it. A search that throws ends the loop with its
      `ArgumentOutOfRange`, which it does in the first round exactly when
      the first level of the first duplicate is shared by no other. */
  method ShareDuplicates(dups: seq<string>) returns (r: Result<seq<BundleBuildLayout>>)
    requires Distinct(dups)
    ensures r.Ok? ==> (forall s :: s in r.value ==> IsShare(s))
    ensures r.Ok? ==> forall a :: a in dups <==> Holds(r.value, a)
    ensures r.Ok? ==> forall i, j, a :: 0 <= i < j < |r.value| && a in r.value[i].allRefAssets ==> a !in r.value[j].allRefAssets
    ensures r.Err? ==> r.fault == ArgumentOutOfRange
    ensures dups != [] && FirstLevelUnshared(dups) ==> r.Err?
  {
    var paths := dups;
    var shares := [];
    while |paths| > 0
      invariant SharesSoFar(dups, paths, shares)
      invariant dups != [] && FirstLevelUnshared(dups) ==> paths == dups
      decreases |paths|
    {
      var keyword := ShareKeywordAsWritten(paths);
      if keyword.Err? {
        return Err(keyword.fault);
      }
      paths, shares := TakeShare(dups, paths, shares, keyword.value);
    }
    return Ok(shares);
  }

  /** The share loop with the corrected keyword search, which never throws:
      every duplicate lands in exactly one share layout. */
  method ShareDuplicatesCorrected(dups: seq<string>) returns (shares: seq<BundleBuildLayout>)
    requires Distinct(dups)
    ensures forall s :: s in shares ==> IsShare(s)
    ensures forall a :: a in dups <==> Holds(shares, a)
    ensures forall i, j, a :: 0 <= i < j < |shares| && a in shares[i].allRefAssets ==> a !in shares[j].allRefAssets
  {
    var paths := dups;
    shares := [];
    while |paths| > 0
      invariant SharesSoFar(dups, paths, shares)
      decreases |paths|
    {
      var keyword := ShareKeyword(paths);
      paths, shares := TakeShare(dups, paths, shares, keyword);
    }
  }

  // ---------------------------------------------------------------------
  // GenerateBundleLayoutsByGroup
  // ---------------------------------------------------------------------

  /** `out` is what the build makes of the package layouts `base`: each
      layout stripped of the duplicate assets, followed by share layouts
      that hold every duplicate exactly once. */
  ghost predicate ByGroup(base: seq<BundleBuildLayout>, out: seq<BundleBuildLayout>) {
    |base| <= |out| && out[..|base|] == Strip(base, DupSet(base))
    && (forall s :: s in out[|base|..] ==> IsShare(s))
    && (forall a :: a in DupSet(base) <==> Holds(out[|base|..], a))
    && (forall i, j, a :: |base| <= i < j < |out| && a in out[i].allRefAssets ==> a !in out[j].allRefAssets)
  }

  /** The middle of `GenerateBundleLayoutsByGroup`: the references to each
      asset are counted, the duplicates listed in ordinal order, and the
      layouts stripped of them. */
  method StripShared(ls: seq<BundleBuildLayout>) returns (stripped: seq<BundleBuildLayout>, dups: seq<string>)
    ensures stripped == Strip(ls, DupSet(ls))
    ensures Distinct(dups) && SortedBy(dups, Id)
    ensures forall a :: a in dups <==> a in DupSet(ls)
  {
    var refCount := CountRefs(ls);
    dups := DuplicateKeys(refCount);
    assert (set a | a in dups) == DupSet(ls) by {
      forall a ensures a in dups <==> a in DupSet(ls) {
        assert a in refCount ==> Count(refCount, a) == refCount[a];
      }
    }
    stripped := StripDuplicates(ls, dups);
  }

  /** The stripped layouts followed by the share layouts of the duplicates
      are what `ByGroup` describes. */
  lemma StrippedThenShared(base: seq<BundleBuildLayout>, stripped: seq<BundleBuildLayout>, dups: seq<string>, shares: seq<BundleBuildLayout>)
    requires stripped == Strip(base, DupSet(base))
    requires forall a :: a in dups <==> a in DupSet(base)
    requires forall s :: s in shares ==> IsShare(s)
    requires forall a :: a in dups <==> Holds(shares, a)
    requires forall i, j, a :: 0 <= i < j < |shares| && a in shares[i].allRefAssets ==> a !in shares[j].allRefAssets
    ensures ByGroup(base, stripped + shares)
  {
    var out := stripped + shares;
    assert out[..|stripped|] == stripped;
    assert out[|stripped|..] == shares;
  }

  /** `GenerateBundleLayoutsByGroup` as written: packs the current package,
      counts the references to each asset, strips the assets referenced
      twice or more and regroups them into share layouts, whose keyword
      search can throw. A lone duplicate with a directory in its path
      always makes it throw. */
  method GenerateBundleLayoutsByGroup(gs: seq<GroupView>, db: AssetDatabase) returns (r: Result<seq<BundleBuildLayout>>)
    ensures PackageLayouts(gs, Rules(db)).Err? ==> r == PackageLayouts(gs, Rules(db))
    ensures PackageLayouts(gs, Rules(db)).Ok? && r.Ok? ==> ByGroup(PackageLayouts(gs, Rules(db)).value, r.value)
    ensures PackageLayouts(gs, Rules(db)).Ok? && r.Err? ==> r.fault == ArgumentOutOfRange
    ensures var base := PackageLayouts(gs, Rules(db));
      forall x :: base.Ok? && DupSet(base.value) == {x} && FirstLevelUnshared([x]) ==> r.Err?
  {
    var res := GenerateCurrentPackageBundleLayouts(gs, db);
    if res.Err? {
      return res;
    }
    var bundleLayouts := res.value;
    var stripped, dups := StripShared(bundleLayouts);
    var shares := ShareDuplicates(dups);
    if shares.Err? {
      return Err(shares.fault);
    }
    StrippedThenShared(bundleLayouts, stripped, dups, shares.value);
    r := Ok(stripped + shares.value);
    forall x | DupSet(bundleLayouts) == {x} ensures !FirstLevelUnshared([x]) {
      LoneIsSingleton(dups, x);
    }
  }

  /** `GenerateBundleLayoutsByGroup` with the corrected share loop: a failed
      package build is passed on, and otherwise the result is the package
      layouts stripped of the duplicates followed by share layouts holding
      every duplicate exactly once. */
  method GenerateBundleLayoutsByGroupCorrected(gs: seq<GroupView>, db: AssetDatabase) returns (r: Result<seq<BundleBuildLayout>>)
    ensures PackageLayouts(gs, Rules(db)).Err? ==> r == PackageLayouts(gs, Rules(db))
    ensures PackageLayouts(gs, Rules(db)).Ok? ==> r.Ok? && ByGroup(PackageLayouts(gs, Rules(db)).value, r.value)
  {
    var res := GenerateCurrentPackageBundleLayouts(gs, db);
    if res.Err? {
      return res;
    }
    var bundleLayouts := res.value;
    var stripped, dups := StripShared(bundleLayouts);
    var shares := ShareDuplicatesCorrected(dups);
    StrippedThenShared(bundleLayouts, stripped, dups, shares);
    r := Ok(stripped + shares);
  }

  /** A duplicate-free list whose only element is `x` is `[x]`. */
  lemma LoneIsSingleton(s: seq<string>, x: string)
    requires Distinct(s) && forall a :: a in s <==> a == x
    ensures s == [x]
  {
    assert x in s && s[0] in s;
    CountAllSame(s, x);
    MultisetAtMostOne(s, x);
  }

  /** A list holding nothing but `x` holds it as often as it is long. */
  lemma {:induction false} CountAllSame(s: seq<string>, x: string)
    requires forall a :: a in s ==> a == x
    ensures multiset(s)[x] == |s|
  {
    if s != [] {
      assert s == [s[0]] + s[1..] && s[0] in s;
      assert forall a :: a in s[1..] ==> a in s;
      CountAllSame(s[1..], x);
    }
  }

  /** An asset of a layout is among all assets. */
  lemma InAllAssets(ls: seq<BundleBuildLayout>, i: int)
    requires 0 <= i < |ls|
    ensures forall a :: a in ls[i].allRefAssets ==> a in AllAssets(ls)
  {
    FlattenHolds(AssetLists(ls), i);
  }

  /** An asset referenced by two layouts is a duplicate. */
  lemma TwiceIsDup(ls: seq<BundleBuildLayout>, i: int, j: int, a: string)
    requires 0 <= i < j < |ls| && a in ls[i].allRefAssets && a in ls[j].allRefAssets
    ensures a in DupSet(ls)
  {
    var lists := AssetLists(ls);
    assert lists[..j] + lists[j..] == lists;
    FlattenAppend(lists[..j], lists[j..]);
    FlattenHolds(lists[..j], i);
    FlattenHolds(lists[j..], 0);
    assert a in Flatten(lists[..j]) && a in Flatten(lists[j..]);
    assert multiset(AllAssets(ls)) == multiset(Flatten(lists[..j])) + multiset(Flatten(lists[j..]));
    InAllAssets(ls, i);
  }

  /** A stripped layout keeps exactly its assets that are not duplicates. */
  lemma StripKeeps(base: seq<BundleBuildLayout>, i: int)
    requires 0 <= i < |base|
    ensures var l := Strip(base, DupSet(base))[i];
            Distinct(l.allRefAssets)
            && forall a :: a in l.allRefAssets <==> a in base[i].allRefAssets && a !in DupSet(base)
  {
    ExceptMembers(base[i].allRefAssets, DupSet(base));
  }

  /** Some layout of `ls` references `a`. */
  ghost predicate Holds(ls: seq<BundleBuildLayout>, a: string) {
    exists i :: 0 <= i < |ls| && a in ls[i].allRefAssets
  }

  /** A stripped layout keeps exactly those of its assets that no other
      layout references, each once. */
  lemma ByGroupStripped(base: seq<BundleBuildLayout>, out: seq<BundleBuildLayout>)
    requires ByGroup(base, out)
    ensures forall i :: 0 <= i < |base| ==> Distinct(out[i].allRefAssets)
    ensures forall i, a :: 0 <= i < |base| ==>
              (a in out[i].allRefAssets <==> a in base[i].allRefAssets && a !in DupSet(base))
  {
    forall i | 0 <= i < |base|
      ensures Distinct(out[i].allRefAssets)
      ensures forall a :: a in out[i].allRefAssets <==> a in base[i].allRefAssets && a !in DupSet(base)
    {
      assert out[i] == out[..|base|][i];
      StripKeeps(base, i);
    }
  }

  /** No asset is in two of the build's layouts, and none is twice in one. */
  lemma ByGroupDisjoint(base: seq<BundleBuildLayout>, out: seq<BundleBuildLayout>)
    requires ByGroup(base, out)
    ensures forall i :: 0 <= i < |out| ==> Distinct(out[i].allRefAssets)
    ensures forall i, j, a :: 0 <= i < j < |out| && a in out[i].allRefAssets ==> a !in out[j].allRefAssets
  {
    var n := |base|;
    ByGroupStripped(base, out);
    forall i | n <= i < |out| ensures Distinct(out[i].allRefAssets) {
      assert out[i] in out[n..];
    }
    forall i, j, a | 0 <= i < j < |out| && a in out[i].allRefAssets ensures a !in out[j].allRefAssets {
      if j < n && a in out[j].allRefAssets {
        TwiceIsDup(base, i, j, a);
      } else if i < n && a in out[j].allRefAssets {
        assert Holds(out[n..], a) by { assert a in out[n..][j - n].allRefAssets; }
      }
    }
  }

  /** Every asset of the package layouts stays in the build's layouts. */
  lemma ByGroupKeepsAssets(base: seq<BundleBuildLayout>, out: seq<BundleBuildLayout>)
    requires ByGroup(base, out)
    ensures forall a :: Holds(base, a) ==> Holds(out, a)
  {
    var n := |base|;
    ByGroupStripped(base, out);
    forall a | Holds(base, a) ensures Holds(out, a) {
      var i :| 0 <= i < n && a in base[i].allRefAssets;
      if a !in DupSet(base) {
        assert a in out[i].allRefAssets;
      } else {
        var k :| 0 <= k < |out[n..]| && a in out[n..][k].allRefAssets;
        assert a in out[n + k].allRefAssets;
      }
    }
  }

  /** The build's layouts add no asset the package layouts lack. */
  lemma ByGroupAddsNoAsset(base: seq<BundleBuildLayout>, out: seq<BundleBuildLayout>)
    requires ByGroup(base, out)
    ensures forall a :: Holds(out, a) ==> Holds(base, a)
  {
    var n := |base|;
    ByGroupStripped(base, out);
    forall a | Holds(out, a) ensures Holds(base, a) {
      var i :| 0 <= i < |out| && a in out[i].allRefAssets;
      if i >= n {
        assert a in out[n..][i - n].allRefAssets;
        assert a in DupSet(base);
        FlattenFrom(AssetLists(base));
        var k :| 0 <= k < n && a in AssetLists(base)[k];
      }
    }
  }

  /** The build's layouts reference the same assets as the package layouts. */
  lemma ByGroupSameAssets(base: seq<BundleBuildLayout>, out: seq<BundleBuildLayout>)
    requires ByGroup(base, out)
    ensures forall a :: Holds(base, a) <==> Holds(out, a)
  {
    ByGroupKeepsAssets(base, out);
    ByGroupAddsNoAsset(base, out);
  }

  // ---------------------------------------------------------------------
  // The share loop on a lone duplicate
  // ---------------------------------------------------------------------

  /** A layout holding one asset. */
  function Holding(name: string, asset: string): BundleBuildLayout {
    BundleBuildLayout(name, "", false, false, [asset])
  }

  /** Two groups that both pack `Assets/a.png` make it the only duplicate,
      and the first level `Assets` of its path is shared by no other
      duplicate: the keyword search as written throws for these layouts. */
  lemma LoneDuplicateThrows()
    ensures DupSet([Holding("g1_asset.bundle", "Assets/a.png"), Holding("g2_asset.bundle", "Assets/a.png")]) == {"Assets/a.png"}
    ensures FirstLevelUnshared(["Assets/a.png"])
  {
    var ls := [Holding("g1_asset.bundle", "Assets/a.png"), Holding("g2_asset.bundle", "Assets/a.png")];
    TwiceIsDup(ls, 0, 1, "Assets/a.png");
    assert AssetLists(ls) == [["Assets/a.png"], ["Assets/a.png"]];
    assert AllAssets(ls) == ["Assets/a.png", "Assets/a.png"];
    var p := "Assets/a.png";
    assert FirstLevel(p, 6);
    assert Sharing([p], p[..6]) == 1;
  }
}
