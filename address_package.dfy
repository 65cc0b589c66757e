/** A package of groups (`AssetAddressPackage`): the groups in folder-path
    order, a lazily filled lookup from folder paths and group names to
    groups, and lookups that visit the groups in turn. */
module Packages {
  import opened Wrappers
  import opened Strings
  import opened Collections
  import opened Engine
  import opened Entries
  import opened Groups
  import opened Sorting

  /** `ReplaceOnce(str, oldStr, newStr)` as written: "" for an empty `str`;
      otherwise what follows the first occurrence of `oldStr`, or `str` when
      there is none. `newStr` is not used. */
  function ReplaceOnce(str: string, oldStr: string, newStr: string): (r: string)
    ensures str == "" ==> r == ""
    ensures str != "" && !Contains(str, oldStr) ==> r == str
    ensures EndsWith(str, r)
    ensures str != "" && Contains(str, oldStr) ==>
      EndsWith(str, r) && |r| == |str| - |oldStr| - IndexOf(str, oldStr, 0)
  {
    if str == "" then ""
    else
      var i := IndexOf(str, oldStr, 0);
      if i >= 0 then str[i + |oldStr|..] else str
  }

  /** Replacing the first occurrence of `oldStr` by `newStr`, as the name suggests. */
  function ReplaceFirst(str: string, oldStr: string, newStr: string): (r: string)
    ensures !Contains(str, oldStr) ==> r == str
    ensures Contains(str, oldStr) ==>
      |r| == |str| - |oldStr| + |newStr| && StartsWith(r, str[..IndexOf(str, oldStr, 0)])
  {
    var i := IndexOf(str, oldStr, 0);
    if i >= 0 then
      var r := str[..i] + newStr + str[i + |oldStr|..];
      assert r[..i] == str[..i];
      r
    else str
  }

  /** `ReplaceOnce` keeps only what follows the first occurrence: the text
      before it is lost, so it agrees with deleting the occurrence exactly
      when the occurrence starts the string. */
  lemma ReplaceOnceDropsPrefix(str: string, oldStr: string, newStr: string)
    requires str != "" && Contains(str, oldStr)
    ensures str[..IndexOf(str, oldStr, 0)] + ReplaceOnce(str, oldStr, newStr) == ReplaceFirst(str, oldStr, "")
    ensures ReplaceOnce(str, oldStr, newStr) == ReplaceFirst(str, oldStr, "") <==> StartsWith(str, oldStr)
  {
    var i := IndexOf(str, oldStr, 0);
    var once := ReplaceOnce(str, oldStr, newStr);
    assert str[..i] + once == ReplaceFirst(str, oldStr, "");
    if StartsWith(str, oldStr) {
      assert OccursAt(str, oldStr, 0);
    }
  }

  /** The group name `AddGroup` derives from a folder path when none is given. */
  function DefaultGroupName(folderPath: string): (r: string)
    ensures forall i :: 0 <= i < |r| ==> r[i] != '/' && r[i] != '\\'
  {
    var flat := FlatPath(folderPath);
    var once := ReplaceOnce(flat, "Assets_", "");
    var r := ReplaceOnce(once, "GameAssets_", "");
    SuffixKeepsAbsence(once, flat);
    SuffixKeepsAbsence(r, once);
    r
  }

  /** Both separators turned into `_`. */
  function FlatPath(p: string): (r: string)
    ensures forall i :: 0 <= i < |r| ==> r[i] != '/' && r[i] != '\\'
  {
    ReplaceOneCharIsReplaceChar(p, '\\', '/');
    ReplaceOneCharIsReplaceChar(ReplaceChar(p, '\\', '/'), '/', '_');
    Replace(Replace(p, "\\", "/"), "/", "_")
  }

  lemma SuffixKeepsAbsence(r: string, s: string)
    requires EndsWith(s, r)
    requires forall i :: 0 <= i < |s| ==> s[i] != '/' && s[i] != '\\'
    ensures forall i :: 0 <= i < |r| ==> r[i] != '/' && r[i] != '\\'
  {
    forall i | 0 <= i < |r| ensures r[i] != '/' && r[i] != '\\' {
      assert r[i] == s[|s| - |r| + i];
    }
  }

  /** The lookup `GetGroupFromCache` fills on a miss: each group is filed
      under its folder path and then its group name, later groups
      overwriting earlier ones. */
  function Refill(m: map<string, AssetAddressGroupInfo>, gs: seq<AssetAddressGroupInfo>): map<string, AssetAddressGroupInfo>
    reads gs`folderPath, gs`groupName
  {
    if gs == [] then m
    else
      var g := gs[|gs| - 1];
      Refill(m, gs[..|gs| - 1])[g.folderPath := g][g.groupName := g]
  }

  /** The last position whose group has `k` as its folder path or group name, or -1. */
  function LastNamed(gs: seq<AssetAddressGroupInfo>, k: string): (r: int)
    reads gs`folderPath, gs`groupName
    ensures -1 <= r < |gs|
    ensures r >= 0 ==> gs[r].folderPath == k || gs[r].groupName == k
    ensures forall i :: r < i < |gs| ==> gs[i].folderPath != k && gs[i].groupName != k
  {
    if gs == [] then -1
    else if gs[|gs| - 1].folderPath == k || gs[|gs| - 1].groupName == k then |gs| - 1
    else LastNamed(gs[..|gs| - 1], k)
  }

  /** After a refill, `k` names the last group filed under it, and is
      absent when neither the old lookup nor any group has it. */
  lemma {:induction false} RefillLookup(m: map<string, AssetAddressGroupInfo>, gs: seq<AssetAddressGroupInfo>, k: string)
    ensures k in Refill(m, gs) <==> k in m || LastNamed(gs, k) >= 0
    ensures LastNamed(gs, k) >= 0 ==> Refill(m, gs)[k] == gs[LastNamed(gs, k)]
    ensures LastNamed(gs, k) < 0 && k in m ==> Refill(m, gs)[k] == m[k]
    decreases |gs|
  {
    if gs != [] {
      RefillLookup(m, gs[..|gs| - 1], k);
    }
  }

  /** Every group a refill files is an old value or one of the groups. */
  lemma {:induction false} RefillValues(m: map<string, AssetAddressGroupInfo>, gs: seq<AssetAddressGroupInfo>)
    ensures forall g :: g in Refill(m, gs).Values ==> g in m.Values || g in gs
    decreases |gs|
  {
    if gs != [] {
      var front := gs[..|gs| - 1];
      RefillValues(m, front);
      var g := gs[|gs| - 1];
      var r := Refill(m, gs);
      forall x | x in r.Values ensures x in m.Values || x in gs {
        var k :| k in r && r[k] == x;
        if k != g.folderPath && k != g.groupName {
          assert Refill(m, front)[k] == x;
          assert x in Refill(m, front).Values;
        }
      }
    }
  }

  /** The last position whose folder path is a prefix of `path` (`FindLast`), or -1. */
  function LastMatch(gs: seq<AssetAddressGroupInfo>, path: string): (r: int)
    reads gs`folderPath
    ensures -1 <= r < |gs|
    ensures r >= 0 ==> StartsWith(path, gs[r].folderPath)
    ensures forall i :: r < i < |gs| ==> !StartsWith(path, gs[i].folderPath)
  {
    if gs == [] then -1
    else if StartsWith(path, gs[|gs| - 1].folderPath) then |gs| - 1
    else LastMatch(gs[..|gs| - 1], path)
  }

  /** The first position whose folder path is exactly `path` (`Find`), or -1. */
  function FindFolder(gs: seq<AssetAddressGroupInfo>, path: string): (r: int)
    reads gs`folderPath
    ensures -1 <= r < |gs|
    ensures r >= 0 ==> gs[r].folderPath == path
    ensures forall i :: 0 <= i < |gs| && (r < 0 || i < r) ==> gs[i].folderPath != path
  {
    if gs == [] then -1
    else if gs[0].folderPath == path then 0
    else
      var r := FindFolder(gs[1..], path);
      if r < 0 then -1 else r + 1
  }

  ghost predicate SortedByFolder(gs: seq<AssetAddressGroupInfo>)
    reads gs`folderPath
  {
    forall i :: 0 < i < |gs| ==> Le(gs[i - 1].folderPath, gs[i].folderPath)
  }

  function InsertByFolder(g: AssetAddressGroupInfo, gs: seq<AssetAddressGroupInfo>): (r: seq<AssetAddressGroupInfo>)
    reads g`folderPath, gs`folderPath
    requires SortedByFolder(gs)
    ensures SortedByFolder(r)
    ensures multiset(r) == multiset(gs) + multiset{g}
    ensures r[0] == g || (gs != [] && r[0] == gs[0])
  {
    if gs == [] then [g]
    else if Le(gs[0].folderPath, g.folderPath) then
      var rest := InsertByFolder(g, gs[1..]);
      assert gs == [gs[0]] + gs[1..];
      assert |gs| > 1 ==> Le(gs[0].folderPath, gs[1].folderPath);
      ConsSortedByFolder(gs[0], rest);
      [gs[0]] + rest
    else
      LeTotal(gs[0].folderPath, g.folderPath);
      ConsSortedByFolder(g, gs);
      [g] + gs
  }

  lemma ConsSortedByFolder(x: AssetAddressGroupInfo, gs: seq<AssetAddressGroupInfo>)
    requires SortedByFolder(gs)
    requires gs != [] ==> Le(x.folderPath, gs[0].folderPath)
    ensures SortedByFolder([x] + gs)
  {
  }

  /** `groups.Sort((a, b) => string.CompareOrdinal(a.FolderPath, b.FolderPath))`, as a stable sort.
      `List.Sort` is not stable; the two agree whenever the folder paths are
      distinct, as they are when every group came through `AddGroup`, which
      adds a folder only when `GetGroup` finds no group for it. */
  function SortByFolder(gs: seq<AssetAddressGroupInfo>): (r: seq<AssetAddressGroupInfo>)
    reads gs`folderPath
    ensures SortedByFolder(r)
    ensures multiset(r) == multiset(gs)
  {
    if gs == [] then []
    else
      var front := gs[..|gs| - 1];
      assert gs == front + [gs[|gs| - 1]];
      var sorted := SortByFolder(front);
      assert forall i | 0 <= i < |sorted| :: sorted[i] in gs by {
        forall i | 0 <= i < |sorted| ensures sorted[i] in gs {
          assert sorted[i] in multiset(front);
        }
      }
      InsertByFolder(gs[|gs| - 1], sorted)
  }

  /** In a sorted list every earlier folder path is at most every later one. */
  lemma {:induction false} SortedByFolderPairs(gs: seq<AssetAddressGroupInfo>, i: int, j: int)
    requires SortedByFolder(gs) && 0 <= i <= j < |gs|
    ensures Le(gs[i].folderPath, gs[j].folderPath)
    decreases j - i
  {
    if i == j {
      LeReflexive(gs[i].folderPath);
    } else {
      SortedByFolderPairs(gs, i, j - 1);
      LeTransitive(gs[i].folderPath, gs[j - 1].folderPath, gs[j].folderPath);
    }
  }

  /** In folder-path order, the group `GetMatchGroup` picks has the longest
      folder path among the groups whose folder path starts `path`. */
  lemma MatchIsLongest(gs: seq<AssetAddressGroupInfo>, path: string, i: int)
    requires SortedByFolder(gs)
    requires 0 <= i < |gs| && StartsWith(path, gs[i].folderPath)
    ensures LastMatch(gs, path) >= i
    ensures |gs[i].folderPath| <= |gs[LastMatch(gs, path)].folderPath|
  {
    var j := LastMatch(gs, path);
    var a := gs[i].folderPath;
    var b := gs[j].folderPath;
    if |a| > |b| {
      assert a[..|b|] == path[..|b|] == b;
      PrefixLe(b, a);
      SortedByFolderPairs(gs, i, j);
      LeAntisymmetric(a, b);
    }
  }

  /** Each group's entry list, in list order. */
  function EntriesOf(gs: seq<AssetAddressGroupInfo>): (r: seq<seq<AssetAddressEntry>>)
    reads gs`entries
    ensures |r| == |gs|
    ensures forall i :: 0 <= i < |gs| ==> r[i] == gs[i].entries
  {
    if gs == [] then [] else [gs[0].entries] + EntriesOf(gs[1..])
  }

  /** Each group's cache as it stands, in list order. */
  function CachesOf(gs: seq<AssetAddressGroupInfo>): (r: seq<Cache>)
    reads gs
    ensures |r| == |gs|
    ensures forall i :: 0 <= i < |gs| ==> r[i] == gs[i].entriesCache
  {
    if gs == [] then [] else [gs[0].entriesCache] + CachesOf(gs[1..])
  }

  /** Each group's `CacheView`, in list order. */
  ghost function ViewsOf(gs: seq<AssetAddressGroupInfo>): (r: seq<Cache>)
    reads gs, set i, j | 0 <= i < |gs| && 0 <= j < |gs[i].entries| :: gs[i].entries[j]
    ensures |r| == |gs|
    ensures forall i :: 0 <= i < |gs| ==> r[i] == gs[i].CacheView()
  {
    if gs == [] then []
    else
      assert forall j :: 0 <= j < |gs[0].entries| ==> gs[0].entries[j] == gs[0].entries[j];
      [gs[0].CacheView()] + ViewsOf(gs[1..])
  }

  /** The first position whose cache lists something under `key`, or -1. */
  function FirstHit(caches: seq<Cache>, key: string): (r: int)
    ensures -1 <= r < |caches|
    ensures r >= 0 ==> Lookup(caches[r], key) != []
    ensures forall i :: 0 <= i < |caches| && (r < 0 || i < r) ==> Lookup(caches[i], key) == []
  {
    if caches == [] then -1
    else if Lookup(caches[0], key) != [] then 0
    else
      var r := FirstHit(caches[1..], key);
      if r < 0 then -1 else r + 1
  }

  lemma FirstHitAt(caches: seq<Cache>, key: string, i: int)
    requires 0 <= i < |caches| && Lookup(caches[i], key) != []
    requires forall j :: 0 <= j < i ==> Lookup(caches[j], key) == []
    ensures FirstHit(caches, key) == i
  {
  }

  /** The first position whose group lists something under `key` once its
      cache is rebuilt, or -1. */
  ghost function FirstHitIn(gs: seq<AssetAddressGroupInfo>, key: string): (r: int)
    reads gs, set i, j | 0 <= i < |gs| && 0 <= j < |gs[i].entries| :: gs[i].entries[j]
    ensures -1 <= r < |gs|
    ensures r >= 0 ==> Lookup(gs[r].CacheView(), key) != []
    ensures forall i :: 0 <= i < |gs| && (r < 0 || i < r) ==> Lookup(gs[i].CacheView(), key) == []
  {
    if gs == [] then -1
    else
      assert forall j :: 0 <= j < |gs[0].entries| ==> gs[0].entries[j] == gs[0].entries[j];
      if Lookup(gs[0].CacheView(), key) != [] then 0
      else
        var r := FirstHitIn(gs[1..], key);
        if r < 0 then -1 else r + 1
  }

  /** `FirstHitIn` is `FirstHit` over the groups' rebuilt caches. */
  lemma {:induction false} FirstHitInViews(gs: seq<AssetAddressGroupInfo>, key: string)
    ensures FirstHitIn(gs, key) == FirstHit(ViewsOf(gs), key)
  {
    if gs != [] {
      FirstHitInViews(gs[1..], key);
      assert ViewsOf(gs)[1..] == ViewsOf(gs[1..]);
    }
  }

  /** The entry a lookup of `key` returns from caches seen in this order:
      the first one listed under `key` in the first cache that has one. */
  function HitIn(views: seq<Cache>, key: string): (r: Option<AssetAddressEntry>)
    ensures r.None? <==> forall i :: 0 <= i < |views| ==> Lookup(views[i], key) == []
    ensures r.Some? ==> exists i :: 0 <= i < |views| && Lookup(views[i], key) != [] && r.value == Lookup(views[i], key)[0]
  {
    var h := FirstHit(views, key);
    if h < 0 then None else Some(Lookup(views[h], key)[0])
  }

  /** A lookup over two runs of caches answers from the first run if it can. */
  lemma {:induction false} HitInAppend(a: seq<Cache>, b: seq<Cache>, key: string)
    ensures HitIn(a + b, key) == if HitIn(a, key).Some? then HitIn(a, key) else HitIn(b, key)
  {
    if a == [] {
      assert a + b == b;
    } else {
      assert (a + b)[1..] == a[1..] + b;
      HitInAppend(a[1..], b, key);
      if Lookup(a[0], key) == [] {
        assert HitIn(a + b, key) == HitIn(a[1..] + b, key);
        assert HitIn(a, key) == HitIn(a[1..], key);
      }
    }
  }

  /** Every list filed under `key`, in group order (`AddRange`). */
  function AllUnder(caches: seq<Cache>, key: string): seq<AssetAddressEntry> {
    if caches == [] then [] else Lookup(caches[0], key) + AllUnder(caches[1..], key)
  }

  lemma {:induction false} AllUnderAppend(a: seq<Cache>, b: seq<Cache>, key: string)
    ensures AllUnder(a + b, key) == AllUnder(a, key) + AllUnder(b, key)
  {
    if a == [] {
      assert a + b == b;
    } else {
      assert (a + b)[1..] == a[1..] + b;
      AllUnderAppend(a[1..], b, key);
    }
  }

  lemma AllUnderStep(caches: seq<Cache>, i: int, key: string)
    requires 0 <= i < |caches|
    ensures AllUnder(caches[..i + 1], key) == AllUnder(caches[..i], key) + Lookup(caches[i], key)
  {
    assert caches[..i + 1] == caches[..i] + [caches[i]];
    AllUnderAppend(caches[..i], [caches[i]], key);
  }

  /** The collected list is non-empty exactly when some group has a hit, and
      it starts with that first hit's entry: `GetAssetInfos` and
      `GetAssetInfo` agree. */
  lemma {:induction false} AllUnderStartsWithFirstHit(caches: seq<Cache>, key: string)
    ensures AllUnder(caches, key) == [] <==> FirstHit(caches, key) < 0
    ensures FirstHit(caches, key) >= 0 ==>
      AllUnder(caches, key)[0] == Lookup(caches[FirstHit(caches, key)], key)[0]
  {
    if caches != [] {
      AllUnderStartsWithFirstHit(caches[1..], key);
    }
  }

  /** The first position whose group holds an entry with path or address `p`, or -1. */
  function FirstHolder(gs: seq<AssetAddressGroupInfo>, p: string): (r: int)
    reads gs`entries, (set i, j | 0 <= i < |gs| && 0 <= j < |gs[i].entries| :: gs[i].entries[j])`assetPath
    reads (set i, j | 0 <= i < |gs| && 0 <= j < |gs[i].entries| :: gs[i].entries[j])`address
    ensures -1 <= r < |gs|
    ensures r >= 0 ==> FindEntry(gs[r].entries, p) >= 0
    ensures forall i :: 0 <= i < |gs| && (r < 0 || i < r) ==> FindEntry(gs[i].entries, p) < 0
  {
    if gs == [] then -1
    else if FindEntry(gs[0].entries, p) >= 0 then 0
    else
      var r := FirstHolder(gs[1..], p);
      if r < 0 then -1 else r + 1
  }

  /** Each list's entries' (path, address) pairs. */
  ghost function GroupKeys(ess: seq<seq<AssetAddressEntry>>): (r: seq<seq<(string, string)>>)
    reads (set i, j | 0 <= i < |ess| && 0 <= j < |ess[i]| :: ess[i][j])`assetPath
    reads (set i, j | 0 <= i < |ess| && 0 <= j < |ess[i]| :: ess[i][j])`address
    ensures |r| == |ess|
    ensures forall i :: 0 <= i < |ess| ==> KeysMatch(ess[i], r[i])
  {
    if ess == [] then [] else [EntryKeys(ess[0])] + GroupKeys(ess[1..])
  }

  /** `FirstHolder` on (path, address) pairs. */
  function FirstKeyHolder(kss: seq<seq<(string, string)>>, p: string): (r: int)
    ensures -1 <= r < |kss|
    ensures forall i :: 0 <= i < |kss| && (r < 0 || i < r) ==> FindKey(kss[i], p) < 0
    ensures r >= 0 ==> FindKey(kss[r], p) >= 0
  {
    if kss == [] then -1
    else if FindKey(kss[0], p) >= 0 then 0
    else
      var r := FirstKeyHolder(kss[1..], p);
      if r < 0 then -1 else r + 1
  }

  lemma {:induction false} KeyHolderIsFirstHolder(gs: seq<AssetAddressGroupInfo>, kss: seq<seq<(string, string)>>, p: string)
    requires |gs| == |kss| && forall i :: 0 <= i < |gs| ==> KeysMatch(gs[i].entries, kss[i])
    ensures FirstHolder(gs, p) == FirstKeyHolder(kss, p)
  {
    if gs != [] {
      FindKeyIsFindEntry(gs[0].entries, kss[0], p);
      KeyHolderIsFirstHolder(gs[1..], kss[1..], p);
    }
  }

  class AssetAddressPackage {
    var packageName: string
    var version: string
    var buildPath: string
    var loadPath: string
    var groups: seq<AssetAddressGroupInfo>
    var groupsCache: map<string, AssetAddressGroupInfo>

    /** The list holds each group once: every group it gains is new. */
    ghost predicate Valid()
      reads this
    {
      Distinct(groups)
    }

    constructor ()
      ensures packageName == "" && version == "" && buildPath == "" && loadPath == ""
      ensures groups == [] && groupsCache == map[]
      ensures Valid()
    {
      packageName := "";
      version := "";
      buildPath := "";
      loadPath := "";
      groups := [];
      groupsCache := map[];
    }

    /** `GetGroupFromCache` (and `GetGroup`): a miss refills the lookup from every group. */
    method GetGroup(key: string) returns (r: Option<AssetAddressGroupInfo>)
      requires Valid()
      modifies this`groupsCache
      ensures Valid()
      ensures groupsCache == if key in old(groupsCache) then old(groupsCache) else old(Refill(groupsCache, groups))
      ensures r == if key in groupsCache then Some(groupsCache[key]) else None
    {
      if key !in groupsCache {
        var i := 0;
        while i < |groups|
          invariant 0 <= i <= |groups|
          invariant groupsCache == Refill(old(groupsCache), groups[..i])
        {
          assert groups[..i + 1][..i] == groups[..i];
          groupsCache := groupsCache[groups[i].folderPath := groups[i]][groups[i].groupName := groups[i]];
          i := i + 1;
        }
        assert groups[..i] == groups;
      }
      r := if key in groupsCache then Some(groupsCache[key]) else None;
    }

    /** `GetMatchGroup(path)`: the last group whose folder path starts `path`. */
    function GetMatchGroup(path: string): (r: Option<AssetAddressGroupInfo>)
      reads this, groups
      ensures r.Some? ==> exists i :: 0 <= i < |groups| && r.value == groups[i] && StartsWith(path, groups[i].folderPath)
                                      && forall j :: i < j < |groups| ==> !StartsWith(path, groups[j].folderPath)
      ensures r.None? ==> forall i :: 0 <= i < |groups| ==> !StartsWith(path, groups[i].folderPath)
    {
      var i := LastMatch(groups, path);
      if i < 0 then None else Some(groups[i])
    }

    /** `AddGroup(folderPath, groupName)`: `None` for a path that is not a
        directory; an existing group for the path is returned as it is;
        otherwise a new group joins the list, which is re-sorted. An empty
        `groupName` stands for the default argument. */
    method AddGroup(folderPath: string, groupName: string, db: AssetDatabase) returns (r: Option<AssetAddressGroupInfo>)
      requires Valid()
      modifies this`groups, this`groupsCache
      ensures Valid()
      ensures !db.isDirectory(folderPath) ==> r == None && groups == old(groups) && groupsCache == old(groupsCache)
      ensures db.isDirectory(folderPath) ==>
        groupsCache == if folderPath in old(groupsCache) then old(groupsCache) else old(Refill(groupsCache, groups))
      ensures db.isDirectory(folderPath) && folderPath in groupsCache ==>
        r == Some(groupsCache[folderPath]) && groups == old(groups)
      ensures db.isDirectory(folderPath) && folderPath !in groupsCache ==>
        r.Some? && fresh(r.value)
        && r.value.folderPath == folderPath
        && r.value.groupName == (if groupName == "" then DefaultGroupName(folderPath) else groupName)
        && r.value.packageName == packageName
        && r.value.guid == db.guidOf(folderPath)
        && r.value.entries == [] && r.value.entriesCache == map[]
        && r.value.copyToStreamingAssets && r.value.active
        && groups == SortByFolder(old(groups) + [r.value])
    {
      if !db.isDirectory(folderPath) {
        return None;
      }
      var name := if groupName == "" then DefaultGroupName(folderPath) else groupName;
      r := GetGroup(folderPath);
      if r.None? {
        var g := CreateGroup(folderPath, name, db);
        r := Some(g);
      }
    }

    /** The part of `AddGroup` that makes a new group and adds it. */
    method CreateGroup(folderPath: string, name: string, db: AssetDatabase) returns (g: AssetAddressGroupInfo)
      requires Valid()
      modifies this`groups
      ensures Valid() && fresh(g)
      ensures g.folderPath == folderPath && g.groupName == name && g.packageName == packageName
      ensures g.guid == db.guidOf(folderPath) && g.entries == [] && g.entriesCache == map[]
      ensures g.copyToStreamingAssets && g.active
      ensures groups == SortByFolder(old(groups) + [g])
    {
      g := new AssetAddressGroupInfo.Create(packageName, folderPath, name, db.guidOf(folderPath));
      AppendGroup(g);
    }

    /** Adds a new group and restores folder-path order. */
    method AppendGroup(g: AssetAddressGroupInfo)
      requires Valid() && g !in groups
      modifies this`groups
      ensures Valid()
      ensures groups == SortByFolder(old(groups) + [g])
    {
      var added := groups + [g];
      DistinctSnoc(groups, g);
      var sorted := SortByFolder(added);
      SortByFolderKeepsDistinct(added);
      groups := sorted;
    }

    /** `RemoveGroup(folderPath)`: takes out the first group with that folder
        path and drops its folder-path key; a missing group throws (a null
        dereference), leaving the package as it was. */
    method RemoveGroup(folderPath: string) returns (fault: Option<Fault>)
      requires Valid()
      modifies this`groups, this`groupsCache
      ensures Valid()
      ensures fault == (if old(FindFolder(groups, folderPath)) < 0 then Some(NullReference) else None)
      ensures fault.Some? ==> groups == old(groups) && groupsCache == old(groupsCache)
      ensures fault.None? ==>
        var j := old(FindFolder(groups, folderPath));
        groups == old(groups[..j] + groups[j + 1..]) && groupsCache == old(groupsCache) - {folderPath}
    {
      var j := FindFolder(groups, folderPath);
      if j < 0 {
        return Some(NullReference);
      }
      var g := groups[j];
      RemoveFirstAt(groups, j);
      groups := RemoveFirst(groups, g);
      groupsCache := groupsCache - {g.folderPath};
      assert Distinct(groups);
      fault := None;
    }

    /** `GetAssetInfo(key)`: asks the groups in order and returns the first
        hit; every group asked has its empty cache rebuilt. */
    method GetAssetInfo(key: string) returns (r: Option<AssetAddressEntry>)
      requires Valid()
      modifies groups`entriesCache
      ensures var h := old(FirstHitIn(groups, key));
        r == if h < 0 then None else Some(Lookup(old(groups[h].CacheView()), key)[0])
      ensures var h := old(FirstHitIn(groups, key));
        var consulted := if h < 0 then |groups| else h + 1;
        forall i :: 0 <= i < |groups| ==>
          groups[i].entriesCache == if i < consulted then old(groups[i].CacheView()) else old(groups[i].entriesCache)
    {
      ghost var h := FirstHitIn(groups, key);
      r := None;
      var i := 0;
      while i < |groups| && r.None?
        invariant 0 <= i <= |groups|
        invariant forall j :: 0 <= j < |groups| ==>
          groups[j].entriesCache == if j < i then old(groups[j].CacheView()) else old(groups[j].entriesCache)
        invariant r.None? ==> h < 0 || i <= h
        invariant r.Some? ==> 0 <= h == i - 1 && r == Some(Lookup(old(groups[h].CacheView()), key)[0])
      {
        r := Probe(groups[i], i, key);
        i := i + 1;
      }
    }

    /** `GetAssetInfo(key)` seen from outside: the answer is the first hit
        in the groups' views, and no group's view changes; each cache is
        either as it was or its view. */
    method Consult(key: string) returns (r: Option<AssetAddressEntry>)
      requires Valid()
      modifies groups`entriesCache
      ensures r == HitIn(old(ViewsOf(groups)), key)
      ensures forall g | g in groups ::
        g.CacheView() == old(g.CacheView()) && (g.entriesCache == old(g.entriesCache) || g.entriesCache == old(g.CacheView()))
    {
      ghost var views := ViewsOf(groups);
      ghost var h := FirstHitIn(groups, key);
      FirstHitInViews(groups, key);
      r := GetAssetInfo(key);
      assert r == HitIn(views, key) by {
        if h >= 0 {
          assert views[h] == old(groups[h].CacheView());
        }
      }
      forall g | g in groups
        ensures g.CacheView() == old(g.CacheView())
        ensures g.entriesCache == old(g.entriesCache) || g.entriesCache == old(g.CacheView())
      {
        var j :| 0 <= j < |groups| && groups[j] == g;
        SettledView(g);
      }
    }

    /** One step of `GetAssetInfo`: group `i` looks `key` up, filling its
        own cache, and no other group changes. */
    method Probe(g: AssetAddressGroupInfo, i: int, key: string) returns (r: Option<AssetAddressEntry>)
      requires Valid() && 0 <= i < |groups| && groups[i] == g
      modifies g`entriesCache
      ensures groups[i].entriesCache == old(groups[i].CacheView())
      ensures r == First(Lookup(groups[i].entriesCache, key))
      ensures forall j :: 0 <= j < |groups| && j != i ==> groups[j].entriesCache == old(groups[j].entriesCache)
    {
      r := g.GetAssetInfo(key);
      DistinctOthers(groups, i);
    }

    /** `GetAssetInfos(key)`: every group's list for `key`, concatenated;
        `None` when no group lists anything. */
    method GetAssetInfos(key: string) returns (r: Option<seq<AssetAddressEntry>>)
      requires Valid()
      modifies groups`entriesCache
      ensures r == if AllUnder(old(ViewsOf(groups)), key) == [] then None else Some(AllUnder(old(ViewsOf(groups)), key))
      ensures forall i :: 0 <= i < |groups| ==> groups[i].entriesCache == old(ViewsOf(groups))[i]
    {
      ghost var views := ViewsOf(groups);
      var list: seq<AssetAddressEntry> := [];
      var any := false;
      var i := 0;
      while i < |groups|
        invariant 0 <= i <= |groups|
        invariant forall j :: 0 <= j < i ==> groups[j].entriesCache == views[j]
        invariant forall j :: i <= j < |groups| ==> groups[j].entriesCache == old(groups[j].entriesCache)
        invariant list == AllUnder(views[..i], key)
        invariant any <==> list != []
      {
        var g := groups[i];
        assert g.entriesCache == old(g.entriesCache) && g.entries == old(g.entries);
        assert g.CacheView() == views[i];
        var found := g.GetAssetInfos(key);
        DistinctOthers(groups, i);
        ghost var before := list;
        if found.Some? && |found.value| > 0 {
          list := list + found.value;
          any := true;
        }
        assert list == before + Lookup(views[i], key);
        AllUnderStep(views, i, key);
        i := i + 1;
      }
      assert views[..i] == views;
      r := if any then Some(list) else None;
    }

    /** `AddAssetInfo(assetPath, address)`: the groups are tried from last to
        first, so the entry goes to the group `GetMatchGroup` picks. */
    method AddAssetInfo(assetPath: string, address: string, db: AssetDatabase) returns (r: Option<AssetAddressEntry>)
      requires Valid()
      modifies groups`entries, groups`entriesCache
      ensures var p := ReplaceChar(assetPath, '\\', '/');
        var i := LastMatch(groups, p);
        p == "" || i < 0 ==> r == None && forall j :: 0 <= j < |groups| ==>
          groups[j].entries == old(groups[j].entries) && groups[j].entriesCache == old(groups[j].entriesCache)
      ensures var p := ReplaceChar(assetPath, '\\', '/');
        var i := LastMatch(groups, p);
        p != "" && i >= 0 ==>
          (forall j :: 0 <= j < |groups| && j != i ==>
            groups[j].entries == old(groups[j].entries) && groups[j].entriesCache == old(groups[j].entriesCache))
          && Offered(groups[i], p, address, db, old(groups[i].CacheView()), old(groups[i].entries), old(groups[i].entriesCache), r)
          && (r.Some? && Lookup(old(groups[i].CacheView()), p) == [] ==> fresh(r.value))
    {
      var p := Replace(assetPath, "\\", "/");
      ReplaceOneCharIsReplaceChar(assetPath, '\\', '/');
      r := OfferFromLast(groups, p, address, db);
    }

    /** `RemoveAssetInfo(key)`: `remove || group.RemoveEntry(key)` stops
        asking once a group has removed the entry, so only the first group
        holding `key` as a path or address loses it. */
    method RemoveAssetInfo(key: string) returns (removed: bool)
      requires Valid()
      modifies groups`entries, groups`entriesCache
      ensures var h := old(FirstHolder(groups, key));
        removed == (h >= 0)
        && (forall i :: 0 <= i < |groups| && i != h ==>
              groups[i].entries == old(groups[i].entries) && groups[i].entriesCache == old(groups[i].entriesCache))
      ensures var h := old(FirstHolder(groups, key));
        h >= 0 ==>
          groups[h].entries == old(var es := groups[h].entries; var j := FindEntry(es, key); es[..j] + es[j + 1..])
          && groups[h].entriesCache == old(RemoveCache(groups[h].entriesCache, groups[h].entries[FindEntry(groups[h].entries, key)]))
    {
      ghost var E, C, ks, h, j0, cache1 := RemovalPlan(groups, key);
      removed := RemoveFirstHolder(groups, key, E, C, ks, h, j0, cache1);
    }

    /** `HasAssetInfo(key)`: `GetAssetInfo` finds something. */
    method HasAssetInfo(key: string) returns (r: bool)
      requires Valid()
      modifies groups`entriesCache
      ensures r <==> old(FirstHitIn(groups, key)) >= 0
      ensures var h := old(FirstHitIn(groups, key));
        var consulted := if h < 0 then |groups| else h + 1;
        forall i :: 0 <= i < |groups| ==>
          groups[i].entriesCache == if i < consulted then old(groups[i].CacheView()) else old(groups[i].entriesCache)
    {
      var e := GetAssetInfo(key);
      r := e.Some?;
    }

    /** `GenerateCache`: every group the lookup holds rebuilds its entry
        cache, then the lookup is emptied. */
    method GenerateCache()
      modifies this`groupsCache, groupsCache.Values`entriesCache
      ensures groupsCache == map[]
      ensures forall g | g in old(groupsCache.Values) :: g.entriesCache == Index(g.entries)
    {
      var todo := groupsCache.Values;
      while todo != {}
        invariant todo <= old(groupsCache.Values)
        invariant groupsCache == old(groupsCache)
        invariant forall g | g in old(groupsCache.Values) - todo :: g.entriesCache == Index(g.entries)
        decreases |todo|
      {
        var g :| g in todo;
        g.GenerateCache();
        todo := todo - {g};
      }
      groupsCache := map[];
    }
  }

  /** The snapshot `RemoveFirstHolder` works from: each group's entries,
      cache and (path, address) pairs, the first holder of `key`, the
      position of `key` in it and the cache it is left with. */
  lemma RemovalPlan(gs: seq<AssetAddressGroupInfo>, key: string)
      returns (E: seq<seq<AssetAddressEntry>>, C: seq<Cache>, ks: seq<seq<(string, string)>>, h: int, j0: int, rc: Cache)
    ensures |E| == |C| == |ks| == |gs|
    ensures forall j :: 0 <= j < |gs| ==> gs[j].entries == E[j] && gs[j].entriesCache == C[j] && KeysMatch(E[j], ks[j])
    ensures h == FirstKeyHolder(ks, key) && h == FirstHolder(gs, key)
    ensures h >= 0 ==> j0 == FindKey(ks[h], key) && j0 == FindEntry(gs[h].entries, key) && 0 <= j0 < |E[h]|
    ensures h >= 0 ==> rc == RemoveCache(C[h], E[h][j0])
  {
    E := EntriesOf(gs);
    C := CachesOf(gs);
    ks := GroupKeys(E);
    KeyHolderIsFirstHolder(gs, ks, key);
    h := FirstHolder(gs, key);
    j0 := if h >= 0 then FindEntry(gs[h].entries, key) else 0;
    rc := if h >= 0 then RemoveCache(gs[h].entriesCache, gs[h].entries[j0]) else map[];
    if h >= 0 {
      FindKeyIsFindEntry(E[h], ks[h], key);
    }
  }

  /** The loop of `RemoveAssetInfo` over the groups `gs`, which hold the
      entries `E` with the (path, address) pairs `ks` and the caches `C`:
      the first holder `h` of `key` loses its entry `j0` and takes the cache
      `rc`, and no other group changes. */
  method RemoveFirstHolder(gs: seq<AssetAddressGroupInfo>, key: string, ghost E: seq<seq<AssetAddressEntry>>,
                           ghost C: seq<Cache>, ghost ks: seq<seq<(string, string)>>, ghost h: int, ghost j0: int,
                           ghost rc: Cache)
      returns (removed: bool)
    requires Distinct(gs) && |E| == |C| == |ks| == |gs|
    requires forall j :: 0 <= j < |gs| ==> gs[j].entries == E[j] && gs[j].entriesCache == C[j] && KeysMatch(E[j], ks[j])
    requires h == FirstKeyHolder(ks, key)
    requires h >= 0 ==> j0 == FindKey(ks[h], key) && 0 <= j0 < |E[h]| && rc == RemoveCache(C[h], E[h][j0])
    modifies gs`entries, gs`entriesCache
    ensures removed == (h >= 0)
    ensures forall j :: 0 <= j < |gs| && j != h ==> gs[j].entries == E[j] && gs[j].entriesCache == C[j]
    ensures h >= 0 ==> gs[h].entries == E[h][..j0] + E[h][j0 + 1..] && gs[h].entriesCache == rc
  {
    removed := false;
    var i := 0;
    // Once `removed` holds, the remaining iterations call nothing.
    while i < |gs| && !removed
      invariant 0 <= i <= |gs|
      invariant forall j :: 0 <= j < |gs| && (j != h || !removed) ==>
        gs[j].entries == E[j] && gs[j].entriesCache == C[j]
      invariant !removed ==> h < 0 || i <= h
      invariant removed ==> 0 <= h && i == h + 1 && gs[h].entries == E[h][..j0] + E[h][j0 + 1..]
      invariant removed ==> gs[h].entriesCache == rc
    {
      removed := RemoveAt(gs, gs[i], i, key, E, C, ks, if i == h then rc else map[]);
      i := i + 1;
    }
  }

  /** One step of `RemoveAssetInfo`: group `gs[i]`, holding `E[i]` with the
      (path, address) pairs `ks[i]`, removes `key`, and no other group
      changes; `E` and `C` hold every group's entries and cache. */
  method RemoveAt(gs: seq<AssetAddressGroupInfo>, g: AssetAddressGroupInfo, i: int, key: string, ghost E: seq<seq<AssetAddressEntry>>,
                  ghost C: seq<Cache>, ghost ks: seq<seq<(string, string)>>, ghost rc: Cache)
      returns (removed: bool)
    requires Distinct(gs) && 0 <= i < |gs| && gs[i] == g
    requires |E| == |C| == |ks| == |gs|
    requires forall j :: 0 <= j < |gs| ==> gs[j].entries == E[j] && gs[j].entriesCache == C[j]
    requires KeysMatch(E[i], ks[i])
    requires FindKey(ks[i], key) >= 0 ==> rc == RemoveCache(C[i], E[i][FindKey(ks[i], key)])
    modifies g`entries, g`entriesCache
    ensures removed == (FindKey(ks[i], key) >= 0)
    ensures !removed ==> gs[i].entries == E[i] && gs[i].entriesCache == C[i]
    ensures removed ==>
      var j := FindKey(ks[i], key);
      gs[i].entries == E[i][..j] + E[i][j + 1..] && gs[i].entriesCache == rc
    ensures forall j :: 0 <= j < |gs| && j != i ==> gs[j].entries == E[j] && gs[j].entriesCache == C[j]
  {
    FindKeyIsFindEntry(E[i], ks[i], key);
    removed := gs[i].RemoveEntry(key);
    DistinctOthers(gs, i);
  }

  lemma DistinctOthers(gs: seq<AssetAddressGroupInfo>, i: int)
    requires Distinct(gs) && 0 <= i < |gs|
    ensures forall j :: 0 <= j < |gs| && j != i ==> gs[j] != gs[i]
  {
  }

  lemma SortByFolderKeepsDistinct(gs: seq<AssetAddressGroupInfo>)
    requires Distinct(gs)
    ensures Distinct(SortByFolder(gs))
  {
    var r := SortByFolder(gs);
    forall i, j | 0 <= i < j < |r| ensures r[i] != r[j] {
      if r[i] == r[j] {
        MultisetAtLeastTwo(r, i, j);
        MultisetAtMostOne(gs, r[i]);
      }
    }
  }

  /** The loop of `AddAssetInfo`: the groups `gs` are offered the path from
      last to first, until one takes it. */
  method OfferFromLast(gs: seq<AssetAddressGroupInfo>, p: string, address: string, db: AssetDatabase)
      returns (r: Option<AssetAddressEntry>)
    requires Distinct(gs)
    modifies (set g: AssetAddressGroupInfo | g in gs)`entries, (set g: AssetAddressGroupInfo | g in gs)`entriesCache
    ensures var i := LastMatch(gs, p);
      p == "" || i < 0 ==> r == None && forall j :: 0 <= j < |gs| ==>
        gs[j].entries == old(gs[j].entries) && gs[j].entriesCache == old(gs[j].entriesCache)
    ensures var i := LastMatch(gs, p);
      p != "" && i >= 0 ==>
        (forall j :: 0 <= j < |gs| && j != i ==>
          gs[j].entries == old(gs[j].entries) && gs[j].entriesCache == old(gs[j].entriesCache))
        && Offered(gs[i], p, address, db, old(gs[i].CacheView()), old(gs[i].entries), old(gs[i].entriesCache), r)
        && (r.Some? && Lookup(old(gs[i].CacheView()), p) == [] ==> fresh(r.value))
  {
    var i := |gs|;
    while i > 0
      invariant 0 <= i <= |gs|
      invariant forall j :: 0 <= j < |gs| ==>
        gs[j].entries == old(gs[j].entries) && gs[j].entriesCache == old(gs[j].entriesCache)
      invariant forall j :: i <= j < |gs| ==> !gs[j].IsAssetMatch(p) || p == ""
    {
      var info := OfferAt(gs, gs[i - 1], i - 1, p, address, db);
      if info.Some? {
        assert LastMatch(gs, p) == i - 1;
        return info;
      }
      i := i - 1;
    }
    return None;
  }

  /** One step of `AddAssetInfo`: group `i` is offered the path, and no other group changes. */
  method OfferAt(gs: seq<AssetAddressGroupInfo>, g: AssetAddressGroupInfo, i: int, p: string, address: string,
                 db: AssetDatabase) returns (r: Option<AssetAddressEntry>)
    requires Distinct(gs) && 0 <= i < |gs| && gs[i] == g
    modifies g`entries, g`entriesCache
    ensures Offered(g, p, address, db, old(g.CacheView()), old(g.entries), old(g.entriesCache), r)
    ensures r.Some? && Lookup(old(g.CacheView()), p) == [] ==> fresh(r.value)
    ensures forall j :: 0 <= j < |gs| && j != i ==>
      gs[j].entries == old(gs[j].entries) && gs[j].entriesCache == old(gs[j].entriesCache)
  {
    r := g.AddAssetEntry(p, address, db);
    DistinctOthers(gs, i);
  }
}
