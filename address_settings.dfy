/** The editor-wide operations of `AssetAddressDefaultSettings`: the label
    list of the settings asset, and the lookups, renames and removals that
    run over every package (`AllPackages`). */
module Settings {
  import opened Wrappers
  import opened Collections
  import opened Paths
  import opened Entries
  import opened Groups
  import opened Packages
  import opened Sorting

  /** `CalcAddress(assetPath)`: the default address of an asset is its file
      name without the extension. */
  function CalcAddress(assetPath: string, sep: char): (r: string)
    ensures forall i :: 0 <= i < |r| ==> !IsSeparator(r[i], sep)
    ensures GetFileName(assetPath, sep) == r + GetExtension(assetPath, sep)
         || GetFileName(assetPath, sep) == r + "."
  {
    FileNameSplitsAtExtension(assetPath, sep);
    GetFileNameWithoutExtension(assetPath, sep)
  }

  /** Each package's group list, in package order. */
  function GroupLists(ps: seq<AssetAddressPackage>): (r: seq<seq<AssetAddressGroupInfo>>)
    reads ps
    ensures |r| == |ps|
    ensures forall k :: 0 <= k < |ps| ==> r[k] == ps[k].groups
  {
    if ps == [] then [] else [ps[0].groups] + GroupLists(ps[1..])
  }

  /** Every group of every package, package after package. */
  function AllGroups(ps: seq<AssetAddressPackage>): seq<AssetAddressGroupInfo>
    reads ps
  {
    Flatten(GroupLists(ps))
  }

  /** Each package's groups' entry lists: `r[k][i]` is the list of group
      `i` of package `k`. */
  ghost function EntryGrid(ps: seq<AssetAddressPackage>): (r: seq<seq<seq<AssetAddressEntry>>>)
    reads ps, set k, i | 0 <= k < |ps| && 0 <= i < |ps[k].groups| :: ps[k].groups[i]
    ensures |r| == |ps|
    ensures forall k :: 0 <= k < |ps| ==> |r[k]| == |ps[k].groups|
    ensures forall k, i :: 0 <= k < |ps| && 0 <= i < |ps[k].groups| ==> r[k][i] == ps[k].groups[i].entries
  {
    if ps == [] then []
    else [EntriesOf(ps[0].groups)] + EntryGrid(ps[1..])
  }

  /** Every entry of a grid of entry lists. */
  function GridMembers(grid: seq<seq<seq<AssetAddressEntry>>>): set<AssetAddressEntry> {
    set k, i, j | 0 <= k < |grid| && 0 <= i < |grid[k]| && 0 <= j < |grid[k][i]| :: grid[k][i][j]
  }

  /** The entries listed by any group of any package. */
  ghost function Listed(ps: seq<AssetAddressPackage>): set<AssetAddressEntry>
    reads ps, set k, i | 0 <= k < |ps| && 0 <= i < |ps[k].groups| :: ps[k].groups[i]
  {
    GridMembers(EntryGrid(ps))
  }

  class AssetAddressDefaultSettings {
    /** `Setting.Labels`: the labels the editor offers. */
    var labels: seq<string>
    /** `AllPackages`. */
    var packages: seq<AssetAddressPackage>

    /** Each package is listed once and holds each of its groups once. */
    ghost predicate Valid()
      reads this, packages
    {
      Distinct(packages) && forall k :: 0 <= k < |packages| ==> packages[k].Valid()
    }

    /** `GetEntry(address)`: the packages are asked in order and the first
        answer is kept, which is the first entry filed under `address` in any
        group of any package. No lookup changes what any group's cache shows. */
    method GetEntry(address: string) returns (r: Option<AssetAddressEntry>)
      requires Valid()
      modifies (set g | g in AllGroups(packages))`entriesCache
      ensures r == HitIn(old(ViewsOf(AllGroups(packages))), address)
      ensures forall g | g in old(AllGroups(packages)) :: g.CacheView() == old(g.CacheView())
      ensures forall g | g in old(AllGroups(packages)) ::
        g.entriesCache == old(g.entriesCache) || g.entriesCache == old(g.CacheView())
    {
      ghost var gl := GroupLists(packages);
      ghost var fg := Flatten(gl);
      ghost var v := ViewsOf(fg);
      ghost var c := CachesOf(fg);
      r := FirstAnswer(address, gl, fg, v, c);
    }

    /** The loop of `GetEntry` over the groups `fg` of all packages, whose
        cache views are `v`. */
    method FirstAnswer(address: string, ghost gl: seq<seq<AssetAddressGroupInfo>>,
                       ghost fg: seq<AssetAddressGroupInfo>, ghost v: seq<Cache>, ghost c: seq<Cache>)
        returns (r: Option<AssetAddressEntry>)
      requires Valid()
      requires gl == GroupLists(packages) && fg == Flatten(gl) && |v| == |fg| == |c|
      requires forall i :: 0 <= i < |fg| ==> fg[i].CacheView() == v[i]
      requires forall i :: 0 <= i < |fg| ==> fg[i].entriesCache == c[i] || fg[i].entriesCache == v[i]
      modifies (set g | g in fg)`entriesCache
      ensures r == HitIn(v, address)
      ensures forall i :: 0 <= i < |fg| ==> fg[i].CacheView() == v[i]
      ensures forall i :: 0 <= i < |fg| ==> fg[i].entriesCache == c[i] || fg[i].entriesCache == v[i]
    {
      r := None;
      var k := 0;
      ghost var off := 0;
      while k < |packages| && r.None?
        invariant 0 <= k <= |packages|
        invariant forall i :: 0 <= i < |fg| ==> fg[i].CacheView() == v[i]
        invariant forall i :: 0 <= i < |fg| ==> fg[i].entriesCache == c[i] || fg[i].entriesCache == v[i]
        invariant off == |Flatten(gl[..k])| <= |v|
        invariant r == HitIn(v[..off], address)
      {
        assert forall g :: g in packages[k].groups ==> g in fg by {
          FlattenHolds(gl, k);
        }
        r, off := Ask(k, address, gl, fg, v, c, off);
        k := k + 1;
      }
      if k == |packages| {
        assert gl[..k] == gl;
      }
      HitInWhole(v, off, address);
    }

    /** `ChangeAssetAddress(oldAddress, newAddress)`: an unchanged address
        does nothing; an address already in use is refused (and logged);
        otherwise the entry `GetEntry(oldAddress)` finds takes the new
        address, and no other entry's address changes. When nothing answers
        for `oldAddress` the C# code dereferences `null`. The lookups leave
        every group's cache as it was or rebuilt from its entries; the
        caches are not told of the new address, and the closing
        `SavePackage()` is not part of this model. */
    method ChangeAssetAddress(oldAddress: string, newAddress: string) returns (r: Renaming)
      requires Valid()
      modifies (set g | g in AllGroups(packages))`entriesCache, CachedIn(ViewsOf(AllGroups(packages)))`address
      ensures var v := old(ViewsOf(AllGroups(packages)));
        r == if oldAddress == newAddress then Unchanged
             else if HitIn(v, newAddress).Some? then Duplicate
             else if HitIn(v, oldAddress).None? then Missing
             else Renamed(HitIn(v, oldAddress).value)
      ensures r.Renamed? ==> r.entry.address == newAddress
      ensures forall e | e in old(CachedIn(ViewsOf(AllGroups(packages)))) && old(allocated(e))
                         && !(r.Renamed? && e == r.entry) :: e.address == old(e.address)
      ensures forall g | g in old(AllGroups(packages)) ::
        g.entriesCache == old(g.entriesCache) || g.entriesCache == old(g.CacheView())
    {
      ghost var gl := GroupLists(packages);
      ghost var fg := Flatten(gl);
      ghost var v := ViewsOf(fg);
      ghost var c := CachesOf(fg);
      if oldAddress == newAddress {
        return Unchanged;
      }
      var taken := FirstAnswer(newAddress, gl, fg, v, c);
      if taken.Some? {
        return Duplicate;
      }
      var found := FirstAnswer(oldAddress, gl, fg, v, c);
      if found.None? {
        return Missing;
      }
      HitInCached(v, oldAddress);
      found.value.address := newAddress;
      r := Renamed(found.value);
    }

    /** `RemoveEntry(address)`: `remove || package.RemoveAssetInfo(address)`
        asks the packages in turn until one removes, so only the first group
        (in the first package) holding `address` as a path or address loses
        its first such entry; every other group is left as it was. */
    method RemoveEntry(address: string) returns (removed: bool)
      requires Valid()
      modifies (set g | g in AllGroups(packages))`entries, (set g | g in AllGroups(packages))`entriesCache
      ensures var hs := old(Holders(packages, address));
        removed == (FirstNonNeg(hs) >= 0)
      ensures var hs := old(Holders(packages, address)); var k := FirstNonNeg(hs);
        k >= 0 ==>
          var g := old(packages[k].groups[hs[k]]);
          var j := old(FindEntry(g.entries, address));
          g.entries == old(g.entries[..j] + g.entries[j + 1..])
          && g.entriesCache == old(RemoveCache(g.entriesCache, g.entries[j]))
      ensures var hs := old(Holders(packages, address)); var k := FirstNonNeg(hs);
        forall g | g in old(AllGroups(packages)) && old(allocated(g)) && (k < 0 || g != old(packages[k].groups[hs[k]])) ::
          g.entries == old(g.entries) && g.entriesCache == old(g.entriesCache)
    {
      ghost var gl := GroupLists(packages);
      ghost var fg := Flatten(gl);
      assert fg == AllGroups(packages);
      ghost var grid := EntryGrid(packages);
      ghost var kg := GridKeys(grid);
      ghost var hs := Holders(packages, address);
      ghost var EM := map g | g in fg :: g.entries;
      ghost var CM := map g | g in fg :: g.entriesCache;
      Layout(packages, address, gl, fg, grid, kg, hs, EM, CM);
      ghost var K := FirstNonNeg(hs);
      ghost var G: AssetAddressGroupInfo? := if K >= 0 then packages[K].groups[hs[K]] else null;
      ghost var j0 := if K >= 0 then FindEntry(G.entries, address) else 0;
      ghost var rc := if K >= 0 then RemoveCache(G.entriesCache, G.entries[j0]) else map[];
      if K >= 0 {
        FindKeyIsFindEntry(G.entries, kg[K][hs[K]], address);
      }
      removed := DropFirst(packages, address, gl, fg, grid, kg, hs, K, G, j0, rc, EM, CM);
      if K >= 0 {
        assert G.entries == old(G.entries[..j0] + G.entries[j0 + 1..]);
        assert G.entriesCache == old(RemoveCache(G.entriesCache, G.entries[j0]));
      }
    }

    /** `RemoveGroup(value)`: in each package, the last group whose folder
        path or group name is `value` is picked, and the package is told to
        remove the group with that group's folder path. */
    method RemoveGroup(value: string)
      requires Valid()
      modifies (set p | p in packages)`groups, (set p | p in packages)`groupsCache
      ensures Valid()
      ensures forall k :: 0 <= k < |packages| ==>
        packages[k].groups == old(GroupsWithout(packages[k].groups, value))
        && packages[k].groupsCache == old(CacheWithout(packages[k].groupsCache, packages[k].groups, value))
    {
      ghost var GS := GroupsOf(packages);
      ghost var MS := LookupsOf(packages);
      ghost var W := WithoutAll(packages, value);
      RemoveNamedAll(packages, value, GS, MS, W);
    }

    /** `AddLabel(label)`: an empty or known label changes nothing; a new
        one is added and the list sorted. */
    method AddLabel(tag: string)
      modifies this`labels
      ensures labels == if tag == "" then old(labels) else LabelsAfterAdd(old(labels), tag)
      ensures tag != "" ==> tag in labels
      ensures Distinct(old(labels)) ==> Distinct(labels)
    {
      if tag != "" && tag !in labels {
        labels := labels + [tag];
        labels := Sort(labels);
      }
      if Distinct(old(labels)) {
        AddKeepsDistinct(old(labels), tag);
      }
    }

    /** `RemoveLabel(label)`: the label leaves the settings' list and the
        labels of every entry of every group of every package. Labels are
        duplicate-free, so an entry listed twice loses the label once. */
    method RemoveLabel(tag: string)
      requires forall e | e in Listed(packages) :: Distinct(e.labels)
      modifies this`labels, Listed(packages)`labels
      ensures labels == RemoveFirst(old(labels), tag)
      ensures forall e | e in old(Listed(packages)) && old(allocated(e)) ::
        e.labels == RemoveFirst(old(e.labels), tag) && tag !in e.labels
    {
      ghost var grid := EntryGrid(packages);
      ghost var E := GridMembers(grid);
      ghost var orig := map e | e in E :: e.labels;
      ghost var done: set<AssetAddressEntry> := {};
      labels := RemoveFirst(labels, tag);
      done := StripPackages(packages, tag, grid, E, orig, done);
      forall e | e in E ensures tag !in e.labels {
        RemoveDeletesFromDistinct(orig[e], tag);
      }
    }

    /** One step of `GetEntry`: package `k`, whose groups follow the first
        `off` groups of `fg` (all groups, whose views are `v`), is asked
        after no earlier group answered; the answer is the first hit in the
        views up to the end of package `k`, and no view changes. */
    method Ask(k: int, address: string, ghost gl: seq<seq<AssetAddressGroupInfo>>,
               ghost fg: seq<AssetAddressGroupInfo>, ghost v: seq<Cache>, ghost c: seq<Cache>, ghost off: int)
        returns (r: Option<AssetAddressEntry>, ghost off': int)
      requires 0 <= k < |packages| == |gl| && gl[k] == packages[k].groups
      requires packages[k].Valid()
      requires fg == Flatten(gl) && |v| == |fg| == |c|
      requires forall i :: 0 <= i < |fg| ==> fg[i].CacheView() == v[i]
      requires forall i :: 0 <= i < |fg| ==> fg[i].entriesCache == c[i] || fg[i].entriesCache == v[i]
      requires off == |Flatten(gl[..k])| <= |v| && HitIn(v[..off], address).None?
      modifies gl[k]`entriesCache
      ensures off' == |Flatten(gl[..k + 1])| <= |v|
      ensures r == HitIn(v[..off'], address)
      ensures forall i :: 0 <= i < |fg| ==> fg[i].CacheView() == v[i]
      ensures forall i :: 0 <= i < |fg| ==> fg[i].entriesCache == c[i] || fg[i].entriesCache == v[i]
    {
      var p := packages[k];
      ghost var len := |gl[k]|;
      off' := off + len;
      assert off' == |Flatten(gl[..k + 1])| by {
        FlattenPrefixStep(gl, k);
      }
      assert off' <= |fg| && forall i :: 0 <= i < len ==> fg[off + i] == p.groups[i] by {
        FlattenSplitAt(gl, k);
      }
      ghost var pv := v[off..off'];
      ViewsSlice(p.groups, fg, v, off);
      r := Consult(p, address, fg, v, c, pv);
      HitInExtend(v, off, off', pv, r, address);
    }

    /** The package's own lookup, whose groups have the views `pv`, read
        against the views `v` of all groups `fg`: the answer
        is the first hit in `pv`, and no view changes. */
    method Consult(p: AssetAddressPackage, address: string,
                   ghost fg: seq<AssetAddressGroupInfo>, ghost v: seq<Cache>, ghost c: seq<Cache>, ghost pv: seq<Cache>)
        returns (r: Option<AssetAddressEntry>)
      requires p.Valid() && |v| == |fg| == |c|
      requires forall i :: 0 <= i < |fg| ==> fg[i].CacheView() == v[i]
      requires forall i :: 0 <= i < |fg| ==> fg[i].entriesCache == c[i] || fg[i].entriesCache == v[i]
      requires ViewsOf(p.groups) == pv
      modifies p.groups`entriesCache
      ensures r == HitIn(pv, address)
      ensures forall i :: 0 <= i < |fg| ==> fg[i].CacheView() == v[i]
      ensures forall i :: 0 <= i < |fg| ==> fg[i].entriesCache == c[i] || fg[i].entriesCache == v[i]
    {
      r := p.Consult(address);
      forall i | 0 <= i < |fg|
        ensures fg[i].CacheView() == v[i]
        ensures fg[i].entriesCache == c[i] || fg[i].entriesCache == v[i]
      {
        if fg[i] !in p.groups {
          SettledView(fg[i]);
        }
      }
    }
  }

  /** What `ChangeAssetAddress` did: nothing to do, the entry that was
      renamed, a refusal because the new address is taken, or the `null`
      dereference because nothing answers for the old address. */
  datatype Renaming = Unchanged | Renamed(entry: AssetAddressEntry) | Duplicate | Missing

  /** Every entry some view files under some key. */
  function CachedIn(views: seq<Cache>): set<AssetAddressEntry> {
    set i, k, j | 0 <= i < |views| && k in views[i] && 0 <= j < |views[i][k]| :: views[i][k][j]
  }

  /** A lookup answers with an entry that is filed in one of the views. */
  lemma HitInCached(views: seq<Cache>, key: string)
    ensures HitIn(views, key).Some? ==> HitIn(views, key).value in CachedIn(views)
  {
    if HitIn(views, key).Some? {
      var i :| 0 <= i < |views| && Lookup(views[i], key) != [] && HitIn(views, key).value == Lookup(views[i], key)[0];
      assert views[i][key][0] in CachedIn(views);
    }
  }

  /** Each package's first holder of `key` (`FirstHolder`), in package order. */
  ghost function Holders(ps: seq<AssetAddressPackage>, key: string): (r: seq<int>)
    reads ps, set k, i | 0 <= k < |ps| && 0 <= i < |ps[k].groups| :: ps[k].groups[i]
    reads set k, i, j | 0 <= k < |ps| && 0 <= i < |ps[k].groups| && 0 <= j < |ps[k].groups[i].entries|
                      :: ps[k].groups[i].entries[j]
    ensures |r| == |ps|
    ensures forall k :: 0 <= k < |ps| ==> r[k] == FirstHolder(ps[k].groups, key)
  {
    seq(|ps|, n requires 0 <= n < |ps|
                reads ps, set k, i | 0 <= k < |ps| && 0 <= i < |ps[k].groups| :: ps[k].groups[i]
                reads set k, i, j | 0 <= k < |ps| && 0 <= i < |ps[k].groups| && 0 <= j < |ps[k].groups[i].entries|
                                  :: ps[k].groups[i].entries[j]
                => FirstHolder(ps[n].groups, key))
  }

  /** Each entry's (path, address) pair, by package, group and position. */
  ghost function GridKeys(grid: seq<seq<seq<AssetAddressEntry>>>): (r: seq<seq<seq<(string, string)>>>)
    reads GridMembers(grid)
    ensures |r| == |grid|
    ensures forall k :: 0 <= k < |grid| ==> |r[k]| == |grid[k]|
    ensures forall k, i :: 0 <= k < |grid| && 0 <= i < |grid[k]| ==> KeysMatch(grid[k][i], r[k][i])
  {
    if grid == [] then []
    else [GroupKeys(grid[0])] + GridKeys(grid[1..])
  }

  /** The first position holding a non-negative number, or -1. */
  function FirstNonNeg(s: seq<int>): (r: int)
    ensures -1 <= r < |s|
    ensures r >= 0 ==> s[r] >= 0
    ensures forall i :: 0 <= i < |s| && (r < 0 || i < r) ==> s[i] < 0
  {
    if s == [] then -1
    else if s[0] >= 0 then 0
    else
      var r := FirstNonNeg(s[1..]);
      if r < 0 then -1 else r + 1
  }

  /** The groups of `gs` after `RemoveGroup(value)` in their package: the
      last group named `value` by folder path or group name is picked, and
      the first group with its folder path goes. */
  function GroupsWithout(gs: seq<AssetAddressGroupInfo>, value: string): (r: seq<AssetAddressGroupInfo>)
    reads gs`folderPath, gs`groupName
  {
    var j := LastNamed(gs, value);
    if j < 0 then gs
    else
      var f := FindFolder(gs, gs[j].folderPath);
      gs[..f] + gs[f + 1..]
  }

  /** The group lookup after `RemoveGroup(value)`: only the picked group's
      folder-path key goes. */
  function CacheWithout(m: map<string, AssetAddressGroupInfo>, gs: seq<AssetAddressGroupInfo>, value: string)
      : (r: map<string, AssetAddressGroupInfo>)
    reads gs`folderPath, gs`groupName
    ensures LastNamed(gs, value) < 0 ==> r == m
    ensures LastNamed(gs, value) >= 0 ==> r.Keys == m.Keys - {gs[LastNamed(gs, value)].folderPath}
    ensures forall k | k in r :: k in m && r[k] == m[k]
  {
    var j := LastNamed(gs, value);
    if j < 0 then m else m - {gs[j].folderPath}
  }

  /** The picked group's folder path is always found, at or before the
      picked position, so the package's removal never faults. */
  lemma WithoutFinds(gs: seq<AssetAddressGroupInfo>, value: string)
    requires LastNamed(gs, value) >= 0
    ensures 0 <= FindFolder(gs, gs[LastNamed(gs, value)].folderPath) <= LastNamed(gs, value)
  {
  }

  /** At most one group goes: exactly one when some group is named `value`,
      none otherwise. */
  lemma WithoutDropsOne(gs: seq<AssetAddressGroupInfo>, value: string)
    ensures LastNamed(gs, value) < 0 <==> GroupsWithout(gs, value) == gs
    ensures |GroupsWithout(gs, value)| == |gs| - (if LastNamed(gs, value) >= 0 then 1 else 0)
    ensures multiset(GroupsWithout(gs, value)) <= multiset(gs)
  {
    var j := LastNamed(gs, value);
    if j >= 0 {
      var f := FindFolder(gs, gs[j].folderPath);
      DropOne(gs, f);
    }
  }

  /** Cutting one position out of a sequence shortens it by one and keeps
      only its elements. */
  lemma DropOne<T>(s: seq<T>, f: int)
    requires 0 <= f < |s|
    ensures |s[..f] + s[f + 1..]| == |s| - 1
    ensures multiset(s[..f] + s[f + 1..]) <= multiset(s)
  {
    assert s == s[..f] + [s[f]] + s[f + 1..];
  }

  /** With distinct folder paths, the group that goes is exactly the last
      one named `value`, and no later group is named `value`. */
  lemma WithoutDistinctFolders(gs: seq<AssetAddressGroupInfo>, value: string)
    requires forall i, j :: 0 <= i < j < |gs| ==> gs[i].folderPath != gs[j].folderPath
    requires LastNamed(gs, value) >= 0
    ensures var j := LastNamed(gs, value);
      GroupsWithout(gs, value) == gs[..j] + gs[j + 1..]
      && forall i :: j <= i < |gs| - 1 ==>
           GroupsWithout(gs, value)[i].folderPath != value && GroupsWithout(gs, value)[i].groupName != value
  {
    var j := LastNamed(gs, value);
    FindDistinctFolder(gs, j);
    var r := gs[..j] + gs[j + 1..];
    assert GroupsWithout(gs, value) == r;
    forall i | j <= i < |gs| - 1
      ensures r[i].folderPath != value && r[i].groupName != value
    {
      assert r[i] == gs[i + 1];
    }
  }

  /** With distinct folder paths, a group's folder path finds that group. */
  lemma FindDistinctFolder(gs: seq<AssetAddressGroupInfo>, j: int)
    requires forall i, j :: 0 <= i < j < |gs| ==> gs[i].folderPath != gs[j].folderPath
    requires 0 <= j < |gs|
    ensures FindFolder(gs, gs[j].folderPath) == j
  {
  }

  /** Each package's group list. */
  function GroupsOf(ps: seq<AssetAddressPackage>): (r: seq<seq<AssetAddressGroupInfo>>)
    reads ps
    ensures |r| == |ps| && forall k :: 0 <= k < |ps| ==> r[k] == ps[k].groups
  {
    if ps == [] then [] else [ps[0].groups] + GroupsOf(ps[1..])
  }

  /** Each package's group lookup. */
  function LookupsOf(ps: seq<AssetAddressPackage>): (r: seq<map<string, AssetAddressGroupInfo>>)
    reads ps
    ensures |r| == |ps| && forall k :: 0 <= k < |ps| ==> r[k] == ps[k].groupsCache
  {
    if ps == [] then [] else [ps[0].groupsCache] + LookupsOf(ps[1..])
  }

  /** A package's groups and group lookup after `RemoveGroup(value)`. */
  function Without(gs: seq<AssetAddressGroupInfo>, m: map<string, AssetAddressGroupInfo>, value: string)
      : (seq<AssetAddressGroupInfo>, map<string, AssetAddressGroupInfo>)
    reads gs`folderPath, gs`groupName
  {
    (GroupsWithout(gs, value), CacheWithout(m, gs, value))
  }

  /** Each package's groups and group lookup after `RemoveGroup(value)`. */
  ghost function WithoutAll(ps: seq<AssetAddressPackage>, value: string)
      : (r: seq<(seq<AssetAddressGroupInfo>, map<string, AssetAddressGroupInfo>)>)
    reads ps, (set k, i | 0 <= k < |ps| && 0 <= i < |ps[k].groups| :: ps[k].groups[i])`folderPath
    reads (set k, i | 0 <= k < |ps| && 0 <= i < |ps[k].groups| :: ps[k].groups[i])`groupName
    ensures |r| == |ps| && forall k :: 0 <= k < |ps| ==> r[k] == Without(ps[k].groups, ps[k].groupsCache, value)
  {
    if ps == [] then []
    else
      assert forall k :: 0 <= k < |ps[1..]| ==> ps[1..][k] == ps[k + 1];
      [Without(ps[0].groups, ps[0].groupsCache, value)] + WithoutAll(ps[1..], value)
  }

  /** `RemoveGroup(value)`'s walk over the packages `ps`, which hold the
      groups `gs` and lookups `ms`; package `k` ends with `w[k]`. */
  method RemoveNamedAll(ps: seq<AssetAddressPackage>, value: string, ghost gs: seq<seq<AssetAddressGroupInfo>>,
                        ghost ms: seq<map<string, AssetAddressGroupInfo>>,
                        ghost w: seq<(seq<AssetAddressGroupInfo>, map<string, AssetAddressGroupInfo>)>)
    requires Distinct(ps) && |gs| == |ms| == |w| == |ps|
    requires forall k :: 0 <= k < |ps| ==> ps[k].groups == gs[k] && ps[k].groupsCache == ms[k] && Distinct(gs[k])
    requires forall k :: 0 <= k < |ps| ==> w[k] == Without(gs[k], ms[k], value)
    modifies (set p | p in ps)`groups, (set p | p in ps)`groupsCache
    ensures forall k :: 0 <= k < |ps| ==> ps[k].Valid() && (ps[k].groups, ps[k].groupsCache) == w[k]
  {
    var k := 0;
    while k < |ps|
      invariant 0 <= k <= |ps|
      invariant forall i :: 0 <= i < k ==> ps[i].Valid() && (ps[i].groups, ps[i].groupsCache) == w[i]
      invariant forall i :: k <= i < |ps| ==> ps[i].groups == gs[i] && ps[i].groupsCache == ms[i]
    {
      RemoveNamed(ps[k], value, w[k]);
      k := k + 1;
    }
  }

  /** One package's turn in `RemoveGroup(value)`: its groups and lookup become `w`. */
  method RemoveNamed(p: AssetAddressPackage, value: string,
                     ghost w: (seq<AssetAddressGroupInfo>, map<string, AssetAddressGroupInfo>))
    requires p.Valid()
    requires w == Without(p.groups, p.groupsCache, value)
    modifies p`groups, p`groupsCache
    ensures p.Valid() && (p.groups, p.groupsCache) == w
  {
    var j := LastNamed(p.groups, value);
    if j >= 0 {
      WithoutFinds(p.groups, value);
      var fault := p.RemoveGroup(p.groups[j].folderPath);
    }
  }

  /** The snapshots `RemoveEntry` takes of the packages `ps`: the groups
      `fg` of every package, their entries `grid` and `EM`, the entries'
      (path, address) pairs `kg`, the caches `CM` and the first holders `hs`. */
  lemma Layout(ps: seq<AssetAddressPackage>, address: string, gl: seq<seq<AssetAddressGroupInfo>>,
               fg: seq<AssetAddressGroupInfo>, grid: seq<seq<seq<AssetAddressEntry>>>,
               kg: seq<seq<seq<(string, string)>>>, hs: seq<int>,
               EM: map<AssetAddressGroupInfo, seq<AssetAddressEntry>>, CM: map<AssetAddressGroupInfo, Cache>)
    requires gl == GroupLists(ps) && fg == Flatten(gl) && grid == EntryGrid(ps) && kg == GridKeys(grid)
    requires hs == Holders(ps, address)
    requires EM == (map g | g in fg :: g.entries) && CM == (map g | g in fg :: g.entriesCache)
    ensures |gl| == |ps| && forall k :: 0 <= k < |ps| ==> ps[k].groups == gl[k]
    ensures forall k, g :: 0 <= k < |gl| && g in gl[k] ==> g in fg
    ensures forall g | g in fg :: g in EM && g in CM && g.entries == EM[g] && g.entriesCache == CM[g]
    ensures |grid| == |kg| == |hs| == |ps|
    ensures forall k :: 0 <= k < |ps| ==> |grid[k]| == |kg[k]| == |gl[k]|
    ensures forall k, i :: 0 <= k < |ps| && 0 <= i < |grid[k]| ==>
      EM[gl[k][i]] == grid[k][i] && KeysMatch(grid[k][i], kg[k][i])
    ensures forall k :: 0 <= k < |ps| ==> hs[k] == FirstKeyHolder(kg[k], address)
  {
    forall k | 0 <= k < |ps|
      ensures forall g :: g in ps[k].groups ==> g in fg
    {
      FlattenHolds(gl, k);
    }
    forall k | 0 <= k < |ps|
      ensures hs[k] == FirstKeyHolder(kg[k], address)
    {
      KeyHolderIsFirstHolder(ps[k].groups, kg[k], address);
    }
  }

  /** The loop of `RemoveEntry` over the packages `ps`: `grid` and `kg`
      hold their groups' entry lists and the (path, address) pairs of
      those entries, `hs` each package's first holder of `address`, the
      first of which, in package `K`, is the group `G`, whose entry `j0`
      goes and whose cache becomes `rc`; `EM` and `CM` hold every group's
      entries and cache. */
  method DropFirst(ps: seq<AssetAddressPackage>, address: string, ghost gl: seq<seq<AssetAddressGroupInfo>>,
                   ghost fg: seq<AssetAddressGroupInfo>,
                   ghost grid: seq<seq<seq<AssetAddressEntry>>>, ghost kg: seq<seq<seq<(string, string)>>>,
                   ghost hs: seq<int>, ghost K: int, ghost G: AssetAddressGroupInfo?, ghost j0: int, ghost rc: Cache,
                   ghost EM: map<AssetAddressGroupInfo, seq<AssetAddressEntry>>, ghost CM: map<AssetAddressGroupInfo, Cache>)
      returns (removed: bool)
    requires |gl| == |ps| && forall k :: 0 <= k < |ps| ==> ps[k].Valid() && ps[k].groups == gl[k]
    requires forall k, g :: 0 <= k < |gl| && g in gl[k] ==> g in fg
    requires forall g | g in fg :: g in EM && g in CM && g.entries == EM[g] && g.entriesCache == CM[g]
    requires |grid| == |kg| == |hs| == |ps|
    requires forall k :: 0 <= k < |ps| ==> |grid[k]| == |kg[k]| == |gl[k]|
    requires forall k, i :: 0 <= k < |ps| && 0 <= i < |grid[k]| ==>
      EM[gl[k][i]] == grid[k][i] && KeysMatch(grid[k][i], kg[k][i])
    requires forall k :: 0 <= k < |ps| ==> hs[k] == FirstKeyHolder(kg[k], address)
    requires K == FirstNonNeg(hs)
    requires K >= 0 ==> (0 <= hs[K] < |gl[K]| && G == gl[K][hs[K]]
      && j0 == FindKey(kg[K][hs[K]], address) && 0 <= j0 < |grid[K][hs[K]]|
      && rc == RemoveCache(CM[G], grid[K][hs[K]][j0]))
    modifies (set g | g in fg)`entries, (set g | g in fg)`entriesCache
    ensures removed == (K >= 0)
    ensures K >= 0 ==> G.entries == grid[K][hs[K]][..j0] + grid[K][hs[K]][j0 + 1..] && G.entriesCache == rc
    ensures forall g | g in fg && (K < 0 || g != G) :: g.entries == EM[g] && g.entriesCache == CM[g]
  {
    removed := false;
    var k := 0;
    // Once `removed` holds, `remove || ...` asks no further package.
    while k < |ps| && !removed
      invariant 0 <= k <= |ps|
      invariant !removed ==> K < 0 || k <= K
      invariant !removed ==> forall g | g in fg :: g.entries == EM[g] && g.entriesCache == CM[g]
      invariant removed ==> 0 <= K == k - 1 && G.entries == grid[K][hs[K]][..j0] + grid[K][hs[K]][j0 + 1..] && G.entriesCache == rc
      invariant removed ==> forall g | g in fg && g != G :: g.entries == EM[g] && g.entriesCache == CM[g]
    {
      if hs[k] >= 0 {
        FirstNonNegAt(hs, k, K);
      }
      removed := DropAt(ps, k, address, gl, fg, grid, kg, hs, j0, rc, EM, CM);
      k := k + 1;
    }
  }

  /** `k` is the first position of `s` holding a non-negative number. */
  lemma FirstNonNegAt(s: seq<int>, k: int, r: int)
    requires r == FirstNonNeg(s)
    requires 0 <= k < |s| && s[k] >= 0
    requires r < 0 || k <= r
    ensures r == k
  {
  }

  /** One step of `RemoveEntry`, on the snapshots taken by `Layout`:
      package `k` of `ps`, whose first holder of `address` is at `hs[k]`,
      removes that holder's entry `j`, leaving it the cache `rc`; of the
      groups `fg`, whose entries and caches `EM` and `CM` hold, only that
      holder changes. */
  method DropAt(ps: seq<AssetAddressPackage>, k: int, address: string, ghost gl: seq<seq<AssetAddressGroupInfo>>,
                ghost fg: seq<AssetAddressGroupInfo>,
                ghost grid: seq<seq<seq<AssetAddressEntry>>>, ghost kg: seq<seq<seq<(string, string)>>>,
                ghost hs: seq<int>, ghost j: int, ghost rc: Cache,
                ghost EM: map<AssetAddressGroupInfo, seq<AssetAddressEntry>>, ghost CM: map<AssetAddressGroupInfo, Cache>)
      returns (removed: bool)
    requires 0 <= k < |ps| == |gl| && ps[k].Valid() && ps[k].groups == gl[k]
    requires forall k, g :: 0 <= k < |gl| && g in gl[k] ==> g in fg
    requires forall g | g in fg :: g in EM && g in CM && g.entries == EM[g] && g.entriesCache == CM[g]
    requires |grid| == |kg| == |hs| == |ps|
    requires forall k :: 0 <= k < |ps| ==> |grid[k]| == |kg[k]| == |gl[k]|
    requires forall k, i :: 0 <= k < |ps| && 0 <= i < |grid[k]| ==>
      EM[gl[k][i]] == grid[k][i] && KeysMatch(grid[k][i], kg[k][i])
    requires forall k :: 0 <= k < |ps| ==> hs[k] == FirstKeyHolder(kg[k], address)
    requires hs[k] >= 0 ==> (hs[k] < |gl[k]| && j == FindKey(kg[k][hs[k]], address) && 0 <= j < |grid[k][hs[k]]|
      && rc == RemoveCache(CM[gl[k][hs[k]]], grid[k][hs[k]][j]))
    modifies ps[k].groups`entries, ps[k].groups`entriesCache
    ensures removed == (hs[k] >= 0)
    ensures !removed ==> forall g | g in fg :: g.entries == EM[g] && g.entriesCache == CM[g]
    ensures removed ==> (ps[k].groups[hs[k]].entries == grid[k][hs[k]][..j] + grid[k][hs[k]][j + 1..]
      && ps[k].groups[hs[k]].entriesCache == rc)
    ensures removed ==> forall g | g in fg && g != ps[k].groups[hs[k]] :: g.entries == EM[g] && g.entriesCache == CM[g]
  {
    var p := ps[k];
    KeyHolderIsFirstHolder(p.groups, kg[k], address);
    removed := Drop(p, address, fg, hs[k], grid[k], kg[k], rc);
  }

  /** `RemoveAssetInfo` as one step of `RemoveEntry`: package `p`, whose groups hold `ess` with
      the (path, address) pairs `kss` and whose first holder of `address` is
      at `h`, removes it, leaving that holder the cache `rc`; among the
      groups `fg`, only that holder changes. */
  method Drop(p: AssetAddressPackage, address: string, ghost fg: seq<AssetAddressGroupInfo>, ghost h: int,
              ghost ess: seq<seq<AssetAddressEntry>>, ghost kss: seq<seq<(string, string)>>, ghost rc: Cache)
      returns (removed: bool)
    requires p.Valid()
    requires |ess| == |kss| == |p.groups|
    requires forall i :: 0 <= i < |ess| ==> p.groups[i].entries == ess[i] && KeysMatch(ess[i], kss[i])
    requires h == FirstHolder(p.groups, address)
    requires h >= 0 ==> 0 <= FindKey(kss[h], address) < |ess[h]|
    requires h >= 0 ==> rc == RemoveCache(p.groups[h].entriesCache, ess[h][FindKey(kss[h], address)])
    requires forall g :: g in p.groups ==> g in fg
    modifies p.groups`entries, p.groups`entriesCache
    ensures removed == (h >= 0)
    ensures !removed ==> forall g | g in fg :: g.entries == old(g.entries) && g.entriesCache == old(g.entriesCache)
    ensures removed ==> forall g | g in fg && g != p.groups[h] ::
      g.entries == old(g.entries) && g.entriesCache == old(g.entriesCache)
    ensures h >= 0 ==>
      var j := FindKey(kss[h], address);
      0 <= j < |ess[h]| && p.groups[h].entries == ess[h][..j] + ess[h][j + 1..]
      && p.groups[h].entriesCache == rc
  {
    if h >= 0 {
      FindKeyIsFindEntry(ess[h], kss[h], address);
    }
    removed := p.RemoveAssetInfo(address);
    forall g | g in fg && (h < 0 || g != p.groups[h])
      ensures g.entries == old(g.entries) && g.entriesCache == old(g.entriesCache)
    {
      if g in p.groups {
        var i :| 0 <= i < |p.groups| && p.groups[i] == g;
      }
    }
  }

  /** The views of a run of groups inside a longer list, read from that list's views. */
  lemma ViewsSlice(gs: seq<AssetAddressGroupInfo>, fg: seq<AssetAddressGroupInfo>, v: seq<Cache>, off: int)
    requires |v| == |fg| && 0 <= off && off + |gs| <= |fg|
    requires forall i :: 0 <= i < |gs| ==> fg[off + i] == gs[i]
    requires forall i :: 0 <= i < |fg| ==> fg[i].CacheView() == v[i]
    ensures ViewsOf(gs) == v[off..off + |gs|]
  {
  }

  /** Past a prefix without a hit, the hit in a longer prefix is the hit in the extension. */
  lemma HitInExtend(v: seq<Cache>, off: int, end: int, pv: seq<Cache>,
                    r: Option<AssetAddressEntry>, key: string)
    requires 0 <= off <= end <= |v|
    requires HitIn(v[..off], key).None?
    requires pv == v[off..end] && r == HitIn(pv, key)
    ensures r == HitIn(v[..end], key)
  {
    assert v[..end] == v[..off] + v[off..end];
    HitInAppend(v[..off], v[off..end], key);
  }

  /** A prefix that is the whole list or already holds a hit answers for the whole list. */
  lemma HitInWhole(v: seq<Cache>, off: int, key: string)
    requires 0 <= off <= |v|
    requires off == |v| || HitIn(v[..off], key).Some?
    ensures HitIn(v, key) == HitIn(v[..off], key)
  {
    assert v[..off] + v[off..] == v;
    HitInAppend(v[..off], v[off..], key);
  }

  /** The entries in `E` that are in `done` have lost one `label` from the
      labels they had in `orig`; the others are as they were. */
  ghost predicate Stripped(E: set<AssetAddressEntry>, orig: map<AssetAddressEntry, seq<string>>,
                           done: set<AssetAddressEntry>, tag: string)
    reads E
  {
    E == orig.Keys && done <= E
    && (forall e | e in E :: Distinct(orig[e]))
    && forall e | e in E :: e.labels == if e in done then RemoveFirst(orig[e], tag) else orig[e]
  }

  /** One entry loses the label, once however often it was visited. */
  method StripOne(e: AssetAddressEntry, tag: string, ghost E: set<AssetAddressEntry>,
                  ghost orig: map<AssetAddressEntry, seq<string>>, ghost done: set<AssetAddressEntry>)
    requires e in E && Stripped(E, orig, done, tag)
    modifies e`labels
    ensures Stripped(E, orig, done + {e}, tag)
  {
    RemoveDeletesFromDistinct(orig[e], tag);
    e.RemoveLabel(tag);
  }

  /** The inner loop of `RemoveLabel`: every entry of one group loses the label. */
  method StripEntries(es: seq<AssetAddressEntry>, tag: string, ghost E: set<AssetAddressEntry>,
                      ghost orig: map<AssetAddressEntry, seq<string>>, ghost done: set<AssetAddressEntry>)
      returns (ghost done': set<AssetAddressEntry>)
    requires forall j :: 0 <= j < |es| ==> es[j] in E
    requires Stripped(E, orig, done, tag)
    modifies E`labels
    ensures Stripped(E, orig, done', tag)
    ensures done <= done' && forall j :: 0 <= j < |es| ==> es[j] in done'
  {
    done' := done;
    var j := 0;
    while j < |es|
      invariant 0 <= j <= |es|
      invariant Stripped(E, orig, done', tag)
      invariant done <= done' && forall i :: 0 <= i < j ==> es[i] in done'
    {
      StripOne(es[j], tag, E, orig, done');
      done' := done' + {es[j]};
      j := j + 1;
    }
  }

  /** The outer loop of `RemoveLabel`: every package; `grid` holds the
      entry lists, which the loop does not change. */
  method StripPackages(ps: seq<AssetAddressPackage>, tag: string, ghost grid: seq<seq<seq<AssetAddressEntry>>>,
                       ghost E: set<AssetAddressEntry>, ghost orig: map<AssetAddressEntry, seq<string>>,
                       ghost done: set<AssetAddressEntry>)
      returns (ghost done': set<AssetAddressEntry>)
    requires |ps| == |grid| && forall k :: 0 <= k < |ps| ==> |ps[k].groups| == |grid[k]|
    requires forall k, i :: 0 <= k < |ps| && 0 <= i < |ps[k].groups| ==> ps[k].groups[i].entries == grid[k][i]
    requires GridMembers(grid) <= E
    requires Stripped(E, orig, done, tag)
    modifies E`labels
    ensures Stripped(E, orig, done', tag)
    ensures done <= done' && GridMembers(grid) <= done'
  {
    done' := done;
    var k := 0;
    while k < |ps|
      invariant 0 <= k <= |ps|
      invariant Stripped(E, orig, done', tag)
      invariant done <= done'
      invariant forall x, i, j :: 0 <= x < k && 0 <= i < |grid[x]| && 0 <= j < |grid[x][i]| ==> grid[x][i][j] in done'
    {
      assert forall i, j :: 0 <= i < |grid[k]| && 0 <= j < |grid[k][i]| ==> grid[k][i][j] in E;
      done' := StripGroups(ps[k].groups, tag, grid[k], E, orig, done');
      k := k + 1;
    }
  }

  /** The middle loop of `RemoveLabel`: every group of one package. */
  method StripGroups(gs: seq<AssetAddressGroupInfo>, tag: string, ghost ess: seq<seq<AssetAddressEntry>>,
                     ghost E: set<AssetAddressEntry>, ghost orig: map<AssetAddressEntry, seq<string>>,
                     ghost done: set<AssetAddressEntry>)
      returns (ghost done': set<AssetAddressEntry>)
    requires |gs| == |ess| && forall i :: 0 <= i < |gs| ==> gs[i].entries == ess[i]
    requires forall i, j :: 0 <= i < |ess| && 0 <= j < |ess[i]| ==> ess[i][j] in E
    requires Stripped(E, orig, done, tag)
    modifies E`labels
    ensures Stripped(E, orig, done', tag)
    ensures done <= done'
    ensures forall i, j :: 0 <= i < |ess| && 0 <= j < |ess[i]| ==> ess[i][j] in done'
  {
    done' := done;
    var i := 0;
    while i < |gs|
      invariant 0 <= i <= |gs|
      invariant Stripped(E, orig, done', tag)
      invariant done <= done'
      invariant forall x, j :: 0 <= x < i && 0 <= j < |ess[x]| ==> ess[x][j] in done'
    {
      done' := StripEntries(gs[i].entries, tag, E, orig, done');
      i := i + 1;
    }
  }

  /** What `Fix` logs about a package: a group name met again, or an asset
      path met again, with the package and group it was met in. */
  datatype FixLog =
    | RepeatedGroup(name: string)
    | RepeatedEntry(packageName: string, groupName: string, assetPath: string)

  /** The key at position `i` of `ks` occurred before it. */
  predicate Seen(ks: seq<string>, i: int)
    requires 0 <= i < |ks|
  {
    ks[i] in ks[..i]
  }

  /** The positions of `ks` whose key already occurred before them: the ones
      a scan that remembers every key it has seen reports. */
  function RepeatsAt(ks: seq<string>): (r: seq<nat>)
    ensures forall i :: 0 <= i < |r| ==> r[i] < |ks| && Seen(ks, r[i])
    ensures forall i :: 0 <= i < |ks| && Seen(ks, i) ==> i in r
    ensures forall i, j :: 0 <= i < j < |r| ==> r[i] < r[j]
  {
    if ks == [] then []
    else
      var n := |ks| - 1;
      var front := ks[..n];
      assert forall i :: 0 <= i < n ==> front[..i] == ks[..i] && front[i] == ks[i] && (Seen(front, i) <==> Seen(ks, i));
      assert front == ks[..n];
      if ks[n] in front then RepeatsAt(front) + [n] else RepeatsAt(front)
  }

  /** Nothing is reported exactly when no key occurs twice. */
  lemma NoRepeatsIffDistinct(ks: seq<string>)
    ensures RepeatsAt(ks) == [] <==> Distinct(ks)
  {
    var r := RepeatsAt(ks);
    if r == [] {
      forall i, j | 0 <= i < j < |ks| ensures ks[i] != ks[j] {
        assert ks[i] == ks[..j][i];
      }
    } else {
      var i := r[0];
      assert Seen(ks, i);
      var j :| 0 <= j < i && ks[..i][j] == ks[i];
      assert ks[j] == ks[i];
    }
  }

  /** The scan `Fix` runs over a package's group names and over its asset
      paths: a key already in the list of seen keys is reported, any other
      key is added to it. */
  method ReportRepeats(ks: seq<string>) returns (r: seq<nat>)
    ensures r == RepeatsAt(ks)
  {
    var seen: seq<string> := [];
    r := [];
    var i := 0;
    while i < |ks|
      invariant 0 <= i <= |ks|
      invariant forall x :: x in seen <==> x in ks[..i]
      invariant r == RepeatsAt(ks[..i])
    {
      assert ks[..i + 1][..i] == ks[..i];
      assert ks[..i + 1] == ks[..i] + [ks[i]];
      if ks[i] in seen {
        r := r + [i];
      } else {
        seen := seen + [ks[i]];
      }
      i := i + 1;
    }
    assert ks[..i] == ks;
  }

  /** The (group name, asset path) pairs in the order `Fix`'s entry check
      meets them: groups in order, each group's entries from last to first. */
  function Visits(ng: seq<string>, pg: seq<seq<string>>): (r: seq<(string, string)>)
  {
    if ng == [] || pg == [] then [] else GroupVisits(ng[0], pg[0]) + Visits(ng[1..], pg[1..])
  }

  /** One group's visits: its asset paths from last to first, with its name. */
  function GroupVisits(n: string, ps: seq<string>): (r: seq<(string, string)>)
    ensures |r| == |ps|
  {
    if ps == [] then [] else [(n, ps[|ps| - 1])] + GroupVisits(n, ps[..|ps| - 1])
  }

  /** The asset paths of visits. */
  function PathsVisited(vs: seq<(string, string)>): (r: seq<string>)
    ensures |r| == |vs| && forall i :: 0 <= i < |vs| ==> r[i] == vs[i].1
  {
    if vs == [] then [] else [vs[0].1] + PathsVisited(vs[1..])
  }

  /** The asset paths in visiting order. */
  function VisitedPaths(ng: seq<string>, pg: seq<seq<string>>): seq<string>
  {
    PathsVisited(Visits(ng, pg))
  }

  /** The entry check visits every asset path of the package exactly as
      often as the package lists it. */
  lemma {:induction false} VisitsEveryPath(ng: seq<string>, pg: seq<seq<string>>)
    requires |ng| == |pg|
    ensures multiset(VisitedPaths(ng, pg)) == multiset(Flatten(pg))
  {
    if ng != [] {
      VisitsEveryPath(ng[1..], pg[1..]);
      GroupVisitsPaths(ng[0], pg[0]);
      PathsVisitedAppend(GroupVisits(ng[0], pg[0]), Visits(ng[1..], pg[1..]));
    }
  }

  /** A group's visits carry its paths, reversed. */
  lemma {:induction false} GroupVisitsPaths(n: string, ps: seq<string>)
    ensures multiset(PathsVisited(GroupVisits(n, ps))) == multiset(ps)
  {
    if ps != [] {
      var m := |ps| - 1;
      GroupVisitsPaths(n, ps[..m]);
      PathsVisitedAppend([(n, ps[m])], GroupVisits(n, ps[..m]));
      assert ps == ps[..m] + [ps[m]];
    }
  }

  lemma {:induction false} PathsVisitedAppend(a: seq<(string, string)>, b: seq<(string, string)>)
    ensures PathsVisited(a + b) == PathsVisited(a) + PathsVisited(b)
  {
  }

  /** The group-name reports for the positions `rs` of `ng`. */
  function GroupLogs(ng: seq<string>, rs: seq<nat>): (r: seq<FixLog>)
    requires forall i :: 0 <= i < |rs| ==> rs[i] < |ng|
  {
    if rs == [] then [] else [RepeatedGroup(ng[rs[0]])] + GroupLogs(ng, rs[1..])
  }

  /** The asset-path reports of package `pn` for the positions `rs` of the visits `vs`. */
  function EntryLogs(pn: string, vs: seq<(string, string)>, rs: seq<nat>): (r: seq<FixLog>)
    requires forall i :: 0 <= i < |rs| ==> rs[i] < |vs|
  {
    if rs == [] then [] else [RepeatedEntry(pn, vs[rs[0]].0, vs[rs[0]].1)] + EntryLogs(pn, vs, rs[1..])
  }

  /** Everything `Fix` logs for the package named `pn`, whose groups are
      named `ng` and hold the asset paths `pg`: first the repeated group
      names, then the repeated asset paths. */
  function PackageLogs(pn: string, ng: seq<string>, pg: seq<seq<string>>): (r: seq<FixLog>)
  {
    GroupLogs(ng, RepeatsAt(ng)) + EntryLogs(pn, Visits(ng, pg), RepeatsAt(VisitedPaths(ng, pg)))
  }

  /** A package's check logs nothing exactly when its group names are
      distinct and no asset path is listed twice in it. */
  lemma PackageLogsQuiet(pn: string, ng: seq<string>, pg: seq<seq<string>>)
    requires |ng| == |pg|
    ensures PackageLogs(pn, ng, pg) == [] <==> Distinct(ng) && Distinct(VisitedPaths(ng, pg))
  {
    NoRepeatsIffDistinct(ng);
    NoRepeatsIffDistinct(VisitedPaths(ng, pg));
  }

  /** Whatever a package's check logs is a group name or an asset path that
      occurs twice in the package; nothing else is reported. */
  lemma PackageLogsTwice(pn: string, ng: seq<string>, pg: seq<seq<string>>)
    requires |ng| == |pg|
    ensures forall l | l in PackageLogs(pn, ng, pg) ::
      (l.RepeatedGroup? && multiset(ng)[l.name] >= 2)
      || (l.RepeatedEntry? && l.packageName == pn && multiset(Flatten(pg))[l.assetPath] >= 2)
  {
    var vs := Visits(ng, pg);
    var vp := VisitedPaths(ng, pg);
    VisitsEveryPath(ng, pg);
    GroupLogsTwice(ng, RepeatsAt(ng));
    EntryLogsTwice(pn, vs, RepeatsAt(vp));
  }

  lemma {:induction false} GroupLogsTwice(ng: seq<string>, rs: seq<nat>)
    requires forall i :: 0 <= i < |rs| ==> rs[i] < |ng| && Seen(ng, rs[i])
    ensures forall l | l in GroupLogs(ng, rs) :: l.RepeatedGroup? && multiset(ng)[l.name] >= 2
  {
    if rs != [] {
      TwiceIn(ng, rs[0]);
      GroupLogsTwice(ng, rs[1..]);
    }
  }

  lemma {:induction false} EntryLogsTwice(pn: string, vs: seq<(string, string)>, rs: seq<nat>)
    requires forall i :: 0 <= i < |rs| ==> rs[i] < |vs| && Seen(PathsVisited(vs), rs[i])
    ensures forall l | l in EntryLogs(pn, vs, rs) ::
      l.RepeatedEntry? && l.packageName == pn && multiset(PathsVisited(vs))[l.assetPath] >= 2
  {
    if rs != [] {
      TwiceIn(PathsVisited(vs), rs[0]);
      EntryLogsTwice(pn, vs, rs[1..]);
    }
  }

  /** A key that occurred before position `i` as well occurs twice. */
  lemma TwiceIn(ks: seq<string>, i: nat)
    requires i < |ks| && Seen(ks, i)
    ensures multiset(ks)[ks[i]] >= 2
  {
    var j :| 0 <= j < i && ks[..i][j] == ks[i];
    assert ks == ks[..j] + [ks[j]] + ks[j + 1..i] + [ks[i]] + ks[i + 1..];
  }

  /** The duplicate checks `Fix` runs on one package, over the values it
      reads: the package name, the group names and each group's asset paths. */
  method CheckPackage(pn: string, ng: seq<string>, pg: seq<seq<string>>) returns (logs: seq<FixLog>)
    requires |ng| == |pg|
    ensures logs == PackageLogs(pn, ng, pg)
  {
    var rg := ReportRepeats(ng);
    var vs := Visits(ng, pg);
    var re := ReportRepeats(PathsVisited(vs));
    logs := GroupLogs(ng, rg) + EntryLogs(pn, vs, re);
  }

  /** `m` after the name `n` is written to every element of `xs`. */
  function Paint<T>(m: map<T, string>, xs: seq<T>, n: string): (r: map<T, string>)
    ensures forall x | x in xs :: x in r && r[x] == n
    ensures forall x | x in m :: x in r && (x !in xs ==> r[x] == m[x])
  {
    if xs == [] then m
    else
      var l := |xs| - 1;
      assert forall x | x in xs :: x == xs[l] || x in xs[..l];
      Paint(m, xs[..l], n)[xs[l] := n]
  }

  /** `m` after the names `ns[i]` are written, in order, to every element
      of `xss[i]`: the last write to an element wins. */
  function StampAll<T>(m: map<T, string>, xss: seq<seq<T>>, ns: seq<string>): (r: map<T, string>)
    ensures m.Keys <= r.Keys
    ensures |xss| == |ns| ==> forall i, x | 0 <= i < |xss| && x in xss[i] :: x in r
  {
    if xss == [] || ns == [] then m
    else
      var n, l := |xss| - 1, |ns| - 1;
      assert forall i :: 0 <= i < n ==> xss[..n][i] == xss[i];
      Paint(StampAll(m, xss[..n], ns[..l]), xss[n], ns[l])
  }

  /** An element ends with the name of the last list holding it. */
  lemma {:induction false} StampLast<T>(m: map<T, string>, xss: seq<seq<T>>, ns: seq<string>, x: T, i: int)
    requires |xss| == |ns| && 0 <= i < |xss| && x in xss[i]
    requires forall j :: i < j < |xss| ==> x !in xss[j]
    ensures x in StampAll(m, xss, ns) && StampAll(m, xss, ns)[x] == ns[i]
  {
    var n := |xss| - 1;
    var front := StampAll(m, xss[..n], ns[..n]);
    assert StampAll(m, xss, ns) == Paint(front, xss[n], ns[n]);
    if i < n {
      assert xss[..n][i] == xss[i];
      assert forall j :: i < j < n ==> xss[..n][j] == xss[j];
      StampLast(m, xss[..n], ns[..n], x, i);
      assert x !in xss[n];
    }
  }

  /** An element no list holds keeps its name. */
  lemma {:induction false} StampKeeps<T>(m: map<T, string>, xss: seq<seq<T>>, ns: seq<string>, x: T)
    requires |xss| == |ns| && x in m
    requires forall j :: 0 <= j < |xss| ==> x !in xss[j]
    ensures StampAll(m, xss, ns)[x] == m[x]
  {
    if xss != [] {
      var n := |xss| - 1;
      StampKeeps(m, xss[..n], ns[..n], x);
    }
  }

  /** Writing two runs of lists is writing the first, then the second. */
  lemma {:induction false} StampAppend<T>(m: map<T, string>, a: seq<seq<T>>, na: seq<string>,
                                          b: seq<seq<T>>, nb: seq<string>)
    requires |a| == |na| && |b| == |nb|
    ensures StampAll(m, a + b, na + nb) == StampAll(StampAll(m, a, na), b, nb)
  {
    if b == [] {
      assert a + b == a && na + nb == na;
    } else {
      var n := |b| - 1;
      var ab, nab := a + b, na + nb;
      assert ab[..|ab| - 1] == a + b[..n] && nab[..|nab| - 1] == na + nb[..n];
      assert ab[|ab| - 1] == b[n] && nab[|nab| - 1] == nb[n];
      StampAllLast(m, ab, nab);
      StampAppend(m, a, na, b[..n], nb[..n]);
      StampAllLast(StampAll(m, a, na), b, nb);
    }
  }

  /** The last list is written last. */
  lemma StampAllLast<T>(m: map<T, string>, xss: seq<seq<T>>, ns: seq<string>)
    requires |xss| == |ns| > 0
    ensures StampAll(m, xss, ns) == Paint(StampAll(m, xss[..|xss| - 1], ns[..|ns| - 1]), xss[|xss| - 1], ns[|ns| - 1])
  {
  }

  /** One more list written. */
  lemma StampStep<T>(m: map<T, string>, xss: seq<seq<T>>, ns: seq<string>, i: int)
    requires |xss| == |ns| && 0 <= i < |xss|
    ensures StampAll(m, xss[..i + 1], ns[..i + 1]) == Paint(StampAll(m, xss[..i], ns[..i]), xss[i], ns[i])
  {
    assert xss[..i + 1][..i] == xss[..i] && ns[..i + 1][..i] == ns[..i];
  }

  /** One more element written. */
  lemma PaintStep<T>(m: map<T, string>, xs: seq<T>, i: int, n: string)
    requires 0 <= i < |xs|
    ensures Paint(m, xs[..i], n)[xs[i] := n] == Paint(m, xs[..i + 1], n)
  {
    assert xs[..i + 1][..i] == xs[..i];
  }

  /** Every entry of `E` shows the group name `em` gives it. */
  ghost predicate GroupNamesAre(E: set<AssetAddressEntry>, em: map<AssetAddressEntry, string>)
    reads E`groupName
  {
    E <= em.Keys && forall e | e in E :: e.groupName == em[e]
  }

  /** Every group of `G` shows the package name `gm` gives it. */
  ghost predicate PackageNamesAre(G: set<AssetAddressGroupInfo>, gm: map<AssetAddressGroupInfo, string>)
    reads G`packageName
  {
    G <= gm.Keys && forall g | g in G :: g.packageName == gm[g]
  }

  /** The inner loop of `Fix`'s stamping: every entry of one group takes the
      group's name. */
  method StampEntries(es: seq<AssetAddressEntry>, name: string, ghost E: set<AssetAddressEntry>,
                      ghost em: map<AssetAddressEntry, string>)
      returns (ghost em': map<AssetAddressEntry, string>)
    requires forall j :: 0 <= j < |es| ==> es[j] in E
    requires GroupNamesAre(E, em)
    modifies E`groupName
    ensures GroupNamesAre(E, em') && em' == Paint(em, es, name)
  {
    em' := em;
    var j := 0;
    while j < |es|
      invariant 0 <= j <= |es|
      invariant GroupNamesAre(E, em')
      invariant em' == Paint(em, es[..j], name)
    {
      PaintStep(em, es, j, name);
      es[j].groupName := name;
      em' := em'[es[j] := name];
      j := j + 1;
    }
    assert es[..j] == es;
  }

  /** One group of `Fix`'s stamping: the group `g` takes the package name
      `pn` and each of its entries `es` the group's name `name`. */
  method StampGroup(g: AssetAddressGroupInfo, pn: string, es: seq<AssetAddressEntry>, name: string,
                    ghost G: set<AssetAddressGroupInfo>,
                    ghost gm: map<AssetAddressGroupInfo, string>, ghost E: set<AssetAddressEntry>,
                    ghost em: map<AssetAddressEntry, string>)
    requires g in G && forall j :: 0 <= j < |es| ==> es[j] in E
    requires PackageNamesAre(G, gm) && GroupNamesAre(E, em)
    modifies g`packageName, E`groupName
    ensures PackageNamesAre(G, gm[g := pn]) && GroupNamesAre(E, Paint(em, es, name))
  {
    g.packageName := pn;
    ghost var em' := StampEntries(es, name, E, em);
  }

  /** The inner loops of `Fix`'s stamping over one package named `pn`: every
      group `gs[i]` takes the package name, and every entry of it (listed in
      `ess[i]`) the group's name `ns[i]`; groups of `G` and entries of `E`
      that `gs` does not reach keep the names `gm` and `em` give them. */
  method StampGroups(gs: seq<AssetAddressGroupInfo>, pn: string, ess: seq<seq<AssetAddressEntry>>,
                     ns: seq<string>, ghost G: set<AssetAddressGroupInfo>,
                     ghost gm: map<AssetAddressGroupInfo, string>, ghost E: set<AssetAddressEntry>,
                     ghost em: map<AssetAddressEntry, string>)
    requires |gs| == |ess| == |ns|
    requires forall i :: 0 <= i < |gs| ==> gs[i] in G && forall j :: 0 <= j < |ess[i]| ==> ess[i][j] in E
    requires PackageNamesAre(G, gm) && GroupNamesAre(E, em)
    modifies G`packageName, E`groupName
    ensures PackageNamesAre(G, Paint(gm, gs, pn)) && GroupNamesAre(E, StampAll(em, ess, ns))
  {
    var i := 0;
    ghost var gm' := gm;
    ghost var em' := em;
    while i < |gs|
      invariant 0 <= i <= |gs|
      invariant gm' == Paint(gm, gs[..i], pn) && em' == StampAll(em, ess[..i], ns[..i])
      invariant PackageNamesAre(G, gm') && GroupNamesAre(E, em')
    {
      PaintStep(gm, gs, i, pn);
      StampStep(em, ess, ns, i);
      StampGroup(gs[i], pn, ess[i], ns[i], G, gm', E, em');
      gm', em' := gm'[gs[i] := pn], Paint(em', ess[i], ns[i]);
      i := i + 1;
    }
    assert gs[..i] == gs && ess[..i] == ess && ns[..i] == ns;
  }

  /** Each package's check logs, package by package, for packages named
      `pn` whose groups are named `ng` and hold the asset paths `pg`. */
  function LogsEach(pn: seq<string>, ng: seq<seq<string>>, pg: seq<seq<seq<string>>>): (r: seq<seq<FixLog>>)
    requires |pn| == |ng| == |pg|
    ensures |r| == |pn|
  {
    seq(|pn|, k requires 0 <= k < |pn| => PackageLogs(pn[k], ng[k], pg[k]))
  }

  /** Everything `Fix` logs over the first `n` packages, package after
      package. */
  function FixLogs(pn: seq<string>, ng: seq<seq<string>>, pg: seq<seq<seq<string>>>, n: nat): seq<FixLog>
    requires |pn| == |ng| == |pg| && n <= |pn|
  {
    Flatten(LogsEach(pn, ng, pg)[..n])
  }

  /** `Fix` logs nothing exactly when no package's check logs anything,
      that is (by `PackageLogsQuiet`) when no package repeats a group name
      or an asset path. */
  lemma FixLogsQuiet(pn: seq<string>, ng: seq<seq<string>>, pg: seq<seq<seq<string>>>)
    requires |pn| == |ng| == |pg|
    ensures FixLogs(pn, ng, pg, |pn|) == [] <==> forall k :: 0 <= k < |pn| ==> PackageLogs(pn[k], ng[k], pg[k]) == []
  {
    var all := LogsEach(pn, ng, pg);
    Whole(all);
    FlattenEmpty(all);
    assert forall k :: 0 <= k < |pn| ==> all[k] == PackageLogs(pn[k], ng[k], pg[k]);
  }

  /** The group names of `gs`. */
  function NamesOf(gs: seq<AssetAddressGroupInfo>): (r: seq<string>)
    reads gs`groupName
    ensures |r| == |gs| && forall i :: 0 <= i < |gs| ==> r[i] == gs[i].groupName
  {
    if gs == [] then [] else [gs[0].groupName] + NamesOf(gs[1..])
  }

  /** The asset paths of `es`. */
  function PathsOf(es: seq<AssetAddressEntry>): (r: seq<string>)
    reads es`assetPath
    ensures |r| == |es| && forall j :: 0 <= j < |es| ==> r[j] == es[j].assetPath
  {
    if es == [] then [] else [es[0].assetPath] + PathsOf(es[1..])
  }

  /** Each group's asset paths. */
  function PathLists(gs: seq<AssetAddressGroupInfo>): (r: seq<seq<string>>)
    reads gs, set i, j | 0 <= i < |gs| && 0 <= j < |gs[i].entries| :: gs[i].entries[j]
    ensures |r| == |gs| && forall i :: 0 <= i < |gs| ==> r[i] == PathsOf(gs[i].entries)
  {
    if gs == [] then [] else [PathsOf(gs[0].entries)] + PathLists(gs[1..])
  }

  /** The projections of groups whose lists hold `ess`, named `ns`, with the asset paths `pss`. */
  lemma ProjectionsAre(gs: seq<AssetAddressGroupInfo>, ess: seq<seq<AssetAddressEntry>>, ns: seq<string>, pss: seq<seq<string>>)
    requires |gs| == |ess| == |ns| == |pss|
    requires forall i :: 0 <= i < |ess| ==>
      gs[i].entries == ess[i] && gs[i].groupName == ns[i] && |pss[i]| == |ess[i]|
      && forall j :: 0 <= j < |ess[i]| ==> ess[i][j].assetPath == pss[i][j]
    ensures NamesOf(gs) == ns && PathLists(gs) == pss && EntriesOf(gs) == ess
  {
    assert forall i :: 0 <= i < |gs| ==> PathLists(gs)[i] == pss[i];
  }

  /** `Fix`'s work on one package named `pn`: the duplicate checks of its
      groups `gs`, named `ns` and holding the asset paths `pss`, then the
      stamping of those groups and of their entries `ess`. */
  method FixPackage(pn: string, gs: seq<AssetAddressGroupInfo>, ess: seq<seq<AssetAddressEntry>>,
                    ns: seq<string>, pss: seq<seq<string>>, ghost G: set<AssetAddressGroupInfo>,
                    ghost gm: map<AssetAddressGroupInfo, string>, ghost E: set<AssetAddressEntry>,
                    ghost em: map<AssetAddressEntry, string>)
      returns (logs: seq<FixLog>)
    requires |gs| == |ess| == |ns| == |pss|
    requires forall i :: 0 <= i < |gs| ==> gs[i] in G && forall j :: 0 <= j < |ess[i]| ==> ess[i][j] in E
    requires PackageNamesAre(G, gm) && GroupNamesAre(E, em)
    modifies G`packageName, E`groupName
    ensures logs == PackageLogs(pn, ns, pss)
    ensures PackageNamesAre(G, Paint(gm, gs, pn)) && GroupNamesAre(E, StampAll(em, ess, ns))
  {
    logs := CheckPackage(pn, ns, pss);
    StampGroups(gs, pn, ess, ns, G, gm, E, em);
  }

  /** `m` after the packages' writes, package after package: the lists
      `grid[k]` take the names `NG[k]`. */
  function StampGrid<T>(m: map<T, string>, grid: seq<seq<seq<T>>>, NG: seq<seq<string>>): (r: map<T, string>)
  {
    if grid == [] || NG == [] then m
    else
      var n, l := |grid| - 1, |NG| - 1;
      StampAll(StampGrid(m, grid[..n], NG[..l]), grid[n], NG[l])
  }

  /** The packages' writes, package after package, are the writes of all
      their lists in order. */
  lemma {:induction false} StampGridFlat<T>(m: map<T, string>, grid: seq<seq<seq<T>>>, NG: seq<seq<string>>)
    requires |grid| == |NG| && forall k :: 0 <= k < |grid| ==> |grid[k]| == |NG[k]|
    ensures |Flatten(grid)| == |Flatten(NG)|
    ensures StampGrid(m, grid, NG) == StampAll(m, Flatten(grid), Flatten(NG))
  {
    FlattenSameShape(grid, NG);
    if grid != [] {
      var n := |grid| - 1;
      StampGridFlat(m, grid[..n], NG[..n]);
      FlattenPrefixStep(grid, n);
      FlattenPrefixStep(NG, n);
      assert grid[..n + 1] == grid && NG[..n + 1] == NG;
      StampAppend(m, Flatten(grid[..n]), Flatten(NG[..n]), grid[n], NG[n]);
    }
  }

  /** One more package's writes. */
  lemma StampGridStep<T>(m: map<T, string>, grid: seq<seq<seq<T>>>, NG: seq<seq<string>>, k: int)
    requires |grid| == |NG| && forall x :: 0 <= x < |grid| ==> |grid[x]| == |NG[x]|
    requires 0 <= k < |grid|
    ensures StampGrid(m, grid[..k + 1], NG[..k + 1]) == StampAll(StampGrid(m, grid[..k], NG[..k]), grid[k], NG[k])
  {
    assert grid[..k + 1][..k] == grid[..k] && NG[..k + 1][..k] == NG[..k];
  }

  /** The ghost snapshot `Fix` works from: `gl[k]` are the groups of
      package `k`, `grid[k][i]` the entries of group `i` of it, `PN`, `NG`
      and `PG` the package names, group names and asset paths, all of the
      same shape; every package is in `P`, every group in `G`, every entry
      in `E`. */
  ghost predicate FixLayout(ps: seq<AssetAddressPackage>, gl: seq<seq<AssetAddressGroupInfo>>,
                            grid: seq<seq<seq<AssetAddressEntry>>>, PN: seq<string>,
                            NG: seq<seq<string>>, PG: seq<seq<seq<string>>>,
                            P: set<AssetAddressPackage>, G: set<AssetAddressGroupInfo>, E: set<AssetAddressEntry>)
  {
    && |gl| == |ps| == |grid| == |PN| == |NG| == |PG|
    && (forall k :: 0 <= k < |ps| ==> ps[k] in P && |gl[k]| == |grid[k]| == |NG[k]| == |PG[k]|)
    && (forall k, i :: 0 <= k < |ps| && 0 <= i < |gl[k]| ==> gl[k][i] in G && |grid[k][i]| == |PG[k][i]|)
    && (forall k, i, j :: 0 <= k < |ps| && 0 <= i < |gl[k]| && 0 <= j < |grid[k][i]| ==> grid[k][i][j] in E)
  }

  /** What `Fix` reads of the packages laid out by `FixLayout`: package `k`
      is named `PN[k]`, its groups are named `NG[k]` and hold the entry
      lists `grid[k]` with the asset paths `PG[k]`. */
  ghost predicate FixShape(ps: seq<AssetAddressPackage>, gl: seq<seq<AssetAddressGroupInfo>>,
                           grid: seq<seq<seq<AssetAddressEntry>>>, PN: seq<string>,
                           NG: seq<seq<string>>, PG: seq<seq<seq<string>>>,
                           P: set<AssetAddressPackage>, G: set<AssetAddressGroupInfo>, E: set<AssetAddressEntry>)
    reads P`groups, P`packageName, G`entries, G`groupName, E`assetPath
  {
    && FixLayout(ps, gl, grid, PN, NG, PG, P, G, E)
    && (forall k :: 0 <= k < |ps| ==> ps[k].groups == gl[k] && ps[k].packageName == PN[k])
    && (forall k, i :: 0 <= k < |ps| && 0 <= i < |gl[k]| ==> gl[k][i].entries == grid[k][i] && gl[k][i].groupName == NG[k][i])
    && (forall k, i, j :: 0 <= k < |ps| && 0 <= i < |gl[k]| && 0 <= j < |grid[k][i]| ==>
          grid[k][i][j].assetPath == PG[k][i][j])
  }

  /** `Fix`'s reads of the packages `ps`, laid out by `FixLayout`: what
      `FixShape` says they show. The checks read group names and asset
      paths and the stamping writes package names of groups and group
      names of entries, so the reads may all come first. */
  method ReadPackages(ps: seq<AssetAddressPackage>, ghost gl: seq<seq<AssetAddressGroupInfo>>,
                      ghost grid: seq<seq<seq<AssetAddressEntry>>>, ghost PN: seq<string>,
                      ghost NG: seq<seq<string>>, ghost PG: seq<seq<seq<string>>>,
                      ghost P: set<AssetAddressPackage>, ghost G: set<AssetAddressGroupInfo>, ghost E: set<AssetAddressEntry>)
      returns (rgl: seq<seq<AssetAddressGroupInfo>>, rgrid: seq<seq<seq<AssetAddressEntry>>>,
               rPN: seq<string>, rNG: seq<seq<string>>, rPG: seq<seq<seq<string>>>)
    requires FixLayout(ps, gl, grid, PN, NG, PG, P, G, E) && FixShape(ps, gl, grid, PN, NG, PG, P, G, E)
    ensures rgl == gl && rgrid == grid && rPN == PN && rNG == NG && rPG == PG
  {
    rgl, rgrid, rPN, rNG, rPG := [], [], [], [], [];
    var k := 0;
    while k < |ps|
      invariant 0 <= k <= |ps|
      invariant rgl == gl[..k] && rgrid == grid[..k] && rPN == PN[..k] && rNG == NG[..k] && rPG == PG[..k]
    {
      var p := ps[k];
      var groups := p.groups;
      ReadAt(ps, gl, grid, PN, NG, PG, P, G, E, k);
      PrefixSnoc(gl, k); PrefixSnoc(grid, k); PrefixSnoc(PN, k); PrefixSnoc(NG, k); PrefixSnoc(PG, k);
      rgl, rPN := rgl + [groups], rPN + [p.packageName];
      rgrid, rNG, rPG := rgrid + [EntriesOf(groups)], rNG + [NamesOf(groups)], rPG + [PathLists(groups)];
      k := k + 1;
    }
    Whole(gl); Whole(grid); Whole(PN); Whole(NG); Whole(PG);
  }

  /** The reads of package `k`. */
  lemma ReadAt(ps: seq<AssetAddressPackage>, gl: seq<seq<AssetAddressGroupInfo>>,
               grid: seq<seq<seq<AssetAddressEntry>>>, PN: seq<string>,
               NG: seq<seq<string>>, PG: seq<seq<seq<string>>>,
               P: set<AssetAddressPackage>, G: set<AssetAddressGroupInfo>, E: set<AssetAddressEntry>, k: int)
    requires FixLayout(ps, gl, grid, PN, NG, PG, P, G, E) && FixShape(ps, gl, grid, PN, NG, PG, P, G, E) && 0 <= k < |ps|
    ensures ps[k].groups == gl[k] && ps[k].packageName == PN[k]
    ensures EntriesOf(gl[k]) == grid[k] && NamesOf(gl[k]) == NG[k] && PathLists(gl[k]) == PG[k]
  {
    ProjectionsAre(gl[k], grid[k], NG[k], PG[k]);
  }

  /** One step of `FixPackages`: package `k` is checked and stamped after
      the packages before it. */
  method FixAt(k: int, logs: seq<FixLog>, gl: seq<seq<AssetAddressGroupInfo>>,
               grid: seq<seq<seq<AssetAddressEntry>>>, PN: seq<string>,
               NG: seq<seq<string>>, PG: seq<seq<seq<string>>>, ghost ps: seq<AssetAddressPackage>,
               ghost P: set<AssetAddressPackage>, ghost G: set<AssetAddressGroupInfo>,
               ghost gm0: map<AssetAddressGroupInfo, string>, ghost E: set<AssetAddressEntry>,
               ghost em0: map<AssetAddressEntry, string>)
      returns (logs': seq<FixLog>)
    requires FixLayout(ps, gl, grid, PN, NG, PG, P, G, E) && 0 <= k < |ps|
    requires logs == FixLogs(PN, NG, PG, k)
    requires PackageNamesAre(G, StampAll(gm0, gl[..k], PN[..k]))
    requires GroupNamesAre(E, StampGrid(em0, grid[..k], NG[..k]))
    modifies G`packageName, E`groupName
    ensures logs' == FixLogs(PN, NG, PG, k + 1)
    ensures PackageNamesAre(G, StampAll(gm0, gl[..k + 1], PN[..k + 1]))
    ensures GroupNamesAre(E, StampGrid(em0, grid[..k + 1], NG[..k + 1]))
  {
    StampStep(gm0, gl, PN, k);
    StampGridStep(em0, grid, NG, k);
    FlattenPrefixStep(LogsEach(PN, NG, PG), k);
    var more := FixPackage(PN[k], gl[k], grid[k], NG[k], PG[k], G, StampAll(gm0, gl[..k], PN[..k]),
                           E, StampGrid(em0, grid[..k], NG[..k]));
    logs' := logs + more;
  }

  /** The outer loop of `Fix` over the packages `ps`: package `k` is named
      `PN[k]`, its groups `gl[k]` are named `NG[k]`, hold the entry lists
      `grid[k]` and the asset paths `PG[k]`. The logs are everything the
      checks report, package after package; each group ends with the name
      of the last package that lists it, each entry with the name of the
      last group that lists it, and the rest of `G` and `E` keep theirs. */
  method FixPackages(ps: seq<AssetAddressPackage>, ghost gl: seq<seq<AssetAddressGroupInfo>>,
                     ghost grid: seq<seq<seq<AssetAddressEntry>>>, ghost PN: seq<string>,
                     ghost NG: seq<seq<string>>, ghost PG: seq<seq<seq<string>>>,
                     ghost P: set<AssetAddressPackage>, ghost G: set<AssetAddressGroupInfo>,
                     ghost gm0: map<AssetAddressGroupInfo, string>, ghost E: set<AssetAddressEntry>, ghost em0: map<AssetAddressEntry, string>)
      returns (logs: seq<FixLog>)
    requires FixLayout(ps, gl, grid, PN, NG, PG, P, G, E) && FixShape(ps, gl, grid, PN, NG, PG, P, G, E)
    requires PackageNamesAre(G, gm0) && GroupNamesAre(E, em0)
    modifies G`packageName, E`groupName
    ensures logs == FixLogs(PN, NG, PG, |PN|)
    ensures PackageNamesAre(G, StampAll(gm0, gl, PN)) && GroupNamesAre(E, StampGrid(em0, grid, NG))
  {
    var groups, entries, names, groupNames, paths := ReadPackages(ps, gl, grid, PN, NG, PG, P, G, E);
    logs := [];
    var k := 0;
    while k < |ps|
      invariant 0 <= k <= |ps|
      invariant logs == FixLogs(PN, NG, PG, k)
      invariant PackageNamesAre(G, StampAll(gm0, gl[..k], PN[..k]))
      invariant GroupNamesAre(E, StampGrid(em0, grid[..k], NG[..k]))
    {
      logs := FixAt(k, logs, groups, entries, names, groupNames, paths, ps, P, G, gm0, E, em0);
      k := k + 1;
    }
    Whole(gl); Whole(PN); Whole(grid); Whole(NG);
  }
}
