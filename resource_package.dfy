/** `ResourcePackage`: the older run-time registry that loads a bundle
    together with the dependencies that are not loaded yet. Loading a bundle
    from disk is engine I/O; a loaded bundle is represented by the path it
    is read from. */
module ResourcePackages {
  import opened Wrappers
  import opened Collections
  import opened Graphs
  import opened Manifest

  /** The path `LoadAssetBundle` reads a bundle from. */
  function BundlePath(name: string): string {
    "TestBuild/" + name
  }

  /** The first record named `name`, searching the manifests in order. */
  function FirstDetail(ms: seq<ManifestData>, name: string): Option<BundleInfo> {
    if ms == [] then None
    else if FindBundle(ms[0].bundleInfos, name).Some? then FindBundle(ms[0].bundleInfos, name)
    else FirstDetail(ms[1..], name)
  }

  /** The first address record for `address`, searching the manifests in order. */
  function FirstAddress(ms: seq<ManifestData>, address: string): Option<AddressInfo> {
    if ms == [] then None
    else if FindAddress(ms[0].addressInfos, address).Some? then FindAddress(ms[0].addressInfos, address)
    else FirstAddress(ms[1..], address)
  }

  /** The lookup across manifests answers from the first manifest that has
      a record of that name, and finds none only when no manifest has one. */
  lemma {:induction false} FirstDetailIsFirst(ms: seq<ManifestData>, name: string)
    ensures FirstDetail(ms, name).None? <==>
      forall i :: 0 <= i < |ms| ==> FindBundle(ms[i].bundleInfos, name).None?
    ensures forall i :: 0 <= i < |ms| && FindBundle(ms[i].bundleInfos, name).Some? ==>
      (forall j :: 0 <= j < i ==> FindBundle(ms[j].bundleInfos, name).None?) ==>
        FirstDetail(ms, name) == FindBundle(ms[i].bundleInfos, name)
    decreases |ms|
  {
    if ms != [] {
      FirstDetailIsFirst(ms[1..], name);
      assert forall i :: 1 <= i < |ms| ==> ms[i] == ms[1..][i - 1];
    }
  }

  /** The same for address records. */
  lemma {:induction false} FirstAddressIsFirst(ms: seq<ManifestData>, address: string)
    ensures FirstAddress(ms, address).None? <==>
      forall i :: 0 <= i < |ms| ==> FindAddress(ms[i].addressInfos, address).None?
    ensures forall i :: 0 <= i < |ms| && FindAddress(ms[i].addressInfos, address).Some? ==>
      (forall j :: 0 <= j < i ==> FindAddress(ms[j].addressInfos, address).None?) ==>
        FirstAddress(ms, address) == FindAddress(ms[i].addressInfos, address)
    decreases |ms|
  {
    if ms != [] {
      FirstAddressIsFirst(ms[1..], address);
      assert forall i :: 1 <= i < |ms| ==> ms[i] == ms[1..][i - 1];
    }
  }

  /** Every record name of every manifest. */
  ghost function RecordNames(ms: seq<ManifestData>): set<string> {
    set i, j | 0 <= i < |ms| && 0 <= j < |ms[i].bundleInfos| :: ms[i].bundleInfos[j].name
  }

  /** Every dependency name of every record of every manifest. */
  ghost function DependencyNames(ms: seq<ManifestData>): set<string> {
    set i, j, d | 0 <= i < |ms| && 0 <= j < |ms[i].bundleInfos| &&
      d in ms[i].bundleInfos[j].dependencies.GetOr([]) :: d
  }

  /** A record found by name is one of the manifests' records. */
  lemma {:induction false} FirstDetailIsRecord(ms: seq<ManifestData>, name: string)
    requires FirstDetail(ms, name).Some?
    ensures exists i, j ::
      0 <= i < |ms| && 0 <= j < |ms[i].bundleInfos| &&
      ms[i].bundleInfos[j] == FirstDetail(ms, name).value && ms[i].bundleInfos[j].name == name
    decreases |ms|
  {
    var f := FindBundle(ms[0].bundleInfos, name);
    if f.Some? {
      FindBundleAt(ms[0].bundleInfos, name);
      var j :| 0 <= j < |ms[0].bundleInfos| && ms[0].bundleInfos[j] == f.value && f.value.name == name;
      assert f == FirstDetail(ms, name);
    } else {
      FirstDetailIsRecord(ms[1..], name);
      var i, j :| 0 <= i < |ms[1..]| && 0 <= j < |ms[1..][i].bundleInfos| &&
        ms[1..][i].bundleInfos[j] == FirstDetail(ms, name).value && ms[1..][i].bundleInfos[j].name == name;
      assert ms[i + 1] == ms[1..][i];
    }
  }

  /** A record found by name is at some position of the list. */
  lemma {:induction false} FindBundleAt(bs: seq<BundleInfo>, name: string)
    requires FindBundle(bs, name).Some?
    ensures exists j :: 0 <= j < |bs| && bs[j] == FindBundle(bs, name).value
    ensures FindBundle(bs, name).value.name == name
    decreases |bs|
  {
    if bs[0].name != name {
      FindBundleAt(bs[1..], name);
      var j :| 0 <= j < |bs[1..]| && bs[1..][j] == FindBundle(bs, name).value;
      assert bs[j + 1] == bs[1..][j];
    }
  }

  /** The graph the dependency walk explores: a bundle found in some
      manifest depends on the listed bundles that are not loaded. */
  ghost function LoadGraph(ms: seq<ManifestData>, loaded: set<string>): Digraph<string> {
    map n | n in RecordNames(ms) && FirstDetail(ms, n).Some? ::
      (set d | d in FirstDetail(ms, n).value.dependencies.GetOr([])) - loaded
  }

  /** A name is a node exactly when some manifest has a record of it, and
      then its edges are that record's dependencies that are not loaded. */
  lemma LoadNode(ms: seq<ManifestData>, loaded: set<string>, n: string)
    ensures n in LoadGraph(ms, loaded) <==> FirstDetail(ms, n).Some?
    ensures n in LoadGraph(ms, loaded) ==>
      LoadGraph(ms, loaded)[n] == Members(FirstDetail(ms, n).value.dependencies.GetOr([])) - loaded
  {
    if FirstDetail(ms, n).Some? {
      FirstDetailIsRecord(ms, n);
    }
  }

  /** A dependency of a found record is one of the dependency names. */
  lemma DependencyIsName(ms: seq<ManifestData>, n: string, d: string)
    requires FirstDetail(ms, n).Some? && d in FirstDetail(ms, n).value.dependencies.GetOr([])
    ensures d in DependencyNames(ms)
  {
    FirstDetailIsRecord(ms, n);
  }

  /** `ResourcePackage`: the manifests to search, in enumeration order, and
      the loaded bundles by name. */
  class ResourcePackage {
    var manifests: seq<ManifestData>
    var assetBundles: map<string, string>

    /** The graph the walk explores in the current state. */
    ghost function Graph(): Digraph<string>
      reads this
    {
      LoadGraph(manifests, assetBundles.Keys)
    }

    /** `GetAddressInfo`: the first address record across the manifests. */
    method GetAddressInfo(address: string) returns (r: Option<AddressInfo>)
      ensures r == FirstAddress(manifests, address)
    {
      var ms := manifests;
      for i := 0 to |ms|
        invariant FirstAddress(ms[i..], address) == FirstAddress(ms, address)
      {
        var info := FindAddress(ms[i].addressInfos, address);
        if info.Some? {
          return info;
        }
        assert ms[i..][1..] == ms[i + 1..];
      }
      return None;
    }

    /** `FindBundleDetail`: the first bundle record across the manifests. */
    method FindBundleDetail(bundleName: string) returns (r: Option<BundleInfo>)
      ensures r == FirstDetail(manifests, bundleName)
    {
      var ms := manifests;
      for i := 0 to |ms|
        invariant FirstDetail(ms[i..], bundleName) == FirstDetail(ms, bundleName)
      {
        var info := FindBundle(ms[i].bundleInfos, bundleName);
        if info.Some? {
          return info;
        }
        assert ms[i..][1..] == ms[i + 1..];
      }
      return None;
    }

    /** `GetDependentAssetBundle(bundleName, list)`: walks the dependencies
        of `bundleName`'s record, listing and descending into each one that
        is neither listed nor loaded. A name without a record is a leaf.
        `pending` holds the bundles whose walk is in progress further up. */
    method GetDependentAssetBundle(bundleName: string, list0: seq<string>, ghost pending: set<string>)
      returns (list: seq<string>)
      requires Distinct(list0) && bundleName in list0
      requires Open(Graph(), list0, pending + {bundleName})
      ensures Gathered(Graph(), list0, list, bundleName, pending)
      decreases DependencyNames(manifests) - Members(list0)
    {
      ghost var g := Graph();
      ghost var loaded := assetBundles.Keys;
      var info := FindBundleDetail(bundleName);
      LoadNode(manifests, loaded, bundleName);
      if info.None? {
        return list0;
      }
      var deps := info.value.dependencies.GetOr([]);
      list := list0;
      for i := 0 to |deps|
        invariant Gathering(g, list0, list, bundleName, pending)
        invariant Members(deps[..i]) - loaded <= Members(list)
      {
        var dep := deps[i];
        MembersPrefix(deps, i);
        if dep !in list && dep !in assetBundles {
          DependencyIsName(manifests, bundleName, dep);
          DistinctSnoc(list, dep);
          assert Members(list + [dep]) == Members(list) + {dep};
          assert dep in (DependencyNames(manifests) - Members(list0)) - (DependencyNames(manifests) - Members(list + [dep]));
          var more := GetDependentAssetBundle(dep, list + [dep], pending + {bundleName});
          GatherStep(g, list0, list, more, bundleName, dep, pending);
          list := more;
        }
      }
      assert deps[..|deps|] == deps;
    }

    /** `LoadAssetBundle`: a loaded bundle is left alone; otherwise the
        bundle and every bundle it reaches that is not loaded are loaded,
        each added exactly once. */
    method LoadAssetBundle(bundleName: string)
      modifies this
      ensures manifests == old(manifests)
      ensures forall k :: k in assetBundles <==>
        k in old(assetBundles) || (bundleName !in old(assetBundles) && ReachStar(old(Graph()), bundleName, k))
      ensures forall k :: k in old(assetBundles) ==> assetBundles[k] == old(assetBundles)[k]
      ensures forall k :: k in assetBundles && k !in old(assetBundles) ==> assetBundles[k] == BundlePath(k)
    {
      if bundleName !in assetBundles {
        ghost var g := Graph();
        ghost var old0 := assetBundles;
        var list := GetDependentAssetBundle(bundleName, [bundleName], {});
        assert list[0] == bundleName;
        forall k | ReachStar(g, bundleName, k) ensures k in list {
          if k != bundleName {
            GatheredReach(g, [bundleName], list, bundleName, k);
          }
        }
        forall x | x in list ensures ReachStar(g, bundleName, x) && x !in old0 {
          if x != bundleName {
            assert x in list[1..];
            var y := ReachLast(g, bundleName, x);
            LoadNode(manifests, old0.Keys, y);
          }
        }
        for i := 0 to |list|
          invariant manifests == old(manifests)
          invariant assetBundles.Keys == old0.Keys + Members(list[..i])
          invariant forall k :: k in old0 ==> assetBundles[k] == old0[k]
          invariant forall k :: k in assetBundles && k !in old0 ==> assetBundles[k] == BundlePath(k)
        {
          MembersPrefix(list, i);
          assert list[i] !in assetBundles;
          assetBundles := assetBundles[list[i] := BundlePath(list[i])];
        }
        assert list[..|list|] == list;
      }
    }

    /** `GetAssetBundle`: `None` when no manifest has a record of the name;
        otherwise the bundle, loaded together with what it reaches. */
    method GetAssetBundle(bundleName: string) returns (r: Option<string>)
      modifies this
      ensures r.None? <==> FirstDetail(old(manifests), bundleName).None?
      ensures r.None? ==> assetBundles == old(assetBundles)
      ensures r.Some? ==> r.value == if bundleName in old(assetBundles) then old(assetBundles)[bundleName]
        else BundlePath(bundleName)
      ensures r.Some? ==> forall k :: k in assetBundles <==>
        k in old(assetBundles) || (bundleName !in old(assetBundles) && ReachStar(old(Graph()), bundleName, k))
    {
      var info := FindBundleDetail(bundleName);
      if info.None? {
        return None;
      }
      LoadAssetBundle(bundleName);
      return Some(assetBundles[bundleName]);
    }
  }
}
