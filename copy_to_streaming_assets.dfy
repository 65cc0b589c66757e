/** The build step that lists the files copied into the streaming-assets
    folder: the dependency closure of every layout marked for copying, plus
    the three manifest files. The copying itself is file I/O. */
module CopyToStreaming {
  import opened Wrappers
  import opened Strings
  import opened Collections
  import opened Sorting
  import opened Graphs
  import opened Manifest
  import opened PackRules
  import opened GenerateManifest

  /** The dependency graph the copy step walks: a bundle is a node when the
      first record of that name has a dependency list. */
  ghost function CopyGraph(infos: seq<BundleInfo>): Digraph<string> {
    DependGraph(AddFirst(map[], infos))
  }

  /** A name is a node exactly when its first record has a dependency list,
      and then its dependencies are that list's names. */
  lemma CopyNode(infos: seq<BundleInfo>, n: string)
    ensures n in CopyGraph(infos) <==>
      FindBundle(infos, n).Some? && FindBundle(infos, n).value.dependencies.Some?
    ensures n in CopyGraph(infos) ==>
      CopyGraph(infos)[n] == Members(FindBundle(infos, n).value.dependencies.value)
  {
    AddFirstWins(map[], infos);
  }

  /** Every listed bundle is a node, and every listed bundle outside
      `pending` has all its dependencies listed. */
  ghost predicate Expanded(g: Digraph<string>, files: seq<string>, pending: set<string>) {
    forall x :: x in files ==> x in g && (x !in pending ==> g[x] <= Members(files))
  }

  /** A node's dependencies are names the records list. */
  lemma DependIsName(infos: seq<BundleInfo>, n: string, d: string)
    requires n in CopyGraph(infos) && d in CopyGraph(infos)[n]
    ensures d in DependNames(AddFirst(map[], infos))
  {
    var m := AddFirst(map[], infos);
    AddFirstWins(map[], infos);
    assert n in m && m[n].dependencies.Some? && d in m[n].dependencies.value;
  }

  /** What a finished walk from `fileName` guarantees: `files0` is kept as
      a prefix, no name is listed twice, `fileName` is listed, the walked
      names outside `pending` are expanded, and every name added is
      reachable from `fileName`. */
  ghost predicate Grown(g: Digraph<string>, files0: seq<string>, files: seq<string>,
                        fileName: string, pending: set<string>)
  {
    && files0 <= files && Distinct(files) && fileName in files
    && Expanded(g, files, pending)
    && forall x :: x in files[|files0|..] ==> ReachStar(g, fileName, x)
  }

  /** What holds while the walk from `fileName` is in progress: `files0` is
      kept as a prefix, no name is listed twice, `fileName` is listed, and
      every name added is reachable from `fileName`. */
  ghost predicate Walk(g: Digraph<string>, files0: seq<string>, files: seq<string>,
                       fileName: string, pending: set<string>)
  {
    && files0 <= files && Distinct(files) && fileName in files
    && Members(files0) <= Members(files)
    && Expanded(g, files, pending + {fileName})
    && forall x :: x in files[|files0|..] ==> ReachStar(g, fileName, x)
  }

  lemma WalkStart(g: Digraph<string>, files0: seq<string>, files: seq<string>,
                  fileName: string, pending: set<string>)
    requires Distinct(files0) && Expanded(g, files0, pending) && fileName in g
    requires files == if fileName in files0 then files0 else files0 + [fileName]
    ensures Walk(g, files0, files, fileName, pending)
  {
    if fileName !in files0 {
      DistinctSnoc(files0, fileName);
      assert files[|files0|..] == [fileName];
    } else {
      assert files[|files0|..] == [];
    }
  }

  /** A finished walk from the dependency `d` keeps the walk from
      `fileName` going. */
  lemma WalkStep(g: Digraph<string>, files0: seq<string>, files: seq<string>, more: seq<string>,
                 fileName: string, d: string, pending: set<string>)
    requires Walk(g, files0, files, fileName, pending)
    requires fileName in g && d in g[fileName]
    requires Grown(g, files, more, d, pending + {fileName})
    ensures Walk(g, files0, more, fileName, pending) && Members(files) <= Members(more)
  {
    assert more[..|files|] == files;
    forall x | x in more[|files0|..] ensures ReachStar(g, fileName, x) {
      if x !in files[|files0|..] {
        assert x in more[|files|..];
        ReachPrepend(g, fileName, d, x);
      }
    }
    forall x | x in files ensures x in more {
      assert more[..|files|] == files;
    }
  }

  /** `GenerateDependCopyFiles(files, fileName)`: lists `fileName` if it is
      new, then walks each dependency that is not listed yet. A name without
      a record, or whose record has no dependency list, throws.
      `pending` holds the bundles whose walk is still in progress further up
      the recursion; `root` is where the walk began. */
  method DependCopy(infos: seq<BundleInfo>, files0: seq<string>, fileName: string,
                    ghost pending: set<string>, ghost root: string)
    returns (r: Result<seq<string>>)
    requires Distinct(files0) && Expanded(CopyGraph(infos), files0, pending)
    requires fileName == root || fileName in DependNames(AddFirst(map[], infos))
    ensures r.Ok? ==> Grown(CopyGraph(infos), files0, r.value, fileName, pending)
    ensures r.Err? ==> r.fault == NullReference
    ensures r.Err? ==> exists y :: ReachStar(CopyGraph(infos), fileName, y) && y !in CopyGraph(infos)
    decreases DependNames(AddFirst(map[], infos)) + {root} - Members(files0),
      if fileName in files0 then 1 else 0, 1
  {
    var files := if fileName in files0 then files0 else files0 + [fileName];
    var info := FindBundle(infos, fileName);
    CopyNode(infos, fileName);
    if info.None? || info.value.dependencies.None? {
      return Err(NullReference);
    }
    var deps := info.value.dependencies.value;
    WalkStart(CopyGraph(infos), files0, files, fileName, pending);
    r := CopyDeps(infos, files0, files, fileName, deps, pending, root);
  }

  /** The loop of `GenerateDependCopyFiles` over the dependencies `deps` of
      `fileName`, walking each one not listed yet. */
  method CopyDeps(infos: seq<BundleInfo>, ghost files0: seq<string>, files1: seq<string>,
                  fileName: string, deps: seq<string>, ghost pending: set<string>, ghost root: string)
    returns (r: Result<seq<string>>)
    requires Walk(CopyGraph(infos), files0, files1, fileName, pending)
    requires fileName in CopyGraph(infos) && CopyGraph(infos)[fileName] == Members(deps)
    requires fileName == root || fileName in DependNames(AddFirst(map[], infos))
    ensures r.Ok? ==> Walk(CopyGraph(infos), files0, r.value, fileName, pending)
    ensures r.Ok? ==> Expanded(CopyGraph(infos), r.value, pending)
    ensures r.Err? ==> r.fault == NullReference
    ensures r.Err? ==> exists y :: ReachStar(CopyGraph(infos), fileName, y) && y !in CopyGraph(infos)
    decreases DependNames(AddFirst(map[], infos)) + {root} - Members(files0),
      if fileName in files0 then 1 else 0, 0
  {
    ghost var g := CopyGraph(infos);
    ghost var U := DependNames(AddFirst(map[], infos)) + {root};
    var files := files1;
    for i := 0 to |deps|
      invariant Walk(g, files0, files, fileName, pending)
      invariant Members(deps[..i]) <= Members(files)
    {
      var d := deps[i];
      MembersPrefix(deps, i);
      if d !in files {
        DependIsName(infos, fileName, d);
        assert U - Members(files) <= U - Members(files0);
        assert fileName !in files0 ==> fileName in (U - Members(files0)) - (U - Members(files));
        var rd := DependCopy(infos, files, d, pending + {fileName}, root);
        if rd.Err? {
          ghost var y :| ReachStar(g, d, y) && y !in g;
          ReachPrepend(g, fileName, d, y);
          return rd;
        }
        WalkStep(g, files0, files, rd.value, fileName, d, pending);
        files := rd.value;
      }
    }
    assert deps[..|deps|] == deps;
    return Ok(files);
  }

  /** A layout contributes when it is marked for copying and its lower-cased
      name was renamed to a bundle file. */
  predicate Contributes(l: BundleBuildLayout, bundleNames: map<string, string>) {
    l.copyToStreamingAssets && ToLower(l.bundleName) in bundleNames
  }

  /** The bundle files the contributing layouts start from, in layout order. */
  function Starts(layouts: seq<BundleBuildLayout>, bundleNames: map<string, string>): seq<string>
    decreases |layouts|
  {
    if layouts == [] then []
    else
      var l := layouts[|layouts| - 1];
      Starts(layouts[..|layouts| - 1], bundleNames) +
        if Contributes(l, bundleNames) then [bundleNames[ToLower(l.bundleName)]] else []
  }

  /** The starts are exactly the new names of the contributing layouts. */
  lemma {:induction false} StartsMembers(layouts: seq<BundleBuildLayout>, bundleNames: map<string, string>)
    ensures forall x :: x in Starts(layouts, bundleNames) <==>
      exists i :: 0 <= i < |layouts| && Contributes(layouts[i], bundleNames) &&
        bundleNames[ToLower(layouts[i].bundleName)] == x
    decreases |layouts|
  {
    if layouts != [] {
      var front := layouts[..|layouts| - 1];
      StartsMembers(front, bundleNames);
      assert forall i :: 0 <= i < |front| ==> front[i] == layouts[i];
    }
  }

  /** Some start reaches a name with no record or no dependency list. */
  ghost predicate Broken(g: Digraph<string>, starts: seq<string>) {
    exists s, y :: s in starts && ReachStar(g, s, y) && y !in g
  }

  /** `files` is exactly what the starts reach, with every dependency listed. */
  ghost predicate Covers(g: Digraph<string>, starts: seq<string>, files: seq<string>) {
    && Distinct(files) && Expanded(g, files, {})
    && (forall x :: x in files ==> exists s :: s in starts && ReachStar(g, s, x))
    && (forall s, x :: s in starts && ReachStar(g, s, x) ==> x in files)
  }

  /** A finished walk from `start` extends the cover to one more start. */
  lemma CoverStep(g: Digraph<string>, starts: seq<string>, files: seq<string>, more: seq<string>, start: string)
    requires Covers(g, starts, files)
    requires Grown(g, files, more, start, {})
    ensures Covers(g, starts + [start], more)
  {
    assert more[..|files|] == files;
    forall x | x in more ensures exists s :: s in starts + [start] && ReachStar(g, s, x) {
      if x in files {
        var s :| s in starts && ReachStar(g, s, x);
        assert s in starts + [start];
      } else {
        assert x in more[|files|..];
        assert start in starts + [start];
      }
    }
    forall s, x | s in starts + [start] && ReachStar(g, s, x) ensures x in more {
      if s in starts {
        assert x in files;
      } else {
        ClosedReach(g, Members(more), start, x);
      }
    }
  }

  lemma StartsSnoc(layouts: seq<BundleBuildLayout>, bundleNames: map<string, string>, i: int)
    requires 0 <= i < |layouts|
    ensures Starts(layouts[..i + 1], bundleNames) == Starts(layouts[..i], bundleNames) +
      if Contributes(layouts[i], bundleNames) then [bundleNames[ToLower(layouts[i].bundleName)]] else []
  {
    assert layouts[..i + 1][..i] == layouts[..i];
  }

  /** A contributing layout whose start reaches a broken name breaks the
      whole list. */
  lemma StartBroken(layouts: seq<BundleBuildLayout>, bundleNames: map<string, string>, i: int, g: Digraph<string>)
    requires 0 <= i < |layouts| && Contributes(layouts[i], bundleNames)
    requires exists y :: ReachStar(g, bundleNames[ToLower(layouts[i].bundleName)], y) && y !in g
    ensures Broken(g, Starts(layouts, bundleNames))
  {
    var start := bundleNames[ToLower(layouts[i].bundleName)];
    var y :| ReachStar(g, start, y) && y !in g;
    StartsMembers(layouts, bundleNames);
    assert start in Starts(layouts, bundleNames);
  }

  /** A cover lists only nodes, so no start reaches a broken name. */
  lemma CoversNotBroken(g: Digraph<string>, starts: seq<string>, files: seq<string>)
    requires Covers(g, starts, files)
    ensures !Broken(g, starts)
  {
    forall s, y | s in starts && ReachStar(g, s, y) ensures y in g {
      assert y in files;
    }
  }

  /** The loop of `GenerateCopyFiles` over the layouts. */
  method CopyClosures(layouts: seq<BundleBuildLayout>, bundleNames: map<string, string>, infos: seq<BundleInfo>)
    returns (r: Result<seq<string>>)
    ensures r.Err? <==> Broken(CopyGraph(infos), Starts(layouts, bundleNames))
    ensures r.Err? ==> r.fault == NullReference
    ensures r.Ok? ==> Covers(CopyGraph(infos), Starts(layouts, bundleNames), r.value)
  {
    ghost var g := CopyGraph(infos);
    var files: seq<string> := [];
    for i := 0 to |layouts|
      invariant Covers(g, Starts(layouts[..i], bundleNames), files)
    {
      var l := layouts[i];
      StartsSnoc(layouts, bundleNames, i);
      if Contributes(l, bundleNames) {
        var start := bundleNames[ToLower(l.bundleName)];
        var rs := DependCopy(infos, files, start, {}, start);
        if rs.Err? {
          StartBroken(layouts, bundleNames, i, g);
          return Err(NullReference);
        }
        CoverStep(g, Starts(layouts[..i], bundleNames), files, rs.value, start);
        files := rs.value;
      }
    }
    assert layouts[..|layouts|] == layouts;
    CoversNotBroken(g, Starts(layouts, bundleNames), files);
    return Ok(files);
  }

  /** `GenerateCopyFiles`: the closure of every contributing layout, then the
      manifest's three files, sorted. A walk that meets a name without a
      usable record throws. */
  method GenerateCopyFiles(layouts: seq<BundleBuildLayout>, bundleNames: map<string, string>,
                           infos: seq<BundleInfo>, packageName: string, version: string)
    returns (r: Result<seq<string>>)
    ensures r.Err? <==> Broken(CopyGraph(infos), Starts(layouts, bundleNames))
    ensures r.Err? ==> r.fault == NullReference
    ensures r.Ok? ==> SortedBy(r.value, Id)
    ensures r.Ok? ==> forall x :: x in r.value <==>
      (exists s :: s in Starts(layouts, bundleNames) && ReachStar(CopyGraph(infos), s, x)) ||
      x in ManifestFiles(ManifestName(packageName, version))
  {
    var rc := CopyClosures(layouts, bundleNames, infos);
    if rc.Err? {
      return rc;
    }
    var all := rc.value + ManifestFiles(ManifestName(packageName, version));
    r := Ok(Sort(all));
    forall x ensures x in r.value <==> x in all {
      assert x in r.value <==> x in multiset(r.value);
    }
  }
}
