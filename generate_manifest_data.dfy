/** The manifest stage of the build: the bundle dependency maps computed
    from the files each asset is written to, the indirect dependencies,
    the renamed bundle files and the lists a bundle's manifest record
    holds. Files, hashes and the build pipeline's write data are inputs. */
module GenerateManifest {
  import opened Wrappers
  import opened Strings
  import opened Collections
  import opened Sorting
  import opened Paths
  import opened Graphs

  /** Bundle name to the set of bundle names it depends on. */
  type Graph = Digraph<string>

  // ---------------------------------------------------------------------
  // Direct dependencies
  // ---------------------------------------------------------------------

  /** Every file of every list has a bundle in `fileToBundle`. */
  predicate Mapped(lists: seq<seq<string>>, fileToBundle: map<string, string>) {
    forall i, x :: 0 <= i < |lists| && x in lists[i] ==> x in fileToBundle
  }

  /** The bundles the files of one list are written to. */
  function BundlesOf(files: seq<string>, fileToBundle: map<string, string>): set<string>
    requires forall x :: x in files ==> x in fileToBundle
  {
    set x | x in files :: fileToBundle[x]
  }

  /** `g` with an empty set added for every key of `ks` it lacks. */
  function WithKeys(g: Graph, ks: set<string>): Graph {
    map k | k in g.Keys + ks :: if k in g then g[k] else {}
  }

  /** The map after one non-empty file list: its owning bundle (the bundle of
      its first file) gains the bundles of all its files but itself, and
      every bundle of the list gets a key. */
  function Step(g: Graph, files: seq<string>, fileToBundle: map<string, string>): Graph
    requires files != [] && forall x :: x in files ==> x in fileToBundle
  {
    var b := fileToBundle[files[0]];
    var deps := (if b in g then g[b] else {}) + BundlesOf(files, fileToBundle);
    WithKeys(g[b := deps - {b}], BundlesOf(files, fileToBundle))
  }

  /** The direct dependency map after all the lists, empty lists skipped. */
  function Direct(lists: seq<seq<string>>, fileToBundle: map<string, string>): Graph
    requires Mapped(lists, fileToBundle)
  {
    if lists == [] then map[]
    else
      var front := lists[..|lists| - 1];
      var last := lists[|lists| - 1];
      assert forall i :: 0 <= i < |front| ==> front[i] == lists[i];
      if last == [] then Direct(front, fileToBundle)
      else Step(Direct(front, fileToBundle), last, fileToBundle)
  }

  /** Some file of some list is written to `b`. */
  ghost predicate Owns(lists: seq<seq<string>>, fileToBundle: map<string, string>, b: string)
    requires Mapped(lists, fileToBundle)
  {
    exists i, x :: 0 <= i < |lists| && x in lists[i] && b == fileToBundle[x]
  }

  /** `d` is another bundle than `b` that holds a file of a list whose first
      file `b` holds. */
  ghost predicate DirectEdge(lists: seq<seq<string>>, fileToBundle: map<string, string>, b: string, d: string)
    requires Mapped(lists, fileToBundle)
  {
    d != b &&
    exists i, x :: 0 <= i < |lists| && lists[i] != [] && x in lists[i]
      && fileToBundle[lists[i][0]] == b && d == fileToBundle[x]
  }

  lemma MappedFront(lists: seq<seq<string>>, fileToBundle: map<string, string>)
    requires lists != [] && Mapped(lists, fileToBundle)
    ensures Mapped(lists[..|lists| - 1], fileToBundle)
  {
    assert forall i :: 0 <= i < |lists| - 1 ==> lists[..|lists| - 1][i] == lists[i];
  }

  /** The keys of the direct map are exactly the bundles holding a listed file. */
  lemma {:induction false} DirectKeys(lists: seq<seq<string>>, fileToBundle: map<string, string>)
    requires Mapped(lists, fileToBundle)
    ensures forall b :: b in Direct(lists, fileToBundle) <==> Owns(lists, fileToBundle, b)
  {
    if lists != [] {
      var front := lists[..|lists| - 1];
      var last := lists[|lists| - 1];
      MappedFront(lists, fileToBundle);
      DirectKeys(front, fileToBundle);
      forall b ensures b in Direct(lists, fileToBundle) <==> Owns(lists, fileToBundle, b) {
        if Owns(lists, fileToBundle, b) {
          var i, x :| 0 <= i < |lists| && x in lists[i] && b == fileToBundle[x];
          if i < |front| {
            assert x in front[i];
          }
        }
        if Owns(front, fileToBundle, b) {
          var i, x :| 0 <= i < |front| && x in front[i] && b == fileToBundle[x];
          assert x in lists[i];
        }
      }
    }
  }

  /** The direct set of `b` holds exactly the other bundles of the lists
      whose first file `b` holds. */
  lemma {:induction false} DirectSets(lists: seq<seq<string>>, fileToBundle: map<string, string>, b: string)
    requires Mapped(lists, fileToBundle) && b in Direct(lists, fileToBundle)
    ensures forall d :: d in Direct(lists, fileToBundle)[b] <==> DirectEdge(lists, fileToBundle, b, d)
  {
    var front := lists[..|lists| - 1];
    MappedFront(lists, fileToBundle);
    if b in Direct(front, fileToBundle) {
      DirectSets(front, fileToBundle, b);
    }
    EdgesInSet(lists, fileToBundle, b);
    SetHoldsEdges(lists, fileToBundle, b);
  }

  /** The direct set of `b` after the last list, from the one before it. */
  function SetAfter(lists: seq<seq<string>>, fileToBundle: map<string, string>, b: string): set<string>
    requires lists != [] && Mapped(lists, fileToBundle) && Mapped(lists[..|lists| - 1], fileToBundle)
  {
    var g := Direct(lists[..|lists| - 1], fileToBundle);
    var last := lists[|lists| - 1];
    var before := if b in g then g[b] else {};
    if last != [] && fileToBundle[last[0]] == b then (before + BundlesOf(last, fileToBundle)) - {b} else before
  }

  /** Every direct edge of `b` is in its set. */
  lemma EdgesInSet(lists: seq<seq<string>>, fileToBundle: map<string, string>, b: string)
    requires lists != [] && Mapped(lists, fileToBundle)
    requires Mapped(lists[..|lists| - 1], fileToBundle)
    requires var front := lists[..|lists| - 1];
             b in Direct(front, fileToBundle) ==>
               forall d :: d in Direct(front, fileToBundle)[b] <==> DirectEdge(front, fileToBundle, b, d)
    ensures forall d :: DirectEdge(lists, fileToBundle, b, d) ==> d in SetAfter(lists, fileToBundle, b)
  {
    var front := lists[..|lists| - 1];
    var last := lists[|lists| - 1];
    MappedFront(lists, fileToBundle);
    forall d | DirectEdge(lists, fileToBundle, b, d) ensures d in SetAfter(lists, fileToBundle, b) {
      var i, x :| 0 <= i < |lists| && lists[i] != [] && x in lists[i]
        && fileToBundle[lists[i][0]] == b && d == fileToBundle[x];
      if i < |front| {
        assert front[i] == lists[i];
        assert DirectEdge(front, fileToBundle, b, d);
        DirectKeys(front, fileToBundle);
        assert Owns(front, fileToBundle, b) by {
          assert front[i][0] in front[i];
        }
      } else {
        assert x in last;
      }
    }
  }

  /** Every member of the set of `b` is a direct edge, and the set is the
      one of the direct map. */
  lemma SetHoldsEdges(lists: seq<seq<string>>, fileToBundle: map<string, string>, b: string)
    requires lists != [] && Mapped(lists, fileToBundle) && b in Direct(lists, fileToBundle)
    requires Mapped(lists[..|lists| - 1], fileToBundle)
    requires var front := lists[..|lists| - 1];
             b in Direct(front, fileToBundle) ==>
               forall d :: d in Direct(front, fileToBundle)[b] <==> DirectEdge(front, fileToBundle, b, d)
    ensures Direct(lists, fileToBundle)[b] == SetAfter(lists, fileToBundle, b)
    ensures forall d :: d in SetAfter(lists, fileToBundle, b) ==> DirectEdge(lists, fileToBundle, b, d)
  {
    var front := lists[..|lists| - 1];
    var last := lists[|lists| - 1];
    MappedFront(lists, fileToBundle);
    var g := Direct(front, fileToBundle);
    forall d | d in SetAfter(lists, fileToBundle, b) ensures DirectEdge(lists, fileToBundle, b, d) {
      if b in g && d in g[b] {
        var i, x :| 0 <= i < |front| && front[i] != [] && x in front[i]
          && fileToBundle[front[i][0]] == b && d == fileToBundle[x];
        assert front[i] == lists[i];
      } else {
        var x :| x in last && d == fileToBundle[x];
        assert lists[|lists| - 1] == last;
      }
    }
  }

  /** No bundle depends directly on itself, and every direct dependency is
      itself a key. */
  lemma DirectClosed(lists: seq<seq<string>>, fileToBundle: map<string, string>)
    requires Mapped(lists, fileToBundle)
    ensures Closed(Direct(lists, fileToBundle))
    ensures forall b :: b in Direct(lists, fileToBundle) ==> b !in Direct(lists, fileToBundle)[b]
  {
    var g := Direct(lists, fileToBundle);
    DirectKeys(lists, fileToBundle);
    forall b | b in g ensures b !in g[b] && forall d :: d in g[b] ==> d in g {
      DirectSets(lists, fileToBundle, b);
      forall d | d in g[b] ensures d in g {
        var i, x :| 0 <= i < |lists| && lists[i] != [] && x in lists[i]
          && fileToBundle[lists[i][0]] == b && d == fileToBundle[x];
        assert Owns(lists, fileToBundle, d);
      }
    }
  }

  /** The inner loop over a list's files: every bundle of the list gets a key. */
  method AddKeys(g0: Graph, files: seq<string>, fileToBundle: map<string, string>) returns (g: Graph)
    requires forall x :: x in files ==> x in fileToBundle
    ensures g == WithKeys(g0, BundlesOf(files, fileToBundle))
  {
    g := g0;
    for j := 0 to |files|
      invariant g == WithKeys(g0, BundlesOf(files[..j], fileToBundle))
    {
      var bundle := fileToBundle[files[j]];
      if bundle !in g {
        g := g[bundle := {}];
      }
      assert BundlesOf(files[..j + 1], fileToBundle) == BundlesOf(files[..j], fileToBundle) + {bundle} by {
        assert files[..j + 1] == files[..j] + [files[j]];
      }
    }
    assert files[..|files|] == files;
  }

  /** One turn of the first loop, for a non-empty list whose files all have
      bundles: the owning bundle's set gains the list's bundles but itself,
      and every bundle of the list gets a key. */
  method AddList(g0: Graph, files: seq<string>, fileToBundle: map<string, string>) returns (g: Graph)
    requires files != [] && forall x :: x in files ==> x in fileToBundle
    ensures g == Step(g0, files, fileToBundle)
  {
    g := g0;
    var bundle := fileToBundle[files[0]];
    if bundle !in g {
      g := g[bundle := {}];
    }
    g := g[bundle := g[bundle] + BundlesOf(files, fileToBundle)];
    g := g[bundle := g[bundle] - {bundle}];
    g := AddKeys(g, files, fileToBundle);
  }

  /** The direct map of one more list. */
  lemma DirectSnoc(lists: seq<seq<string>>, fileToBundle: map<string, string>, i: int)
    requires 0 <= i < |lists| && Mapped(lists[..i], fileToBundle)
    requires forall x :: x in lists[i] ==> x in fileToBundle
    ensures Mapped(lists[..i + 1], fileToBundle)
    ensures lists[i] == [] ==> Direct(lists[..i + 1], fileToBundle) == Direct(lists[..i], fileToBundle)
    ensures lists[i] != [] ==>
              Direct(lists[..i + 1], fileToBundle) == Step(Direct(lists[..i], fileToBundle), lists[i], fileToBundle)
  {
    assert lists[..i + 1][..i] == lists[..i];
    forall k | 0 <= k < i + 1 ensures lists[..i + 1][k] == if k < i then lists[..i][k] else lists[i] {
    }
  }

  /** The first pass of `CalculateBundleDependencies`: the direct map. A file
      without a bundle makes the dictionary lookup throw. */
  method DirectDependencies(lists: seq<seq<string>>, fileToBundle: map<string, string>) returns (r: Result<Graph>)
    ensures r.Err? <==> !Mapped(lists, fileToBundle)
    ensures r.Err? ==> r.fault == KeyNotFound
    ensures r.Ok? ==> r.value == Direct(lists, fileToBundle)
  {
    var g: Graph := map[];
    for i := 0 to |lists|
      invariant Mapped(lists[..i], fileToBundle)
      invariant g == Direct(lists[..i], fileToBundle)
    {
      var files := lists[i];
      if exists x :: x in files && x !in fileToBundle {
        assert !Mapped(lists, fileToBundle) by {
          var x :| x in files && x !in fileToBundle;
          assert x in lists[i];
        }
        return Err(KeyNotFound);
      }
      DirectSnoc(lists, fileToBundle, i);
      if files != [] {
        g := AddList(g, files, fileToBundle);
      }
    }
    assert lists[..|lists|] == lists;
    r := Ok(g);
  }

  // ---------------------------------------------------------------------
  // Recursive dependencies
  // ---------------------------------------------------------------------

  /** `HashSet.ToList()`: the members in an order of the set's choosing. */
  method ToList(s: set<string>) returns (l: seq<string>)
    ensures |l| == |s| && Distinct(l)
    ensures forall x :: x in l <==> x in s
  {
    l := [];
    var rest := s;
    while rest != {}
      invariant rest <= s && Distinct(l)
      invariant forall x :: x in l <==> x in s && x !in rest
      invariant |l| + |rest| == |s|
      decreases |rest|
    {
      var x :| x in rest;
      DistinctSnoc(l, x);
      l := l + [x];
      rest := rest - {x};
    }
  }

  /** The inner `foreach`: every member of `more` is added to the set, and
      the newly added ones are returned in the order they were added. */
  method Absorb(s0: set<string>, more: set<string>) returns (s: set<string>, added: seq<string>)
    ensures s == s0 + more
    ensures Distinct(added) && forall x :: x in added <==> x in more && x !in s0
  {
    s, added := s0, [];
    var rest := more;
    while rest != {}
      invariant rest <= more
      invariant s == s0 + (more - rest)
      invariant Distinct(added) && forall x :: x in added <==> x in s && x !in s0
      decreases |rest|
    {
      var x :| x in rest;
      if x !in s {
        DistinctSnoc(added, x);
        s := s + {x};
        added := added + [x];
      }
      rest := rest - {x};
    }
  }

  /** The work-list loop for one key `k`: starting from its set in `c`, the
      sets of its members are added until none adds anything. */
  method CloseKey(g: Graph, c: Graph, k: string) returns (s: set<string>)
    requires Closed(g) && k in g && c.Keys == g.Keys
    requires forall x :: x in c ==> g[x] <= c[x] <= ReachSet(g, x)
    ensures s == ReachSet(g, k)
  {
    s := c[k];
    var work := ToList(s);
    var i := 0;
    while i < |work|
      invariant 0 <= i <= |work|
      invariant Distinct(work) && forall x :: x in work <==> x in s
      invariant g[k] <= s <= ReachSet(g, k)
      invariant forall j :: 0 <= j < i ==> work[j] in g && g[work[j]] <= s
      decreases |g.Keys| - i
    {
      DistinctCard(work, g.Keys);
      var d := work[i];
      var more := if d == k then s else c[d];
      ReachSubset(g, k, d);
      var s', added := Absorb(s, more);
      DistinctConcat(work, added);
      assert forall j :: 0 <= j < i ==> (work + added)[j] == work[j];
      s, work := s', work + added;
      i := i + 1;
    }
    forall x | x in s && x in g ensures g[x] <= s {
      var j :| 0 <= j < |work| && work[j] == x;
    }
    ClosedCovers(g, k, s);
  }

  /** The recursive pass: each key's set grows to everything it reaches. */
  method CloseAll(g: Graph) returns (c: Graph)
    requires Closed(g)
    ensures c == Closure(g)
  {
    c := g;
    forall k | k in g ensures g[k] <= ReachSet(g, k) {
      forall d | d in g[k] ensures d in ReachSet(g, k) {
        ReachStep(g, k, d);
      }
    }
    var todo := g.Keys;
    while todo != {}
      invariant todo <= g.Keys && c.Keys == g.Keys
      invariant forall k :: k in c ==> g[k] <= c[k] <= ReachSet(g, k)
      invariant forall k :: k in c && k !in todo ==> c[k] == ReachSet(g, k)
      decreases |todo|
    {
      var k :| k in todo;
      var s := CloseKey(g, c, k);
      c := c[k := s];
      todo := todo - {k};
    }
  }

  // ---------------------------------------------------------------------
  // CalculateBundleDependencies
  // ---------------------------------------------------------------------

  /** `r` lists each set of `g` once, in ordinal order, under the same keys. */
  ghost predicate Lists(r: map<string, seq<string>>, g: Graph) {
    r.Keys == g.Keys &&
    forall k :: k in r ==> SortedBy(r[k], Id) && Distinct(r[k]) && forall x :: x in r[k] <==> x in g[k]
  }

  /** The last loop: each set becomes a sorted list. */
  method SortedLists(g: Graph) returns (r: map<string, seq<string>>)
    ensures Lists(r, g)
  {
    r := map[];
    var todo := g.Keys;
    while todo != {}
      invariant todo <= g.Keys
      invariant r.Keys == g.Keys - todo
      invariant forall k :: k in r ==> SortedBy(r[k], Id) && Distinct(r[k]) && forall x :: x in r[k] <==> x in g[k]
      decreases |todo|
    {
      var k :| k in todo;
      var ret := ToList(g[k]);
      var sorted := Sort(ret);
      SortByDistinct(ret, Id);
      SortBySameElements(ret, Id);
      r := r[k := sorted];
      todo := todo - {k};
    }
  }

  /** `CalculateBundleDependencies(assetFileList, filenameToBundleName,
      recursively)`: every bundle holding a listed file is a key; its list is
      its direct dependencies, or everything they reach when `recursively`,
      sorted and without repeats. */
  method CalculateBundleDependencies(lists: seq<seq<string>>, fileToBundle: map<string, string>, recursively: bool)
    returns (r: Result<map<string, seq<string>>>)
    ensures r.Err? <==> !Mapped(lists, fileToBundle)
    ensures r.Err? ==> r.fault == KeyNotFound
    ensures r.Ok? ==> Lists(r.value, if recursively then Closure(Direct(lists, fileToBundle)) else Direct(lists, fileToBundle))
  {
    var direct := DirectDependencies(lists, fileToBundle);
    if direct.Err? {
      return Err(direct.fault);
    }
    var g := direct.value;
    if recursively {
      DirectClosed(lists, fileToBundle);
      g := CloseAll(g);
    }
    var sorted := SortedLists(g);
    r := Ok(sorted);
  }

  // ---------------------------------------------------------------------
  // Indirect dependencies
  // ---------------------------------------------------------------------

  /** `xs` taken out of `s` one `List.Remove` at a time. */
  function RemoveAll(s: seq<string>, xs: seq<string>): seq<string> {
    if xs == [] then s else RemoveFirst(RemoveAll(s, xs[..|xs| - 1]), xs[|xs| - 1])
  }

  /** On a list without repeats, `Remove(x)` takes `x` out and keeps the rest. */
  lemma {:induction false} RemoveFirstOfDistinct(s: seq<string>, x: string)
    requires Distinct(s)
    ensures Distinct(RemoveFirst(s, x))
    ensures forall y :: y in RemoveFirst(s, x) <==> y in s && y != x
  {
    if s != [] && s[0] != x {
      assert Distinct(s[1..]) && s[0] !in s[1..];
      RemoveFirstOfDistinct(s[1..], x);
      assert RemoveFirst(s, x) == [s[0]] + RemoveFirst(s[1..], x);
    } else if s != [] {
      assert s[0] !in s[1..];
    }
  }

  /** On a list without repeats, removing `xs` leaves exactly the members not in `xs`. */
  lemma {:induction false} RemoveAllOfDistinct(s: seq<string>, xs: seq<string>)
    requires Distinct(s)
    ensures Distinct(RemoveAll(s, xs))
    ensures forall y :: y in RemoveAll(s, xs) <==> y in s && y !in xs
  {
    if xs != [] {
      var front := xs[..|xs| - 1];
      RemoveAllOfDistinct(s, front);
      RemoveFirstOfDistinct(RemoveAll(s, front), xs[|xs| - 1]);
      assert xs == front + [xs[|xs| - 1]];
    }
  }

  /** The inner loop: `list.Remove(name)` for each name in turn. */
  method RemoveNames(list0: seq<string>, names: seq<string>) returns (list: seq<string>)
    ensures list == RemoveAll(list0, names)
  {
    list := list0;
    for j := 0 to |names|
      invariant list == RemoveAll(list0, names[..j])
    {
      assert names[..j + 1][..j] == names[..j];
      list := RemoveFirst(list, names[j]);
    }
    assert names[..|names|] == names;
  }

  /** The loop of `Run` that removes each direct dependency from the
      recursive list of the same bundle. */
  method RemoveDirect(direct: map<string, seq<string>>, recursive: map<string, seq<string>>)
    returns (indirect: map<string, seq<string>>)
    requires direct.Keys <= recursive.Keys
    ensures indirect.Keys == recursive.Keys
    ensures forall k :: k in indirect ==>
              indirect[k] == if k in direct then RemoveAll(recursive[k], direct[k]) else recursive[k]
  {
    indirect := recursive;
    var todo := direct.Keys;
    while todo != {}
      invariant todo <= direct.Keys
      invariant indirect.Keys == recursive.Keys
      invariant forall k :: k in indirect ==>
                  indirect[k] == if k in direct && k !in todo then RemoveAll(recursive[k], direct[k]) else recursive[k]
      decreases |todo|
    {
      var k :| k in todo;
      var list := RemoveNames(indirect[k], direct[k]);
      indirect := indirect[k := list];
      todo := todo - {k};
    }
  }

  /** Lines 90-98 of `Run`: the direct map, the recursive map, and the
      indirect map, which holds for each bundle what it reaches but does not
      depend on directly. */
  method BundleDependencies(lists: seq<seq<string>>, fileToBundle: map<string, string>)
    returns (r: Result<(map<string, seq<string>>, map<string, seq<string>>)>)
    ensures r.Err? <==> !Mapped(lists, fileToBundle)
    ensures r.Ok? ==>
              var g := Direct(lists, fileToBundle);
              Lists(r.value.0, g) && r.value.1.Keys == g.Keys
              && forall k :: k in g ==>
                   Distinct(r.value.1[k]) && forall x :: x in r.value.1[k] <==> x in ReachSet(g, k) && x !in g[k]
  {
    var direct := CalculateBundleDependencies(lists, fileToBundle, false);
    var recursive := CalculateBundleDependencies(lists, fileToBundle, true);
    if direct.Err? || recursive.Err? {
      return Err(KeyNotFound);
    }
    var indirect := RemoveDirect(direct.value, recursive.value);
    forall k | k in indirect
      ensures Distinct(indirect[k])
      ensures forall x :: x in indirect[k] <==> x in ReachSet(Direct(lists, fileToBundle), k) && x !in Direct(lists, fileToBundle)[k]
    {
      RemoveAllOfDistinct(recursive.value[k], direct.value[k]);
    }
    r := Ok((direct.value, indirect));
  }

  /** The direct and the indirect dependencies of a bundle split what it
      reaches, and a bundle is among its own indirect dependencies exactly
      when it lies on a dependency cycle. */
  lemma IndirectSplit(lists: seq<seq<string>>, fileToBundle: map<string, string>, k: string)
    requires Mapped(lists, fileToBundle) && k in Direct(lists, fileToBundle)
    ensures var g := Direct(lists, fileToBundle);
            g[k] <= ReachSet(g, k)
            && (k in ReachSet(g, k) - g[k] <==> Reaches(g, k, k))
  {
    var g := Direct(lists, fileToBundle);
    DirectClosed(lists, fileToBundle);
    forall d | d in g[k] ensures d in ReachSet(g, k) {
      ReachStep(g, k, d);
    }
  }

  // ---------------------------------------------------------------------
  // The bundle records and the renamed files
  // ---------------------------------------------------------------------

  /** `GetValueOrDefault(key)?.Select(v => bundleNameMap[v]).Sort2List()`:
      the renamed dependencies of `key` in ordinal order, null when `key`
      has no entry; a name missing from `names` makes the lookup throw. */
  function RenamedDependencies(deps: map<string, seq<string>>, key: string, names: map<string, string>)
    : (r: Result<Option<seq<string>>>)
    ensures key !in deps <==> r == Ok(None)
    ensures r.Err? <==> key in deps && exists v :: v in deps[key] && v !in names
    ensures r.Ok? && r.value.Some? ==>
              SortedBy(r.value.value, Id) && |r.value.value| == |deps[key]|
              && forall x :: x in r.value.value <==> exists v :: v in deps[key] && v in names && names[v] == x
  {
    if key !in deps then Ok(None)
    else if exists v :: v in deps[key] && v !in names then Err(KeyNotFound)
    else
      var l := deps[key];
      var renamed := seq(|l|, i requires 0 <= i < |l| => names[l[i]]);
      RenamedMembers(l, names, renamed);
      Ok(Some(Sort(renamed)))
  }

  lemma RenamedMembers(l: seq<string>, names: map<string, string>, renamed: seq<string>)
    requires forall v :: v in l ==> v in names
    requires |renamed| == |l| && forall i :: 0 <= i < |l| ==> renamed[i] == names[l[i]]
    ensures |Sort(renamed)| == |l|
    ensures forall x :: x in Sort(renamed) <==> exists v :: v in l && v in names && names[v] == x
  {
    SortBySameElements(renamed, Id);
    assert |multiset(Sort(renamed))| == |multiset(renamed)|;
    forall x | exists v :: v in l && v in names && names[v] == x ensures x in Sort(renamed) {
      var v :| v in l && v in names && names[v] == x;
      var i :| 0 <= i < |l| && l[i] == v;
      assert renamed[i] == x;
    }
  }

  /** A path that does not name a C# script. */
  predicate NotScript(p: string) {
    !EndsWith(p, ".cs")
  }

  /** The `IncludeAssets` of a bundle record: the paths of the objects in its
      file, each once, without C# scripts, in ordinal order. */
  function IncludeAssets(paths: seq<string>): (r: seq<string>)
    ensures SortedBy(r, Id) && Distinct(r)
    ensures forall p :: p in r <==> p in paths && NotScript(p)
  {
    var unique := Except(paths, {});
    var kept := Filter(unique, NotScript);
    FilterDistinct(unique, NotScript);
    IncludedMembers(paths, unique, kept);
    SortByDistinct(kept, Id);
    SortBySameElements(kept, Id);
    Sort(kept)
  }

  lemma IncludedMembers(paths: seq<string>, unique: seq<string>, kept: seq<string>)
    requires unique == Except(paths, {}) && kept == Filter(unique, NotScript)
    ensures forall p :: p in kept <==> p in paths && NotScript(p)
  {
    forall p | p in paths && NotScript(p) ensures p in kept {
      var i :| 0 <= i < |paths| && paths[i] == p;
      var j :| 0 <= j < |unique| && unique[j] == p;
    }
  }

  /** `GetNewFileName(fileName, md5)`: every occurrence of the extension is
      deleted, `_<md5>` and the extension are appended, and every
      `<lower-cased package name>_` is deleted. A name without an extension
      makes `Replace` throw on its empty old value. */
  function GetNewFileName(fileName: string, md5: string, packageName: string, sep: char): (r: Result<string>)
    ensures r.Err? <==> GetExtension(fileName, sep) == ""
    ensures r.Err? ==> r.fault == ArgumentEmpty
  {
    var ext := GetExtension(fileName, sep);
    if ext == "" then Err(ArgumentEmpty)
    else Ok(Replace(Replace(fileName, ext, "") + "_" + md5 + ext, ToLower(packageName) + "_", ""))
  }

  /** The renamed file ends with the hash and the extension, whatever the
      package prefix removal takes out before them, when neither holds a `_`. */
  lemma NewFileNameEnds(fileName: string, md5: string, packageName: string, sep: char)
    requires GetExtension(fileName, sep) != ""
    requires '_' !in md5 + GetExtension(fileName, sep)
    ensures GetNewFileName(fileName, md5, packageName, sep).Ok?
    ensures EndsWith(GetNewFileName(fileName, md5, packageName, sep).value, md5 + GetExtension(fileName, sep))
  {
    var ext := GetExtension(fileName, sep);
    var head := Replace(fileName, ext, "") + "_";
    var pat := ToLower(packageName) + "_";
    assert head + md5 + ext == head + (md5 + ext);
    ReplaceKeepsTail(head, md5 + ext, pat, "");
  }

  /** `Manifest_{package}_{version}`, the stem of the manifest files. */
  function ManifestName(packageName: string, version: string): (r: string)
    ensures StartsWith(r, "Manifest_")
  {
    "Manifest_" + packageName + "_" + version
  }

  /** The manifest's JSON, hash and zip files. */
  function ManifestFiles(stem: string): seq<string> {
    [stem + ".json", stem + ".hash", stem + ".zip"]
  }

  /** A stem followed by a well-formed extension has that extension. */
  lemma SuffixExtension(stem: string, ext: string, sep: char)
    requires sep == '/' || sep == '\\'
    requires |ext| >= 2 && ext[0] == '.'
    requires forall i :: 0 < i < |ext| ==> ext[i] != '.' && ext[i] != '/' && ext[i] != '\\'

    ensures GetExtension(stem + ext, sep) == ext && StartsWith(stem + ext, stem)
  {
    assert (stem + ext)[..|stem|] == stem;
    assert (stem + ext)[|stem + ext| - |ext|..] == ext;
    ExtensionOfSuffix(stem + ext, ext, sep);
  }

  /** The manifest files carry the `.json`, `.hash` and `.zip` extensions. */
  lemma ManifestFileExtensions(stem: string, sep: char)
    requires sep == '/' || sep == '\\'
    ensures GetExtension(ManifestFiles(stem)[0], sep) == ".json"
    ensures GetExtension(ManifestFiles(stem)[1], sep) == ".hash"
    ensures GetExtension(ManifestFiles(stem)[2], sep) == ".zip"
  {
    SuffixExtension(stem, ".json", sep);
    SuffixExtension(stem, ".hash", sep);
    SuffixExtension(stem, ".zip", sep);
  }

  /** The three manifest files are different files sharing the stem. */
  lemma ManifestFilesDistinct(stem: string)
    ensures |ManifestFiles(stem)| == 3 && Distinct(ManifestFiles(stem))
    ensures forall i :: 0 <= i < 3 ==> StartsWith(ManifestFiles(stem)[i], stem)
  {
    var fs := ManifestFiles(stem);
    assert fs[0][|stem| + 1] == 'j' && fs[1][|stem| + 1] == 'h' && fs[2][|stem| + 1] == 'z';
    forall i | 0 <= i < 3 ensures fs[i][..|stem|] == stem {
    }
  }
}
