/** `AsyncOperationBase`: the run-time operations (bundle, asset and scene
    providers) and the graph their `DependOps` lists form. Operations live in
    one arena, `Operations`, and refer to each other by index; an index also
    stands for the operation's hash code. Awaiting is sequential: with the
    base `StartSelf`, which completes at once, `Start` runs to the end
    without yielding, so it is modelled as plain recursion. */
module Operations {
  import opened Wrappers
  import opened Collections
  import opened Graphs

  /** `OperationStatus`. */
  datatype Status = Pending | Progress | Succeeded | Failure

  /** `ProgressStatus`; `Percent` is a float in the source. */
  datatype ProgressStatus = ProgressStatus(id: int, percent: real, completedBytes: nat,
                                           totalBytes: nat, isValid: bool)

  /** A loaded engine object, such as an `AssetBundle`. */
  type Asset = string

  /** The engine request a provider hands to its operation
      (`mAasyncOperation`): whether it is done, and the bundle it carries
      when it is an `AssetBundleCreateRequest`. */
  datatype EngineOp = EngineOp(isDone: bool, bundle: Option<Asset>)

  /** The completion source behind `Task` (`mSource`). */
  datatype Source = NoSource | Waiting | Resolved

  /** What `Task` hands out: a finished task, or the operation's source. */
  datatype TaskRef = CompletedTask | SourceTask(op: nat)

  /** One invocation of a completion callback with a handle on `op`. */
  datatype Firing = Firing(op: nat, callback: nat)

  /** The invocations of the callbacks `cs` of operation `i`, in order. */
  function Fire(i: nat, cs: seq<nat>): (r: seq<Firing>)
    ensures |r| == |cs| && forall k :: 0 <= k < |cs| ==> r[k] == Firing(i, cs[k])
  {
    seq(|cs|, k requires 0 <= k < |cs| => Firing(i, cs[k]))
  }

  /** `deps` lists only operations of the arena and every dependency is of
      lower rank, so the dependency graph has no cycle. */
  ghost predicate Ranked(deps: seq<Option<seq<nat>>>, rank: seq<nat>) {
    && |rank| == |deps|
    && forall i :: 0 <= i < |deps| && deps[i].Some? ==>
      forall d :: d in deps[i].value ==> d < |deps| && rank[d] < rank[i]
  }

  /** The state of one operation apart from its `DependOps`:
      `OperationStatus`, `mRefCount`, `IsCanUnload`, the queued completion
      callbacks `mComplete` in subscription order, the engine request
      `mAasyncOperation`, `_asset`, what `GetProgressStatus` reports, and
      `mSource`. */
  datatype OpState = OpState(status: Status, refCount: int, canUnload: bool, callbacks: seq<nat>,
                             engine: Option<EngineOp>, asset: Option<Asset>,
                             progress: ProgressStatus, source: Source)

  /** A fresh operation reporting `p`: `Pending`, no references, no
      callbacks, no engine request, no asset and no source. */
  function Fresh(p: ProgressStatus): (o: OpState)
    ensures o.status == Pending && o.refCount == 0 && !o.canUnload && o.callbacks == []
    ensures o.engine == None && o.asset == None && o.progress == p && o.source == NoSource
  {
    OpState(Pending, 0, false, [], None, None, p, NoSource)
  }

  /** The value `IsDone` computes from the states `os`: every dependency
      is done, and the status is `Succeeded` or `Failure`. */
  ghost function Done(os: seq<OpState>, deps: seq<Option<seq<nat>>>, rank: seq<nat>, i: nat): bool
    requires |os| == |deps| && Ranked(deps, rank) && i < |deps|
    decreases rank[i]
  {
    && (deps[i].None? || forall d :: d in deps[i].value ==> Done(os, deps, rank, d))
    && (os[i].status == Succeeded || os[i].status == Failure)
  }

  /** What the first lines of `IsDone` do to an operation: an engine
      request hands over its bundle, and a finished one marks the operation
      `Succeeded`. */
  function Synced(o: OpState): (r: OpState)
    ensures o.engine.None? ==> r == o
    ensures o.engine.Some? ==> r.asset == o.engine.value.bundle
    ensures o.engine.Some? && o.engine.value.isDone ==> r.status == Succeeded
    ensures !(o.engine.Some? && o.engine.value.isDone) ==> r.status == o.status
    ensures r.(asset := o.asset, status := o.status) == o
  {
    match o.engine
    case None => o
    case Some(e) => o.(asset := e.bundle, status := if e.isDone then Succeeded else o.status)
  }

  /** Every operation synchronised with its engine request. */
  function SyncAll(os: seq<OpState>): (r: seq<OpState>)
    ensures |r| == |os| && forall j :: 0 <= j < |os| ==> r[j] == Synced(os[j])
  {
    seq(|os|, j requires 0 <= j < |os| => Synced(os[j]))
  }

  /** Synchronising twice is synchronising once. */
  lemma SyncedTwice(o: OpState)
    ensures Synced(Synced(o)) == o.(asset := Synced(o).asset, status := Synced(o).status)
    ensures Synced(Synced(o)) == Synced(o)
  {
  }

  /** One operation's state after `t` follows from `s` the way `Start`
      and `IsDone` may change it: the status only moves to `Succeeded`, the
      asset only to the engine request's bundle, a waiting source only to
      resolved, and nothing else changes. */
  ghost predicate Step(s: OpState, t: OpState) {
    && t.(status := s.status, asset := s.asset, source := s.source) == s
    && (t.status == s.status || t.status == Succeeded)
    && (t.asset == s.asset || (s.engine.Some? && t.asset == s.engine.value.bundle))
    && (t.source == s.source || (s.source == Waiting && t.source == Resolved))
  }

  /** Every operation took a `Step`. */
  ghost predicate Advanced(s: seq<OpState>, t: seq<OpState>) {
    |t| == |s| && forall j :: 0 <= j < |s| ==> Step(s[j], t[j])
  }

  lemma AdvancedTrans(a: seq<OpState>, b: seq<OpState>, c: seq<OpState>)
    requires Advanced(a, b) && Advanced(b, c)
    ensures Advanced(a, c)
  {
  }

  /** Every operation is unchanged or synchronised. */
  ghost predicate SyncedSome(s: seq<OpState>, t: seq<OpState>) {
    |t| == |s| && forall j :: 0 <= j < |s| ==> t[j] == s[j] || t[j] == Synced(s[j])
  }

  lemma SyncedSomeTrans(a: seq<OpState>, b: seq<OpState>, c: seq<OpState>)
    requires SyncedSome(a, b) && SyncedSome(b, c)
    ensures SyncedSome(a, c) && SyncAll(c) == SyncAll(a)
  {
    forall j | 0 <= j < |a| ensures c[j] == a[j] || c[j] == Synced(a[j]) {
      SyncedTwice(a[j]);
    }
  }

  /** Moving operations on keeps every done operation done. */
  lemma {:induction false} DoneMono(os: seq<OpState>, os2: seq<OpState>, deps: seq<Option<seq<nat>>>,
                                    rank: seq<nat>, i: nat)
    requires |os| == |deps| && Ranked(deps, rank) && i < |deps|
    requires Advanced(os, os2)
    requires Done(os, deps, rank, i)
    ensures Done(os2, deps, rank, i)
    decreases rank[i]
  {
    if deps[i].Some? {
      forall d | d in deps[i].value ensures Done(os2, deps, rank, d) {
        DoneMono(os, os2, deps, rank, d);
      }
    }
  }

  /** One more dependency checked by `IsDone`'s loop: the states stay
      partly synchronised, and the dependencies found done stay done. */
  lemma DoneStep(os0: seq<OpState>, mid: seq<OpState>, os: seq<OpState>, deps: seq<Option<seq<nat>>>,
                 rank: seq<nat>, ds: seq<nat>, k: nat, dd: bool)
    requires |os0| == |deps| && Ranked(deps, rank)
    requires k < |ds| && forall m :: 0 <= m < |ds| ==> ds[m] < |deps|
    requires SyncedSome(os0, mid) && SyncedSome(mid, os)
    requires forall m :: 0 <= m < k ==> Done(SyncAll(os0), deps, rank, ds[m])
    requires forall m :: 0 <= m < k ==> Done(mid, deps, rank, ds[m])
    requires dd == Done(SyncAll(mid), deps, rank, ds[k]) && (dd ==> Done(os, deps, rank, ds[k]))
    ensures SyncedSome(os0, os)
    ensures dd == Done(SyncAll(os0), deps, rank, ds[k])
    ensures forall m :: 0 <= m < k + (if dd then 1 else 0) ==> Done(SyncAll(os0), deps, rank, ds[m])
    ensures forall m :: 0 <= m < k + (if dd then 1 else 0) ==> Done(os, deps, rank, ds[m])
  {
    SyncedSomeTrans(os0, mid, os);
    SyncedSomeTrans(os0, mid, mid);
    forall m | 0 <= m < k ensures Done(os, deps, rank, ds[m]) {
      DoneMono(mid, os, deps, rank, ds[m]);
    }
  }

  /** The `Start`s that completed since `starts0`, starting from states
      `os0`, were each of an operation that was not done then. */
  ghost predicate Started(os0: seq<OpState>, starts0: seq<nat>, starts: seq<nat>,
                          deps: seq<Option<seq<nat>>>, rank: seq<nat>)
    requires |os0| == |deps| && Ranked(deps, rank)
  {
    && starts0 <= starts
    && (forall k :: 0 <= k < |starts| ==> starts[k] < |deps|)
    && forall k :: |starts0| <= k < |starts| ==> !Done(SyncAll(os0), deps, rank, starts[k])
  }

  /** The `Start`s since `starts0` before one more `Start` of `d`, which
      was not done before it, and those inside it, together. */
  lemma StartedStep(os0: seq<OpState>, mid: seq<OpState>, mid2: seq<OpState>,
                    deps: seq<Option<seq<nat>>>, rank: seq<nat>, d: nat,
                    starts0: seq<nat>, st: seq<nat>, starts: seq<nat>)
    requires |os0| == |deps| && Ranked(deps, rank) && d < |deps|
    requires Advanced(os0, mid) && Advanced(mid, mid2) && Started(os0, starts0, st, deps, rank)
    requires !Done(SyncAll(mid), deps, rank, d)
    requires |starts| > 0 && starts[|starts| - 1] == d
    requires Started(mid2, st, starts[..|starts| - 1], deps, rank)
    ensures Started(os0, starts0, starts, deps, rank)
  {
    AdvancedTrans(os0, mid, mid2);
    SyncAllAdvanced(os0, mid2);
    SyncAllAdvanced(os0, mid);
    var pre := starts[..|starts| - 1];
    assert starts == pre + [d];
    forall j | |starts0| <= j < |starts| ensures !Done(SyncAll(os0), deps, rank, starts[j]) {
      if j < |st| {
        assert starts[j] == st[j];
      } else if j < |starts| - 1 {
        assert starts[j] == pre[j];
        if Done(SyncAll(os0), deps, rank, starts[j]) {
          DoneMono(SyncAll(os0), SyncAll(mid2), deps, rank, starts[j]);
        }
      } else if Done(SyncAll(os0), deps, rank, d) {
        DoneMono(SyncAll(os0), SyncAll(mid), deps, rank, d);
      }
    }
  }

  /** One more dependency handled by `StartDepends`' loop: it was either
      done already, or not done and then started. */
  lemma StartStep(os0: seq<OpState>, mid: seq<OpState>, mid2: seq<OpState>, os: seq<OpState>,
                  deps: seq<Option<seq<nat>>>, rank: seq<nat>, ds: seq<nat>, k: nat, done: bool)
    requires |os0| == |deps| && Ranked(deps, rank)
    requires k < |ds| && forall m :: 0 <= m < |ds| ==> ds[m] < |deps|
    requires Advanced(os0, mid)
    requires forall m :: 0 <= m < k ==> Done(mid, deps, rank, ds[m])
    requires SyncedSome(mid, mid2)
    requires done ==> os == mid2 && Done(mid2, deps, rank, ds[k])
    requires !done ==> Advanced(mid2, os) && Done(os, deps, rank, ds[k])
    ensures Advanced(os0, os) && Advanced(mid, mid2)
    ensures forall m :: 0 <= m < k + 1 ==> Done(os, deps, rank, ds[m])
  {
    SyncedAdvanced(mid, mid2);
    AdvancedTrans(os0, mid, mid2);
    if !done {
      AdvancedTrans(os0, mid2, os);
      AdvancedTrans(mid, mid2, os);
    }
    forall m | 0 <= m < k ensures Done(os, deps, rank, ds[m]) {
      DoneMono(mid, os, deps, rank, ds[m]);
    }
  }

  /** Unchanged or synchronised operations took a `Step`. */
  lemma SyncedAdvanced(s: seq<OpState>, t: seq<OpState>)
    requires SyncedSome(s, t)
    ensures Advanced(s, t)
  {
  }

  /** Synchronising keeps `Advanced`. */
  lemma SyncAllAdvanced(s: seq<OpState>, t: seq<OpState>)
    requires Advanced(s, t)
    ensures Advanced(SyncAll(s), SyncAll(t))
  {
  }

  /** The indices below `n`. */
  function Ids(n: nat): (r: set<nat>)
    ensures forall j: nat :: j in r <==> j < n
  {
    if n == 0 then {} else Ids(n - 1) + {n - 1}
  }

  /** The `DependOps` edges out of the operations outside `visited`: the
      edges `AddRef` and `DecRef` may follow from the visited set
      `visited`. */
  ghost function DepGraph(deps: seq<Option<seq<nat>>>, visited: set<nat>): Digraph<nat> {
    map j: nat | j < |deps| && j !in visited && deps[j].Some? :: Members(deps[j].value)
  }

  /** Every operation newly in `v` had its count moved by `delta`; nothing
      else changed. */
  ghost predicate Counted(os0: seq<OpState>, os: seq<OpState>, v0: set<nat>, v: set<nat>, delta: int) {
    |os| == |os0| &&
    forall j :: 0 <= j < |os0| ==>
      os[j] == os0[j].(refCount := os0[j].refCount + if j in v - v0 then delta else 0)
  }

  /** What a finished `AddRef` or `DecRef` walk from `i` guarantees:
      `i` is visited, every node it added is reachable from `i` without
      passing a node visited before, the dependencies of every added node are
      visited, and exactly the added nodes were recounted. */
  ghost predicate Recounted(deps: seq<Option<seq<nat>>>, os0: seq<OpState>, os: seq<OpState>,
                            v0: set<nat>, v: set<nat>, i: nat, delta: int) {
    && v0 <= v && i in v
    && (forall j :: j in v - v0 ==> j < |deps| && ReachStar(DepGraph(deps, v0), i, j))
    && (forall j :: j in v - v0 && j < |deps| && deps[j].Some? ==> Members(deps[j].value) <= v)
    && Counted(os0, os, v0, v, delta)
  }

  /** What holds while the walk from `i` is in progress: as `Recounted`,
      except that `i`'s own dependencies may not all be visited yet. */
  ghost predicate Recounting(deps: seq<Option<seq<nat>>>, os0: seq<OpState>, os: seq<OpState>,
                             v0: set<nat>, v: set<nat>, i: nat, delta: int) {
    && v0 + {i} <= v
    && (forall j :: j in v - v0 ==> j < |deps| && ReachStar(DepGraph(deps, v0), i, j))
    && (forall j :: j in v - v0 && j != i && j < |deps| && deps[j].Some? ==> Members(deps[j].value) <= v)
    && Counted(os0, os, v0, v, delta)
  }

  /** Finishing the walk from a dependency `d` of `i` keeps the walk from
      `i` going. */
  lemma RecountStep(deps: seq<Option<seq<nat>>>, os0: seq<OpState>, os1: seq<OpState>, os2: seq<OpState>,
                    v0: set<nat>, v1: set<nat>, v2: set<nat>, i: nat, d: nat, delta: int)
    requires i < |deps| && i !in v0 && deps[i].Some? && d in deps[i].value
    requires Recounting(deps, os0, os1, v0, v1, i, delta)
    requires Recounted(deps, os1, os2, v1, v2, d, delta)
    ensures Recounting(deps, os0, os2, v0, v2, i, delta)
    ensures v1 <= v2 && d in v2
  {
    var g0, g1 := DepGraph(deps, v0), DepGraph(deps, v1);
    forall j | j in v2 - v0 ensures j < |deps| && ReachStar(g0, i, j) {
      if j !in v1 {
        assert j in v2 - v1;
        assert ReachStar(g1, d, j);
        ReachWider(g1, g0, d, j);
        ReachPrepend(g0, i, d, j);
      } else {
        assert j in v1 - v0;
      }
    }
  }

  /** A finished walk from an unvisited `i` adds exactly the nodes reachable
      from `i` without passing a node visited before. */
  lemma RecountedExactly(deps: seq<Option<seq<nat>>>, os0: seq<OpState>, os: seq<OpState>,
                         v0: set<nat>, v: set<nat>, i: nat, delta: int)
    requires Recounted(deps, os0, os, v0, v, i, delta) && i !in v0
    ensures forall j :: j in v - v0 ==> ReachStar(DepGraph(deps, v0), i, j)
    ensures forall j :: j !in v0 && ReachStar(DepGraph(deps, v0), i, j) ==> j in v
  {
    var g := DepGraph(deps, v0);
    forall x | x in v && x in g ensures g[x] <= v {
      assert x in v - v0 && deps[x].Some? && g[x] == Members(deps[x].value);
    }
    forall j | j !in v0 && ReachStar(g, i, j) ensures j in v {
      ClosedReach(g, v, i, j);
    }
  }

  /** The status values the operations in `e` report. */
  ghost function Progresses(os: seq<OpState>, e: set<nat>): set<ProgressStatus> {
    set j | j in e && j < |os| :: os[j].progress
  }

  /** What a finished `GetProgressStatusSet` from `i` guarantees, with `e`
      the operations it entered: the set grew by exactly their statuses,
      each is reachable from `i`, and the statuses of the dependencies of
      each are in the set. */
  ghost predicate Collected(deps: seq<Option<seq<nat>>>, os: seq<OpState>,
                            s0: set<ProgressStatus>, s: set<ProgressStatus>, e: set<nat>, i: nat)
    requires |os| == |deps| && forall j :: 0 <= j < |deps| && deps[j].Some? ==> forall d :: d in deps[j].value ==> d < |os|
  {
    && s == s0 + Progresses(os, e)
    && (forall j :: j in e ==> j < |os| && ReachStar(DepGraph(deps, {}), i, j))
    && (forall j :: j in e && j < |os| && deps[j].Some? ==>
          forall d :: d in deps[j].value ==> os[d].progress in s)
  }

  /** What holds while the operation `i` is being entered: as `Collected`,
      except for `i`'s own dependencies. */
  ghost predicate Collecting(deps: seq<Option<seq<nat>>>, os: seq<OpState>,
                             s0: set<ProgressStatus>, s: set<ProgressStatus>, e: set<nat>, i: nat)
    requires |os| == |deps| && forall j :: 0 <= j < |deps| && deps[j].Some? ==> forall d :: d in deps[j].value ==> d < |os|
  {
    && i in e && i < |os|
    && s == s0 + Progresses(os, e)
    && (forall j :: j in e ==> j < |os| && ReachStar(DepGraph(deps, {}), i, j))
    && (forall j :: j in e && j != i && j < |os| && deps[j].Some? ==>
          forall d :: d in deps[j].value ==> os[d].progress in s)
  }

  /** Finishing the collection from a dependency `d` of `i` keeps the
      collection from `i` going. */
  lemma CollectStep(deps: seq<Option<seq<nat>>>, os: seq<OpState>, s0: set<ProgressStatus>,
                    s1: set<ProgressStatus>, s2: set<ProgressStatus>, e1: set<nat>, e2: set<nat>,
                    i: nat, d: nat)
    requires |os| == |deps| && forall j :: 0 <= j < |deps| && deps[j].Some? ==> forall d :: d in deps[j].value ==> d < |os|
    requires i < |deps| && deps[i].Some? && d in deps[i].value
    requires Collecting(deps, os, s0, s1, e1, i)
    requires Collected(deps, os, s1, s2, e2, d) && os[d].progress in s2
    ensures Collecting(deps, os, s0, s2, e1 + e2, i)
    ensures s1 <= s2
  {
    var g := DepGraph(deps, {});
    assert Progresses(os, e1 + e2) == Progresses(os, e1) + Progresses(os, e2);
    forall j | j in e2 ensures ReachStar(g, i, j) {
      ReachPrepend(g, i, d, j);
    }
  }

  class Operations {
    /** `DependOps` of each operation; `None` is a `null` list. */
    var deps: seq<Option<seq<nat>>>
    /** The rest of each operation's state. */
    var ops: seq<OpState>
    /** Every callback invocation so far, in order. */
    var fired: seq<Firing>
    /** How often `StartSelf` has run for each operation. */
    ghost var selfRuns: seq<nat>
    /** Every completed `Start`, in order of completion. */
    ghost var starts: seq<nat>

    /** Dependencies are operations of the arena, `Progress` is never seen
        between calls, and `StartSelf` has run at most once, and not at all
        while `Pending`. */
    ghost predicate Valid()
      reads this
    {
      && |deps| == |ops| && |selfRuns| == |ops|
      && (forall k :: 0 <= k < |starts| ==> starts[k] < |ops|)
      && (forall i :: 0 <= i < |deps| && deps[i].Some? ==> forall d :: d in deps[i].value ==> d < |ops|)
      && (forall i :: 0 <= i < |ops| ==> ops[i].status != Progress)
      && (forall i :: 0 <= i < |ops| ==> selfRuns[i] <= 1 && (ops[i].status == Pending ==> selfRuns[i] == 0))
    }

    /** An empty arena. */
    constructor()
      ensures Valid() && ops == [] && deps == [] && fired == []
    {
      deps, ops, fired, selfRuns, starts := [], [], [], [], [];
    }

    /** A new operation with the given `DependOps`, reporting `p` as its
        progress. */
    method Create(d: Option<seq<nat>>, p: ProgressStatus) returns (id: nat)
      requires Valid()
      requires d.Some? ==> forall x :: x in d.value ==> x < |ops|
      modifies this
      ensures Valid()
      ensures id == old(|ops|)
      ensures ops == old(ops) + [Fresh(p)] && deps == old(deps) + [d] && fired == old(fired)
    {
      id := |ops|;
      deps, ops, selfRuns := deps + [d], ops + [Fresh(p)], selfRuns + [0];
    }

    /** The `DependOps` setter. */
    method SetDependOps(i: nat, d: Option<seq<nat>>)
      requires Valid() && i < |ops|
      requires d.Some? ==> forall x :: x in d.value ==> x < |ops|
      modifies this
      ensures Valid()
      ensures deps == old(deps)[i := d] && ops == old(ops) && fired == old(fired)
    {
      deps := deps[i := d];
    }

    /** `IsDone`: first lets the engine request hand over its bundle and,
        when finished, mark the operation `Succeeded`; then answers false at
        the first dependency that is not done, and otherwise whether the
        status is `Succeeded` or `Failure`. */
    method IsDone(i: nat, ghost rank: seq<nat>) returns (r: bool)
      requires Valid() && i < |ops| && Ranked(deps, rank)
      modifies this
      ensures Valid() && deps == old(deps) && fired == old(fired) && selfRuns == old(selfRuns)
      ensures starts == old(starts)
      ensures SyncedSome(old(ops), ops) && ops[i] == Synced(old(ops[i]))
      ensures r == Done(SyncAll(old(ops)), deps, rank, i)
      ensures r ==> Done(ops, deps, rank, i)
      decreases rank[i], 0
    {
      ghost var os0 := ops;
      ops := ops[i := Synced(ops[i])];
      SyncedTwice(os0[i]);
      if deps[i].Some? {
        var ds := deps[i].value;
        assert forall m :: 0 <= m < |ds| ==> ds[m] in deps[i].value;
        for k := 0 to |ds|
          invariant Valid() && deps == old(deps) && fired == old(fired) && selfRuns == old(selfRuns)
          invariant starts == old(starts)
          invariant SyncedSome(os0, ops) && ops[i] == Synced(os0[i])
          invariant forall m :: 0 <= m < k ==> Done(SyncAll(os0), deps, rank, ds[m])
          invariant forall m :: 0 <= m < k ==> Done(ops, deps, rank, ds[m])
        {
          ghost var mid := ops;
          var dd := IsDone(ds[k], rank);
          DoneStep(os0, mid, ops, deps, rank, ds, k, dd);
          if !dd {
            return false;
          }
        }
      }
      r := ops[i].status == Succeeded || ops[i].status == Failure;
    }
 
    /** `Start`: starts the dependencies that are not done, runs
        `StartSelf` only while the status is before `Progress`, then marks
        the operation `Succeeded`, invokes every queued callback (which
        stay queued) and resolves the completion source if there is one. */
    method Start(i: nat, ghost rank: seq<nat>)
      requires Valid() && i < |ops| && Ranked(deps, rank)
      modifies this
      ensures Valid() && deps == old(deps) && Advanced(old(ops), ops)
      ensures ops[i].status == Succeeded && Done(ops, deps, rank, i)
      ensures ops[i].source == if old(ops[i].source) == NoSource then NoSource else Resolved
      ensures old(fired) <= fired && |ops[i].callbacks| <= |fired|
      ensures fired[|fired| - |ops[i].callbacks|..] == Fire(i, ops[i].callbacks)
      ensures |starts| > 0 && starts[|starts| - 1] == i
      ensures Started(old(ops), old(starts), starts[..|starts| - 1], deps, rank)
      decreases rank[i], 2
    {
      StartDepends(i, rank);
      ghost var os1 := ops;
      // `OperationStatus < Progress`: the status becomes `Progress` and
      // `StartSelf` runs; the base class's completes at once, and the
      // providers' work is not modelled
      var runSelf := ops[i].status == Pending;
      selfRuns := selfRuns[i := selfRuns[i] + if runSelf then 1 else 0];
      var o := ops[i].(status := Succeeded,
                       source := if ops[i].source == NoSource then NoSource else Resolved);
      ops := ops[i := o];
      fired := fired + Fire(i, o.callbacks);
      ghost var st := starts;
      starts := starts + [i];
      assert starts[..|starts| - 1] == st;
      assert Step(os1[i], o);
      assert Advanced(os1, ops);
      AdvancedTrans(old(ops), os1, ops);
      if deps[i].Some? {
        forall d | d in deps[i].value ensures Done(ops, deps, rank, d) {
          DoneMono(os1, ops, deps, rank, d);
        }
      }
    }

    /** `StartDepends`: starts, in order, each dependency that is not done
        when its turn comes. */
    method StartDepends(i: nat, ghost rank: seq<nat>)
      requires Valid() && i < |ops| && Ranked(deps, rank)
      modifies this
      ensures Valid() && deps == old(deps) && Advanced(old(ops), ops)
      ensures deps[i].Some? ==> forall d :: d in deps[i].value ==> Done(ops, deps, rank, d)
      ensures old(fired) <= fired
      ensures Started(old(ops), old(starts), starts, deps, rank)
      decreases rank[i], 1
    {
      if deps[i].None? || |deps[i].value| == 0 {
        return;
      }
      var ds := deps[i].value;
      assert forall m :: 0 <= m < |ds| ==> ds[m] in deps[i].value;
      ghost var os0 := ops;
      for k := 0 to |ds|
        invariant Valid() && deps == old(deps) && Advanced(os0, ops)
        invariant forall m :: 0 <= m < k ==> Done(ops, deps, rank, ds[m])
        invariant old(fired) <= fired
        invariant Started(os0, old(starts), starts, deps, rank)
      {
        ghost var mid := ops;
        ghost var st := starts;
        var done := IsDone(ds[k], rank);
        ghost var mid2 := ops;
        SyncedAdvanced(mid, mid2);
        if !done {
          Start(ds[k], rank);
          StartedStep(os0, mid, mid2, deps, rank, ds[k], old(starts), st, starts);
        }
        StartStep(os0, mid, mid2, ops, deps, rank, ds, k, done);
      }
    }

    /** `AddRef` and `DecRef` with `delta` +1 and -1: when `i` is newly
        added to the visited set, moves its count by `delta` and walks on
        into each dependency in turn. */
    method Recount(i: nat, visited: set<nat>, delta: int) returns (v: set<nat>)
      requires Valid() && i < |ops|
      modifies this
      ensures Valid() && deps == old(deps) && fired == old(fired)
      ensures selfRuns == old(selfRuns) && starts == old(starts)
      ensures Recounted(deps, old(ops), ops, visited, v, i, delta)
      ensures i in visited ==> v == visited
      decreases Ids(|ops|) - visited
    {
      if i in visited {
        return visited;
      }
      v := visited + {i};
      ops := ops[i := ops[i].(refCount := ops[i].refCount + delta)];
      if deps[i].Some? {
        var ds := deps[i].value;
        assert forall m :: 0 <= m < |ds| ==> ds[m] in deps[i].value;
        for k := 0 to |ds|
          invariant Valid() && deps == old(deps) && fired == old(fired)
          invariant selfRuns == old(selfRuns) && starts == old(starts)
          invariant Recounting(deps, old(ops), ops, visited, v, i, delta)
          invariant Members(ds[..k]) <= v
        {
          MembersPrefix(ds, k);
          ghost var v1, os1 := v, ops;
          assert Ids(|ops|) - v < Ids(|ops|) - visited by {
            assert i in Ids(|ops|) - visited;
          }
          v := Recount(ds[k], v, delta);
          RecountStep(deps, old(ops), os1, ops, visited, v1, v, i, ds[k], delta);
        }
        assert ds[..|ds|] == ds;
      }
    }

    /** `AddRef`: every node newly reached from `i` counts one more
        reference. */
    method AddRef(i: nat, visited: set<nat>) returns (v: set<nat>)
      requires Valid() && i < |ops|
      modifies this
      ensures Valid() && deps == old(deps) && fired == old(fired)
      ensures Recounted(deps, old(ops), ops, visited, v, i, 1)
      ensures i in visited ==> v == visited
    {
      v := Recount(i, visited, 1);
    }

    /** `DecRef`: every node newly reached from `i` counts one reference
        less. */
    method DecRef(i: nat, visited: set<nat>) returns (v: set<nat>)
      requires Valid() && i < |ops|
      modifies this
      ensures Valid() && deps == old(deps) && fired == old(fired)
      ensures Recounted(deps, old(ops), ops, visited, v, i, -1)
      ensures i in visited ==> v == visited
    {
      v := Recount(i, visited, -1);
    }

    /** `Unload`: marks the operation unloadable once no references are
        left; the mark is never taken back. */
    method Unload(i: nat)
      requires Valid() && i < |ops|
      modifies this
      ensures Valid() && deps == old(deps) && fired == old(fired)
      ensures ops == old(ops)[i := ops[i]]
      ensures ops[i] == old(ops[i]).(canUnload := ops[i].canUnload)
      ensures ops[i].canUnload <==> old(ops[i].canUnload) || old(ops[i].refCount) <= 0
    {
      if ops[i].refCount <= 0 {
        ops := ops[i := ops[i].(canUnload := true)];
      }
    }

    /** Adding a `Completed` handler (`None` is a `null` one): after
        `IsDone`'s synchronisation, a done operation invokes the handler at
        once without queuing it, and one that is not done queues it. */
    method Subscribe(i: nat, cb: Option<nat>, ghost rank: seq<nat>)
      requires Valid() && i < |ops| && Ranked(deps, rank)
      modifies this
      ensures Valid() && deps == old(deps) && selfRuns == old(selfRuns) && starts == old(starts)
      ensures SyncedSome(old(ops), ops[i := Synced(old(ops[i]))])
      ensures ops[i] == Synced(old(ops[i])).(callbacks := ops[i].callbacks)
      ensures Done(SyncAll(old(ops)), deps, rank, i) ==>
        ops[i].callbacks == old(ops[i].callbacks) &&
        fired == old(fired) + (if cb.Some? then [Firing(i, cb.value)] else [])
      ensures !Done(SyncAll(old(ops)), deps, rank, i) ==>
        fired == old(fired) &&
        ops[i].callbacks == old(ops[i].callbacks) + (if cb.Some? then [cb.value] else [])
    {
      var done := IsDone(i, rank);
      if done {
        if cb.Some? {
          fired := fired + [Firing(i, cb.value)];
        }
      } else if cb.Some? {
        ops := ops[i := ops[i].(callbacks := ops[i].callbacks + [cb.value])];
      }
    }

    /** Removing a `Completed` handler drops its last queued occurrence. */
    method Unsubscribe(i: nat, cb: Option<nat>)
      requires Valid() && i < |ops|
      modifies this
      ensures Valid() && deps == old(deps) && fired == old(fired)
      ensures ops == old(ops)[i := ops[i]]
      ensures cb.None? ==> ops[i] == old(ops[i])
      ensures cb.Some? ==> ops[i] == old(ops[i]).(callbacks := RemoveLast(old(ops[i].callbacks), cb.value))
    {
      if cb.Some? {
        ops := ops[i := ops[i].(callbacks := RemoveLast(ops[i].callbacks, cb.value))];
      }
    }

    /** `Task`: a finished task when the operation is done, otherwise its
        completion source, created on first use. */
    method Task(i: nat, ghost rank: seq<nat>) returns (t: TaskRef)
      requires Valid() && i < |ops| && Ranked(deps, rank)
      modifies this
      ensures Valid() && deps == old(deps) && fired == old(fired)
      ensures SyncedSome(old(ops), ops[i := Synced(old(ops[i]))])
      ensures t == CompletedTask <==> Done(SyncAll(old(ops)), deps, rank, i)
      ensures t == CompletedTask ==> ops[i] == Synced(old(ops[i]))
      ensures t != CompletedTask ==> t == SourceTask(i)
      ensures t != CompletedTask ==>
        ops[i] == Synced(old(ops[i])).(source := if old(ops[i].source) == NoSource then Waiting else old(ops[i].source))
    {
      var done := IsDone(i, rank);
      if done {
        return CompletedTask;
      }
      if ops[i].source == NoSource {
        ops := ops[i := ops[i].(source := Waiting)];
      }
      t := SourceTask(i);
    }

    /** `GetAssets`: the assets of the dependencies in order, or `None`
        when `DependOps` is `null`. */
    method GetAssets(i: nat) returns (r: Option<seq<Option<Asset>>>)
      requires Valid() && i < |ops|
      ensures r.None? <==> deps[i].None?
      ensures r.Some? ==> |r.value| == |deps[i].value|
      ensures r.Some? ==> forall k :: 0 <= k < |r.value| ==>
        deps[i].value[k] in deps[i].value && r.value[k] == ops[deps[i].value[k]].asset
    {
      if deps[i].None? {
        return None;
      }
      var ds := deps[i].value;
      assert forall m :: 0 <= m < |ds| ==> ds[m] in deps[i].value;
      var list := [];
      for k := 0 to |ds|
        invariant |list| == k && forall m :: 0 <= m < k ==> list[m] == ops[ds[m]].asset
      {
        list := list + [ops[ds[k]].asset];
      }
      r := Some(list);
    }

    /** The status values of all operations. */
    ghost function AllProgress(): set<ProgressStatus>
      reads this
    {
      Progresses(ops, Ids(|ops|))
    }

    /** `GetProgressStatusSet`: adds the operation's status value to the
        set and, only when it was not there yet, does the same for each
        dependency in turn. `e` are the operations entered. */
    method GetProgressStatusSet(i: nat, s: set<ProgressStatus>) returns (s': set<ProgressStatus>, ghost e: set<nat>)
      requires Valid() && i < |ops|
      ensures ops[i].progress in s' && s <= s'
      ensures ops[i].progress in s ==> s' == s && e == {}
      ensures ops[i].progress !in s ==> i in e
      ensures Collected(deps, ops, s, s', e, i)
      decreases AllProgress() - s
    {
      if ops[i].progress in s {
        return s, {};
      }
      s', e := s + {ops[i].progress}, {i};
      assert Progresses(ops, {i}) == {ops[i].progress};
      if deps[i].Some? {
        var ds := deps[i].value;
        assert forall m :: 0 <= m < |ds| ==> ds[m] in deps[i].value;
        for k := 0 to |ds|
          invariant Collecting(deps, ops, s, s', e, i)
          invariant s + {ops[i].progress} <= s'
          invariant forall m :: 0 <= m < k ==> ops[ds[m]].progress in s'
        {
          assert AllProgress() - s' < AllProgress() - s by {
            assert i in Ids(|ops|);
            assert ops[i].progress in AllProgress() - s;
          }
          ghost var s1 := s';
          ghost var e2: set<nat>;
          s', e2 := GetProgressStatusSet(ds[k], s');
          CollectStep(deps, ops, s, s1, s', e, e2, i, ds[k]);
          e := e + e2;
        }
      }
    }
  }
}
