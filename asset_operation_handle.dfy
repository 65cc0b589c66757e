/** `AssetOperationHandle`: a value that may refer to an operation of the
    arena, and forwards to it, treating a `null` operation leniently in
    some members and not in others. */
module Handles {
  import opened Wrappers
  import opened Graphs
  import opened Operations

  /** `AssetOperationHandle`; `None` is a handle built without an
      operation. */
  datatype Handle = Handle(op: Option<nat>)

  /** The handle refers to nothing or to an operation of `a`. */
  ghost predicate Refers(a: Operations, h: Handle)
    reads a
  {
    a.Valid() && (h.op.Some? ==> h.op.value < |a.ops|)
  }

  /** 2^64: `ulong` arithmetic wraps modulo this. */
  const ULongModulus: nat := 0x1_0000_0000_0000_0000

  /** The bytes a status contributes to `CompletedBytes`: its own when
      valid, none otherwise. */
  function CompletedOf(p: ProgressStatus): nat {
    if p.isValid then p.completedBytes else 0
  }

  /** The bytes a status contributes to `TotalBytes`. */
  function TotalOf(p: ProgressStatus): nat {
    if p.isValid then p.totalBytes else 0
  }

  /** The sum of `f` over a set, in no particular order. */
  ghost function SumOf(s: set<ProgressStatus>, f: ProgressStatus -> nat): nat {
    if s == {} then 0
    else
      var x :| x in s;
      f(x) + SumOf(s - {x}, f)
  }

  /** The sum does not depend on which element is taken first. */
  lemma {:induction false} SumOfRemove(s: set<ProgressStatus>, f: ProgressStatus -> nat, y: ProgressStatus)
    requires y in s
    ensures SumOf(s, f) == f(y) + SumOf(s - {y}, f)
    decreases |s|
  {
    var x :| x in s && SumOf(s, f) == f(x) + SumOf(s - {x}, f);
    if x != y {
      SumOfRemove(s - {x}, f, y);
      SumOfRemove(s - {y}, f, x);
      assert s - {x} - {y} == s - {y} - {x};
    }
  }

  /** Adding before or after the reduction is the same modulo 2^64. */
  lemma ModAdd(a: int, b: int)
    ensures (a % ULongModulus + b) % ULongModulus == (a + b) % ULongModulus
  {
  }

  /** The loop of `GetProgressStatus`: the `ulong` sums of the valid
      statuses' bytes. */
  method AddUp(s: set<ProgressStatus>) returns (completed: nat, total: nat)
    ensures completed == SumOf(s, CompletedOf) % ULongModulus
    ensures total == SumOf(s, TotalOf) % ULongModulus
  {
    var rest := s;
    completed, total := 0, 0;
    ghost var c, t := 0, 0;  // the sums before wrap-around
    while rest != {}
      invariant rest <= s
      invariant c + SumOf(rest, CompletedOf) == SumOf(s, CompletedOf) && completed == c % ULongModulus
      invariant t + SumOf(rest, TotalOf) == SumOf(s, TotalOf) && total == t % ULongModulus
      decreases |rest|
    {
      var x :| x in rest;
      SumOfRemove(rest, CompletedOf, x);
      SumOfRemove(rest, TotalOf, x);
      ModAdd(c, CompletedOf(x));
      ModAdd(t, TotalOf(x));
      completed, c := (completed + CompletedOf(x)) % ULongModulus, c + CompletedOf(x);
      total, t := (total + TotalOf(x)) % ULongModulus, t + TotalOf(x);
      rest := rest - {x};
    }
  }

  /** The handle's `IsDone`: `true` without an operation, otherwise the
      operation's `IsDone`. */
  method IsDone(a: Operations, h: Handle, ghost rank: seq<nat>) returns (r: bool)
    requires Refers(a, h) && Ranked(a.deps, rank)
    modifies a
    ensures Refers(a, h) && a.deps == old(a.deps)
    ensures h.op.None? ==> r && a.ops == old(a.ops)
    ensures h.op.Some? ==> r == Done(SyncAll(old(a.ops)), a.deps, rank, h.op.value)
    ensures SyncedSome(old(a.ops), a.ops)
  {
    if h.op.None? {
      return true;
    }
    r := a.IsDone(h.op.value, rank);
  }

  /** The handle's `GetAssets`: `None` without an operation or when the
      operation's `DependOps` is `null`, otherwise the dependencies'
      assets. */
  method GetAssets(a: Operations, h: Handle) returns (r: Option<seq<Option<Asset>>>)
    requires Refers(a, h)
    ensures r.None? <==> h.op.None? || a.deps[h.op.value].None?
    ensures r.Some? ==> |r.value| == |a.deps[h.op.value].value|
    ensures r.Some? ==> forall k :: 0 <= k < |r.value| ==>
      a.deps[h.op.value].value[k] in a.deps[h.op.value].value &&
      r.value[k] == a.ops[a.deps[h.op.value].value[k]].asset
  {
    if h.op.None? {
      return None;
    }
    r := a.GetAssets(h.op.value);
  }

  /** `GetProgressStatus`: collects the status values reachable from the
      operation into a fresh set, then adds up, with `ulong` wrap-around,
      the bytes of the valid ones. The result is always valid. Without an
      operation it throws. */
  method GetProgressStatus(a: Operations, h: Handle) returns (r: Result<ProgressStatus>)
    requires Refers(a, h)
    ensures h.op.None? <==> r == Err(NullReference)
    ensures r.Ok? ==> exists e ::
      Collected(a.deps, a.ops, {}, Progresses(a.ops, e), e, h.op.value) &&
      h.op.value in e &&
      r.value == ProgressStatus(0, 0.0, SumOf(Progresses(a.ops, e), CompletedOf) % ULongModulus,
                                SumOf(Progresses(a.ops, e), TotalOf) % ULongModulus, true)
  {
    if h.op.None? {
      return Err(NullReference);
    }
    var s, e := a.GetProgressStatusSet(h.op.value, {});
    var completed, total := AddUp(s);
    r := Ok(ProgressStatus(0, 0.0, completed, total, true));
  }

  /** Every operation reachable from `i`, itself included, with its count
      moved by `delta`. */
  ghost function Bumped(os: seq<OpState>, deps: seq<Option<seq<nat>>>, i: nat, delta: int): (r: seq<OpState>)
    ensures |r| == |os|
  {
    seq(|os|, j requires 0 <= j < |os| =>
      os[j].(refCount := os[j].refCount + if ReachStar(DepGraph(deps, {}), i, j) then delta else 0))
  }

  /** `AddRef` and `DecRef` with `delta` +1 and -1: one walk with a fresh
      visited set, so every operation reachable from the handle's moves
      by exactly `delta` however many paths lead to it. */
  method Recount(a: Operations, h: Handle, delta: int)
    requires Refers(a, h)
    modifies a
    ensures Refers(a, h) && a.deps == old(a.deps) && a.fired == old(a.fired)
    ensures h.op.None? ==> a.ops == old(a.ops)
    ensures h.op.Some? ==> a.ops == Bumped(old(a.ops), a.deps, h.op.value, delta)
  {
    if h.op.Some? {
      var i := h.op.value;
      var v := a.Recount(i, {}, delta);
      RecountedExactly(a.deps, old(a.ops), a.ops, {}, v, i, delta);
      assert a.ops == Bumped(old(a.ops), a.deps, i, delta) by {
        forall j | 0 <= j < |a.ops| ensures a.ops[j] == Bumped(old(a.ops), a.deps, i, delta)[j] {
          assert j in v - {} <==> ReachStar(DepGraph(a.deps, {}), i, j);
        }
      }
    }
  }

  /** `AddRef`: one more reference on everything the handle reaches. */
  method AddRef(a: Operations, h: Handle)
    requires Refers(a, h)
    modifies a
    ensures Refers(a, h) && a.deps == old(a.deps) && a.fired == old(a.fired)
    ensures h.op.None? ==> a.ops == old(a.ops)
    ensures h.op.Some? ==> a.ops == Bumped(old(a.ops), a.deps, h.op.value, 1)
  {
    Recount(a, h, 1);
  }

  /** `DecRef`: one reference less on everything the handle reaches. */
  method DecRef(a: Operations, h: Handle)
    requires Refers(a, h)
    modifies a
    ensures Refers(a, h) && a.deps == old(a.deps) && a.fired == old(a.fired)
    ensures h.op.None? ==> a.ops == old(a.ops)
    ensures h.op.Some? ==> a.ops == Bumped(old(a.ops), a.deps, h.op.value, -1)
  {
    Recount(a, h, -1);
  }

  /** `Release` is `DecRef`. */
  method Release(a: Operations, h: Handle)
    requires Refers(a, h)
    modifies a
    ensures Refers(a, h) && a.deps == old(a.deps) && a.fired == old(a.fired)
    ensures h.op.None? ==> a.ops == old(a.ops)
    ensures h.op.Some? ==> a.ops == Bumped(old(a.ops), a.deps, h.op.value, -1)
  {
    DecRef(a, h);
  }

  /** `DecRef` after `AddRef` on the same handle gives back every count. */
  lemma AddRefDecRef(os: seq<OpState>, deps: seq<Option<seq<nat>>>, i: nat)
    ensures Bumped(Bumped(os, deps, i, 1), deps, i, -1) == os
  {
    var b := Bumped(os, deps, i, 1);
    forall j | 0 <= j < |os| ensures Bumped(b, deps, i, -1)[j] == os[j] {
    }
  }

  /** Only operations reachable from `i` change, and each by exactly
      `delta`. */
  lemma BumpedExactly(os: seq<OpState>, deps: seq<Option<seq<nat>>>, i: nat, delta: int, j: nat)
    requires j < |os|
    ensures Bumped(os, deps, i, delta)[j].refCount ==
      os[j].refCount + (if ReachStar(DepGraph(deps, {}), i, j) then delta else 0)
    ensures Bumped(os, deps, i, delta)[j] == os[j].(refCount := Bumped(os, deps, i, delta)[j].refCount)
  {
  }
}
