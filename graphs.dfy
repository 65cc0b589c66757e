/** Dependency graphs over bundle names: paths, reachability and closure. */
module Graphs {
  import opened Collections

  /** A node to the set of nodes it depends on. */
  type Digraph<T> = map<T, set<T>>

  /** Every dependency is itself a key. */
  ghost predicate Closed<T(!new)>(g: Digraph<T>) {
    forall k, d :: k in g && d in g[k] ==> d in g
  }

  /** `p` follows dependency edges of `g`. */
  ghost predicate Path<T(!new)>(g: Digraph<T>, p: seq<T>) {
    forall i :: 0 <= i < |p| - 1 ==> p[i] in g && p[i + 1] in g[p[i]]
  }

  /** `b` is reachable from `a` in one or more steps. */
  ghost predicate Reaches<T(!new)>(g: Digraph<T>, a: T, b: T) {
    exists p :: |p| >= 2 && p[0] == a && p[|p| - 1] == b && Path(g, p)
  }

  /** The keys reachable from `a` in one or more steps. */
  ghost function ReachSet<T(!new)>(g: Digraph<T>, a: T): set<T> {
    set b | b in g && Reaches(g, a, b)
  }

  /** The transitive closure of `g`. */
  ghost function Closure<T(!new)>(g: Digraph<T>): Digraph<T> {
    map k | k in g :: ReachSet(g, k)
  }

  lemma ReachStep<T(!new)>(g: Digraph<T>, a: T, b: T)
    requires a in g && b in g[a]
    ensures Reaches(g, a, b)
  {
    assert Path(g, [a, b]);
  }

  lemma ReachTrans<T(!new)>(g: Digraph<T>, a: T, b: T, c: T)
    requires Reaches(g, a, b) && Reaches(g, b, c)
    ensures Reaches(g, a, c)
  {
    var p :| |p| >= 2 && p[0] == a && p[|p| - 1] == b && Path(g, p);
    var q :| |q| >= 2 && q[0] == b && q[|q| - 1] == c && Path(g, q);
    var pq := p + q[1..];
    forall i | 0 <= i < |pq| - 1 ensures pq[i] in g && pq[i + 1] in g[pq[i]] {
      if i < |p| - 1 {
        assert pq[i] == p[i] && pq[i + 1] == p[i + 1];
      } else {
        assert pq[i] == q[i - |p| + 1] && pq[i + 1] == q[i - |p| + 2];
      }
    }
    assert Path(g, pq);
  }

  /** What a dependency reaches, its dependent reaches too. */
  lemma ReachSubset<T(!new)>(g: Digraph<T>, a: T, d: T)
    requires d in ReachSet(g, a)
    ensures ReachSet(g, d) <= ReachSet(g, a)
  {
    forall c | c in ReachSet(g, d) ensures c in ReachSet(g, a) {
      ReachTrans(g, a, d, c);
    }
  }

  /** A set holding the dependencies of `a` and of each of its own members
      holds everything `a` reaches. */
  lemma ClosedCovers<T(!new)>(g: Digraph<T>, a: T, s: set<T>)
    requires a in g && g[a] <= s
    requires forall x :: x in s && x in g ==> g[x] <= s
    ensures ReachSet(g, a) <= s
  {
    forall b | b in ReachSet(g, a) ensures b in s {
      var p :| |p| >= 2 && p[0] == a && p[|p| - 1] == b && Path(g, p);
      PathStaysIn(g, s, p, |p| - 1);
    }
  }

  lemma {:induction false} PathStaysIn<T(!new)>(g: Digraph<T>, s: set<T>, p: seq<T>, k: int)
    requires |p| >= 2 && p[0] in g && g[p[0]] <= s && Path(g, p)
    requires forall x :: x in s && x in g ==> g[x] <= s
    requires 1 <= k < |p|
    ensures p[k] in s
    decreases k
  {
    if k > 1 {
      PathStaysIn(g, s, p, k - 1);
      assert p[k - 1] in g && p[k] in g[p[k - 1]];
    }
  }

  /** `b` is `a` or reachable from it. */
  ghost predicate ReachStar<T(!new)>(g: Digraph<T>, a: T, b: T) {
    a == b || Reaches(g, a, b)
  }

  /** A step followed by any number of steps is a path of one or more. */
  lemma ReachPrepend<T(!new)>(g: Digraph<T>, a: T, b: T, c: T)
    requires a in g && b in g[a] && ReachStar(g, b, c)
    ensures Reaches(g, a, c)
  {
    ReachStep(g, a, b);
    if b != c {
      ReachTrans(g, a, b, c);
    }
  }

  /** A path of one or more steps starts with a step to a dependency. */
  lemma ReachFirst<T(!new)>(g: Digraph<T>, a: T, c: T) returns (b: T)
    requires Reaches(g, a, c)
    ensures a in g && b in g[a] && ReachStar(g, b, c)
  {
    var p :| |p| >= 2 && p[0] == a && p[|p| - 1] == c && Path(g, p);
    b := p[1];
    if |p| > 2 {
      var q := p[1..];
      assert Path(g, q) by {
        forall i | 0 <= i < |q| - 1 ensures q[i] in g && q[i + 1] in g[q[i]] {
          assert q[i] == p[i + 1] && q[i + 1] == p[i + 2];
        }
      }
      assert |q| >= 2 && q[0] == b && q[|q| - 1] == c;
    }
  }

  /** A set that holds the dependencies of each of its members holds
      everything reachable from any of them. */
  lemma ClosedReach<T(!new)>(g: Digraph<T>, s: set<T>, a: T, b: T)
    requires a in s && forall x :: x in s && x in g ==> g[x] <= s
    requires ReachStar(g, a, b)
    ensures b in s
  {
    if a != b {
      var p :| |p| >= 2 && p[0] == a && p[|p| - 1] == b && Path(g, p);
      PathStaysIn(g, s, p, |p| - 1);
    }
  }

  /** The last step of a path of one or more steps is an edge into `b`. */
  lemma ReachLast<T(!new)>(g: Digraph<T>, a: T, b: T) returns (y: T)
    requires Reaches(g, a, b)
    ensures y in g && b in g[y]
  {
    var p :| |p| >= 2 && p[0] == a && p[|p| - 1] == b && Path(g, p);
    y := p[|p| - 2];
  }

  /** Every node some edge points to. */
  ghost function Targets<T(!new)>(g: Digraph<T>): set<T> {
    set n, d | n in g && d in g[n] :: d
  }

  /** Every listed node outside `pending` that is a key has all its
      dependencies listed. */
  ghost predicate Open<T(!new)>(g: Digraph<T>, list: seq<T>, pending: set<T>) {
    forall x :: x in list && x in g && x !in pending ==> g[x] <= Members(list)
  }

  /** What a finished depth-first walk from `name` guarantees: `list0` is
      kept as a prefix, no node is listed twice, the listed nodes outside
      `pending` and `name` itself are expanded, and every node added is
      reachable from `name`. */
  ghost predicate Gathered<T(!new)>(g: Digraph<T>, list0: seq<T>, list: seq<T>, name: T, pending: set<T>) {
    && list0 <= list && Distinct(list) && Open(g, list, pending)
    && (name in g ==> g[name] <= Members(list))
    && forall x :: x in list[|list0|..] ==> Reaches(g, name, x)
  }

  /** What holds while the walk from `name` is in progress. */
  ghost predicate Gathering<T(!new)>(g: Digraph<T>, list0: seq<T>, list: seq<T>, name: T, pending: set<T>) {
    && list0 <= list && Distinct(list) && Open(g, list, pending + {name})
    && Members(list0) <= Members(list)
    && forall x :: x in list[|list0|..] ==> Reaches(g, name, x)
  }

  /** Listing the dependency `d` and finishing the walk from it keeps the
      walk from `name` going. */
  lemma GatherStep<T(!new)>(g: Digraph<T>, list0: seq<T>, list: seq<T>, more: seq<T>,
                            name: T, d: T, pending: set<T>)
    requires Gathering(g, list0, list, name, pending)
    requires name in g && d in g[name] && d !in list
    requires Gathered(g, list + [d], more, d, pending + {name})
    ensures Gathering(g, list0, more, name, pending)
    ensures Members(list) + {d} <= Members(more)
  {
    assert more[..|list| + 1] == list + [d];
    ReachStep(g, name, d);
    forall x | x in more[|list0|..] ensures Reaches(g, name, x) {
      if x !in list[|list0|..] && x != d {
        assert x in more[|list| + 1..];
        ReachPrepend(g, name, d, x);
      }
    }
    forall x | x in list + [d] ensures x in more {
      assert more[..|list| + 1] == list + [d];
    }
  }

  /** A finished walk lists everything reachable from `name`. */
  lemma GatheredReach<T(!new)>(g: Digraph<T>, list0: seq<T>, list: seq<T>, name: T, x: T)
    requires Gathered(g, list0, list, name, {}) && Reaches(g, name, x)
    ensures x in list
  {
    var b := ReachFirst(g, name, x);
    ClosedReach(g, Members(list), b, x);
  }

  /** Paths of a graph are paths of any graph that keeps its edges. */
  lemma ReachWider<T(!new)>(g: Digraph<T>, h: Digraph<T>, a: T, b: T)
    requires forall k :: k in g ==> k in h && h[k] == g[k]
    requires ReachStar(g, a, b)
    ensures ReachStar(h, a, b)
  {
    if a != b {
      var p :| |p| >= 2 && p[0] == a && p[|p| - 1] == b && Path(g, p);
      assert Path(h, p);
    }
  }
}
