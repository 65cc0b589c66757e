/** Sequence operations standing for the LINQ and List<T> members the C#
    code uses: Where, Except, Distinct, Count, Contains, Remove. */
module Collections {

  /** No element occurs twice. */
  predicate Distinct<T(==)>(s: seq<T>) {
    forall i, j :: 0 <= i < j < |s| ==> s[i] != s[j]
  }

  /** Appending a new element keeps a list without repeats. */
  lemma DistinctSnoc<T>(s: seq<T>, x: T)
    requires Distinct(s) && x !in s
    ensures Distinct(s + [x])
  {
    var l := s + [x];
    forall i, j | 0 <= i < j < |l| ensures l[i] != l[j] {
      assert l[i] == s[i];
    }
  }

  /** `if (!list.Contains(x)) list.Add(x)` (or `Enqueue(x)`): `x` is
      appended when absent, and the list is otherwise unchanged. */
  function AddAbsent<T(==)>(s: seq<T>, x: T): (r: seq<T>)
    ensures x in r && |s| <= |r| <= |s| + 1
    ensures r[..|s|] == s
  {
    if x in s then s else s + [x]
  }

  /** Adding only absent elements keeps a list without repeats. */
  lemma AddAbsentDistinct<T>(s: seq<T>, x: T)
    requires Distinct(s)
    ensures Distinct(AddAbsent(s, x))
  {
    if x !in s {
      DistinctSnoc(s, x);
    }
  }

  /** LINQ `Where(p)`. */
  function Filter<T(==)>(s: seq<T>, p: T -> bool): (r: seq<T>)
    ensures forall i :: 0 <= i < |r| ==> r[i] in s && p(r[i])
    ensures forall i :: 0 <= i < |s| && p(s[i]) ==> s[i] in r
    ensures |r| <= |s|
  {
    if s == [] then []
    else
      var rest := Filter(s[1..], p);
      assert forall i :: 1 <= i < |s| ==> s[i] == s[1..][i - 1];
      if p(s[0]) then [s[0]] + rest else rest
  }

  /** `Where` keeps a list without repeats free of them. */
  lemma {:induction false} FilterDistinct<T>(s: seq<T>, p: T -> bool)
    requires Distinct(s)
    ensures Distinct(Filter(s, p))
  {
    if s != [] {
      assert Distinct(s[1..]);
      FilterDistinct(s[1..], p);
      assert s[0] !in s[1..];
    }
  }

  /** LINQ `s.Except(excluded)`: the distinct elements of `s` that are not
      excluded, in the order of their first occurrence. */
  function Except<T(==)>(s: seq<T>, excluded: set<T>): (r: seq<T>)
    ensures forall i :: 0 <= i < |r| ==> r[i] in s && r[i] !in excluded
    ensures forall i :: 0 <= i < |s| && s[i] !in excluded ==> s[i] in r
    ensures Distinct(r)
    ensures |r| <= |s|
  {
    if s == [] then []
    else if s[0] in excluded then Except(s[1..], excluded)
    else [s[0]] + Except(s[1..], excluded + {s[0]})
  }

  /** Wherever an element of `r` occurs in `s`, every earlier element of
      `r` occurs in `s` before it: `r` lists what it shares with `s` in
      first-occurrence order. */
  ghost predicate FirstOccurrenceOrder<T>(s: seq<T>, r: seq<T>) {
    forall a, b, j :: 0 <= a < b < |r| && 0 <= j < |s| && s[j] == r[b] ==> r[a] in s[..j]
  }

  /** A first element that `r` does not hold does not disturb the order. */
  lemma OrderPastHead<T>(s: seq<T>, r: seq<T>)
    requires s != [] && s[0] !in r && FirstOccurrenceOrder(s[1..], r)
    ensures FirstOccurrenceOrder(s, r)
  {
    var u := s[1..];
    forall a, b, j | 0 <= a < b < |r| && 0 <= j < |s| && s[j] == r[b]
      ensures r[a] in s[..j]
    {
      assert j != 0 by {
        assert r[b] in r;
      }
      assert u[j - 1] == s[j];
      assert r[a] in u[..j - 1];
      assert s[..j] == [s[0]] + u[..j - 1];
    }
  }

  /** Listing the first element first keeps the order. */
  lemma OrderWithHead<T>(s: seq<T>, r: seq<T>)
    requires s != [] && s[0] !in r && FirstOccurrenceOrder(s[1..], r)
    ensures FirstOccurrenceOrder(s, [s[0]] + r)
  {
    var u := s[1..];
    var r' := [s[0]] + r;
    forall a, b, j | 0 <= a < b < |r'| && 0 <= j < |s| && s[j] == r'[b]
      ensures r'[a] in s[..j]
    {
      assert r'[b] == r[b - 1] && r[b - 1] in r;
      assert j != 0;
      assert s[..j] == [s[0]] + u[..j - 1];
      if a > 0 {
        assert u[j - 1] == r[b - 1] && r'[a] == r[a - 1];
        assert r[a - 1] in u[..j - 1];
      }
    }
  }

  /** `Except` keeps first-occurrence order. */
  lemma {:induction false} ExceptKeepsOrder<T>(s: seq<T>, excluded: set<T>)
    ensures FirstOccurrenceOrder(s, Except(s, excluded))
  {
    if s != [] {
      var u := s[1..];
      if s[0] in excluded {
        ExceptKeepsOrder(u, excluded);
        OrderPastHead(s, Except(u, excluded));
      } else {
        ExceptKeepsOrder(u, excluded + {s[0]});
        OrderWithHead(s, Except(u, excluded + {s[0]}));
      }
    }
  }

  /** On a duplicate-free input disjoint from the exclusion, `Except` is the identity. */
  lemma {:induction false} ExceptOfDistinct<T>(s: seq<T>, excluded: set<T>)
    requires Distinct(s)
    requires forall x :: x in s ==> x !in excluded
    ensures Except(s, excluded) == s
  {
    if s != [] {
      assert forall x :: x in s[1..] ==> x != s[0];
      ExceptOfDistinct(s[1..], excluded + {s[0]});
    }
  }

  /** The number of occurrences of `x`. */
  function CountOf<T(==)>(s: seq<T>, x: T): (n: nat)
    ensures n == multiset(s)[x]
  {
    if s == [] then 0
    else
      assert s == [s[0]] + s[1..];
      (if s[0] == x then 1 else 0) + CountOf(s[1..], x)
  }

  lemma CountOfSnoc<T>(s: seq<T>, x: T, y: T)
    ensures CountOf(s + [x], y) == CountOf(s, y) + if x == y then 1 else 0
  {
    assert multiset(s + [x]) == multiset(s) + multiset{x};
  }

  /** LINQ `Count(p)`: the number of elements satisfying `p`. */
  function CountWhere<T(==)>(s: seq<T>, p: T -> bool): (n: nat)
    ensures n == |Filter(s, p)|
  {
    if s == [] then 0 else (if p(s[0]) then 1 else 0) + CountWhere(s[1..], p)
  }

  /** The slice up to the length of a sequence is the sequence. */
  lemma Whole<T>(s: seq<T>)
    ensures s[..|s|] == s
  {
  }

  /** The elements of a sequence of sequences, concatenated. */
  function Flatten<T>(ss: seq<seq<T>>): seq<T> {
    if ss == [] then [] else ss[0] + Flatten(ss[1..])
  }

  lemma {:induction false} FlattenAppend<T>(a: seq<seq<T>>, b: seq<seq<T>>)
    ensures Flatten(a + b) == Flatten(a) + Flatten(b)
  {
    if a != [] {
      assert (a + b)[0] == a[0] && (a + b)[1..] == a[1..] + b;
      FlattenAppend(a[1..], b);
    } else {
      assert a + b == b;
    }
  }

  /** A prefix one longer is the shorter prefix and one more element. */
  lemma PrefixSnoc<T>(s: seq<T>, k: int)
    requires 0 <= k < |s|
    ensures s[..k + 1] == s[..k] + [s[k]]
  {
  }

  /** The flattening of one more list is the old flattening followed by it. */
  lemma FlattenPrefixStep<T>(ss: seq<seq<T>>, k: int)
    requires 0 <= k < |ss|
    ensures Flatten(ss[..k + 1]) == Flatten(ss[..k]) + ss[k]
  {
    assert ss[..k + 1] == ss[..k] + [ss[k]];
    FlattenAppend(ss[..k], [ss[k]]);
  }

  /** Where the elements of one list sit in the flattening. */
  lemma FlattenSplitAt<T>(ss: seq<seq<T>>, k: int)
    requires 0 <= k < |ss|
    ensures |Flatten(ss[..k])| + |ss[k]| <= |Flatten(ss)|
    ensures forall i :: 0 <= i < |ss[k]| ==> Flatten(ss)[|Flatten(ss[..k])| + i] == ss[k][i]
  {
    var a := Flatten(ss[..k]);
    var b := Flatten(ss[k + 1..]);
    assert ss[..k + 1] + ss[k + 1..] == ss;
    FlattenAppend(ss[..k + 1], ss[k + 1..]);
    FlattenPrefixStep(ss, k);
    var all := a + ss[k] + b;
    assert Flatten(ss) == all;
    forall i | 0 <= i < |ss[k]| ensures all[|a| + i] == ss[k][i] {
    }
  }

  /** Every element of one of the lists is an element of the flattening. */
  lemma FlattenHolds<T>(ss: seq<seq<T>>, k: int)
    requires 0 <= k < |ss|
    ensures forall x :: x in ss[k] ==> x in Flatten(ss)
  {
    FlattenSplitAt(ss, k);
    forall x | x in ss[k] ensures x in Flatten(ss) {
      var i :| 0 <= i < |ss[k]| && ss[k][i] == x;
      assert Flatten(ss)[|Flatten(ss[..k])| + i] == x;
    }
  }

  /** Every element of the flattening comes from one of the lists. */
  lemma {:induction false} FlattenFrom<T>(ss: seq<seq<T>>)
    ensures forall x :: x in Flatten(ss) ==> exists k :: 0 <= k < |ss| && x in ss[k]
  {
    if ss != [] {
      FlattenFrom(ss[1..]);
      assert forall k :: 1 <= k < |ss| ==> ss[k] == ss[1..][k - 1];
    }
  }

  /** A flattening is empty exactly when every list is. */
  lemma {:induction false} FlattenEmpty<T>(ss: seq<seq<T>>)
    ensures Flatten(ss) == [] <==> forall k :: 0 <= k < |ss| ==> ss[k] == []
  {
    if ss != [] {
      FlattenEmpty(ss[1..]);
      assert forall k :: 1 <= k < |ss| ==> ss[k] == ss[1..][k - 1];
    }
  }

  /** Lists of lists of the same shape flatten to the same length. */
  lemma {:induction false} FlattenSameShape<A, B>(a: seq<seq<A>>, b: seq<seq<B>>)
    requires |a| == |b| && forall k :: 0 <= k < |a| ==> |a[k]| == |b[k]|
    ensures |Flatten(a)| == |Flatten(b)|
  {
    if a != [] {
      FlattenSameShape(a[1..], b[1..]);
    }
  }

  /** `List.Remove(x)`: removes the first occurrence of `x`, if any. */
  function RemoveFirst<T(==)>(s: seq<T>, x: T): (r: seq<T>)
    ensures x in s ==> |r| == |s| - 1
    ensures x !in s ==> r == s
  {
    if s == [] then []
    else if s[0] == x then s[1..]
    else [s[0]] + RemoveFirst(s[1..], x)
  }

  /** `Remove(x)` takes exactly one copy of `x` out of the list, if it has one. */
  lemma {:induction false} RemoveFirstCounts<T>(s: seq<T>, x: T)
    ensures multiset(RemoveFirst(s, x)) == multiset(s) - multiset{x}
  {
    if s != [] {
      assert s == [s[0]] + s[1..];
      if s[0] != x {
        RemoveFirstCounts(s[1..], x);
      }
    }
  }

  /** Removing `x` removes it at the first position holding it. */
  lemma RemoveFirstAt<T>(s: seq<T>, j: int)
    requires 0 <= j < |s| && forall i :: 0 <= i < j ==> s[i] != s[j]
    ensures RemoveFirst(s, s[j]) == s[..j] + s[j + 1..]
  {
    assert s[j] !in s[..j];
    RemoveFirstBefore(s, j);
  }

  lemma {:induction false} RemoveFirstBefore<T>(s: seq<T>, j: int)
    requires 0 <= j < |s| && s[j] !in s[..j]
    ensures RemoveFirst(s, s[j]) == s[..j] + s[j + 1..]
  {
    if j > 0 {
      var t := s[1..];
      assert s[0] in s[..j];
      assert t[..j - 1] == s[1..j];
      RemoveFirstBefore(t, j - 1);
      assert s[..j] == [s[0]] + t[..j - 1];
      assert s[j + 1..] == t[j..];
    }
  }

  /** Taking `x` out of a list without repeats takes it out of the
      members and leaves no repeats. */
  lemma {:induction false} RemoveFirstMembers<T>(s: seq<T>, x: T)
    requires Distinct(s)
    ensures Distinct(RemoveFirst(s, x)) && Members(RemoveFirst(s, x)) == Members(s) - {x}
    decreases |s|
  {
    if s != [] {
      var t := s[1..];
      assert Distinct(t) by {
        forall i, j | 0 <= i < j < |t| ensures t[i] != t[j] {
          assert t[i] == s[i + 1] && t[j] == s[j + 1];
        }
      }
      assert s == [s[0]] + t;
      assert Members(s) == {s[0]} + Members(t);
      forall k | 0 <= k < |t| ensures t[k] != s[0] {
        assert t[k] == s[k + 1];
      }
      if s[0] != x {
        RemoveFirstMembers(t, x);
        var r := RemoveFirst(t, x);
        assert s[0] !in Members(r);
        assert Members([s[0]] + r) == {s[0]} + Members(r);
        assert Distinct([s[0]] + r) by {
          forall i, j | 0 <= i < j < |[s[0]] + r| ensures ([s[0]] + r)[i] != ([s[0]] + r)[j] {
            assert ([s[0]] + r)[j] == r[j - 1] && r[j - 1] in Members(r);
            if i > 0 {
              assert ([s[0]] + r)[i] == r[i - 1];
            }
          }
        }
      }
    }
  }

  /** `Delegate.Remove` with a single handler: removes the last occurrence
      of `x`, if any. */
  function RemoveLast<T(==)>(s: seq<T>, x: T): (r: seq<T>)
    ensures x in s ==> |r| == |s| - 1
    ensures x !in s ==> r == s
  {
    if s == [] then []
    else if s[|s| - 1] == x then s[..|s| - 1]
    else
      assert s == s[..|s| - 1] + [s[|s| - 1]];
      RemoveLast(s[..|s| - 1], x) + [s[|s| - 1]]
  }

  /** The position of the last occurrence of `x`, or -1. */
  function LastPosition<T(==)>(s: seq<T>, x: T): (k: int)
    ensures -1 <= k < |s|
    ensures k == -1 <==> x !in s
    ensures k >= 0 ==> s[k] == x && x !in s[k + 1..]
  {
    if s == [] then -1
    else if s[|s| - 1] == x then |s| - 1
    else
      assert s == s[..|s| - 1] + [s[|s| - 1]];
      LastPosition(s[..|s| - 1], x)
  }

  /** `RemoveLast` cuts out exactly the last occurrence. */
  lemma {:induction false} RemoveLastAt<T>(s: seq<T>, x: T)
    requires x in s
    ensures RemoveLast(s, x) == s[..LastPosition(s, x)] + s[LastPosition(s, x) + 1..]
  {
    var t := s[..|s| - 1];
    if s[|s| - 1] != x {
      assert s == t + [s[|s| - 1]];
      RemoveLastAt(t, x);
      var k := LastPosition(t, x);
      assert s[..k] == t[..k];
      assert s[k + 1..] == t[k + 1..] + [s[|s| - 1]];
    }
  }

  /** Removing what was just appended gives back the list. */
  lemma RemoveLastSnoc<T>(s: seq<T>, x: T)
    ensures RemoveLast(s + [x], x) == s
  {
    assert (s + [x])[..|s|] == s;
  }

  /** The members of a list, as a set. */
  ghost function Members<T>(s: seq<T>): set<T> {
    set x | x in s
  }

  lemma MembersPrefix<T>(s: seq<T>, i: int)
    requires 0 <= i < |s|
    ensures Members(s[..i + 1]) == Members(s[..i]) + {s[i]}
  {
    assert s[..i + 1] == s[..i] + [s[i]];
  }

  /** A list without repeats is no longer than a set holding its members. */
  lemma {:induction false} DistinctCard(l: seq<string>, s: set<string>)
    requires Distinct(l) && forall x :: x in l ==> x in s
    ensures |l| <= |s|
  {
    if l != [] {
      assert Distinct(l[1..]) && l[0] !in l[1..];
      DistinctCard(l[1..], s - {l[0]});
    }
  }

  /** Two lists without repeats and without a common member make one. */
  lemma DistinctConcat(a: seq<string>, b: seq<string>)
    requires Distinct(a) && Distinct(b) && forall x :: x in b ==> x !in a
    ensures Distinct(a + b)
  {
    var ab := a + b;
    forall i, j | 0 <= i < j < |ab| ensures ab[i] != ab[j] {
      if j >= |a| && i < |a| {
        assert ab[j] == b[j - |a|] && ab[i] == a[i];
        assert b[j - |a|] in b && a[i] in a;
      } else if j >= |a| {
        assert ab[j] == b[j - |a|] && ab[i] == b[i - |a|];
      } else {
        assert ab[j] == a[j] && ab[i] == a[i];
      }
    }
  }
}
