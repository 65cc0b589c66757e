/** The ordinal .NET string operations the modelled code relies on:
    StartsWith, IndexOf, LastIndexOf, Replace, Split, ToLower, ordinal
    comparison and integer formatting. */
module Strings {

  /** `String.StartsWith(p)`: `p` is a prefix of `s`. */
  predicate StartsWith(s: string, p: string) {
    |p| <= |s| && s[..|p|] == p
  }

  /** `String.EndsWith(p)`: `p` is a suffix of `s`. */
  predicate EndsWith(s: string, p: string) {
    |p| <= |s| && s[|s| - |p|..] == p
  }

  /** `sub` occurs in `s` starting at position `i`. */
  predicate OccursAt(s: string, sub: string, i: int) {
    0 <= i && i + |sub| <= |s| && s[i..i + |sub|] == sub
  }

  /** Ordinal `s.IndexOf(sub, from)`: the first position at or after `from`
      where `sub` occurs, or -1. (.NET throws when `from > s.Length`.) */
  function IndexOf(s: string, sub: string, from: nat): (r: int)
    requires from <= |s|
    ensures r == -1 || (from <= r && OccursAt(s, sub, r))
    ensures forall j :: from <= j && (r == -1 || j < r) ==> !OccursAt(s, sub, j)
    decreases |s| - from
  {
    if OccursAt(s, sub, from) then from
    else if from == |s| then -1
    else IndexOf(s, sub, from + 1)
  }

  /** `String.Contains(sub)`. */
  predicate Contains(s: string, sub: string) {
    IndexOf(s, sub, 0) >= 0
  }

  /** Ordinal `s.LastIndexOf(c)` for a one-character string: the last position
      holding `c`, or -1. */
  function LastIndexOf(s: string, c: char): (r: int)
    ensures -1 <= r < |s|
    ensures r >= 0 ==> s[r] == c
    ensures forall j :: r < j < |s| ==> s[j] != c
  {
    if s == [] then -1
    else if s[|s| - 1] == c then |s| - 1
    else LastIndexOf(s[..|s| - 1], c)
  }

  /** `String.Replace(pat, rep)`: replaces, left to right, every
      non-overlapping occurrence of `pat` by `rep`. (.NET throws for an empty `pat`.) */
  function Replace(s: string, pat: string, rep: string): string
    requires |pat| > 0
    decreases |s|
  {
    if |s| < |pat| then s
    else if s[..|pat|] == pat then rep + Replace(s[|pat|..], pat, rep)
    else [s[0]] + Replace(s[1..], pat, rep)
  }

  /** Replacing one character by another leaves no occurrence of the first. */
  lemma {:induction false} ReplaceCharRemovesIt(s: string, c: char, d: char)
    requires c != d
    ensures forall i :: 0 <= i < |Replace(s, [c], [d])| ==> Replace(s, [c], [d])[i] != c
    ensures |Replace(s, [c], [d])| == |s|
    decreases |s|
  {
    if |s| >= 1 {
      ReplaceCharRemovesIt(s[1..], c, d);
    }
  }

  /** Replacing a string that does not occur changes nothing. */
  lemma {:induction false} ReplaceAbsent(s: string, pat: string, rep: string)
    requires |pat| > 0
    requires forall j :: !OccursAt(s, pat, j)
    ensures Replace(s, pat, rep) == s
    decreases |s|
  {
    if |s| >= |pat| {
      assert !OccursAt(s, pat, 0);
      forall j ensures !OccursAt(s[1..], pat, j) {
        if OccursAt(s[1..], pat, j) {
          assert s[1..][j..j + |pat|] == s[j + 1..j + 1 + |pat|];
          assert OccursAt(s, pat, j + 1);
        }
      }
      ReplaceAbsent(s[1..], pat, rep);
    }
  }

  /** A tail without the last character of `pat` takes no part in any
      replacement. */
  lemma {:induction false} ReplaceKeepsTail(a: string, b: string, pat: string, rep: string)
    requires |pat| > 0 && pat[|pat| - 1] !in b
    ensures Replace(a + b, pat, rep) == Replace(a, pat, rep) + b
    decreases |a| + |b|
  {
    var ab := a + b;
    if |ab| < |pat| {
    } else if ab[..|pat|] == pat {
      assert ab[|pat| - 1] == pat[|pat| - 1];
      assert a[..|pat|] == pat;
      assert ab[|pat|..] == a[|pat|..] + b;
      ReplaceKeepsTail(a[|pat|..], b, pat, rep);
    } else if a == [] {
      assert ab == b && [] + b[1..] == b[1..];
      ReplaceKeepsTail([], b[1..], pat, rep);
      assert Replace(b, pat, rep) == [b[0]] + Replace(b[1..], pat, rep);
      assert b == [b[0]] + b[1..];
    } else {
      assert ab[1..] == a[1..] + b;
      ReplaceKeepsTail(a[1..], b, pat, rep);
      if |a| >= |pat| {
        assert a[..|pat|] == ab[..|pat|];
      }
    }
  }

  /** `String.Replace(c, d)` for characters: every `c` becomes `d`. */
  function ReplaceChar(s: string, c: char, d: char): (r: string)
    ensures |r| == |s|
    ensures forall i :: 0 <= i < |s| ==> r[i] == if s[i] == c then d else s[i]
  {
    seq(|s|, i requires 0 <= i < |s| => if s[i] == c then d else s[i])
  }

  /** The one-character string overload of `Replace` agrees with the character overload. */
  lemma {:induction false} ReplaceOneCharIsReplaceChar(s: string, c: char, d: char)
    ensures Replace(s, [c], [d]) == ReplaceChar(s, c, d)
    decreases |s|
  {
    if |s| >= 1 {
      ReplaceOneCharIsReplaceChar(s[1..], c, d);
      assert ReplaceChar(s, c, d) == ReplaceChar(s[..1], c, d) + ReplaceChar(s[1..], c, d);
    }
  }

  /** `String.Split(c)`: the pieces between occurrences of `c`; never empty. */
  function Split(s: string, c: char): (r: seq<string>)
    ensures |r| >= 1
    ensures forall k, i :: 0 <= k < |r| && 0 <= i < |r[k]| ==> r[k][i] != c
    decreases |s|
  {
    var i := IndexOf(s, [c], 0);
    if i < 0 then
      assert forall j :: 0 <= j < |s| ==> s[j] != c by {
        forall j | 0 <= j < |s| ensures s[j] != c {
          assert !OccursAt(s, [c], j);
          assert s[j..j + 1] == [s[j]];
        }
      }
      [s]
    else
      assert forall j :: 0 <= j < i ==> s[j] != c by {
        forall j | 0 <= j < i ensures s[j] != c {
          assert !OccursAt(s, [c], j);
          assert s[j..j + 1] == [s[j]];
        }
      }
      [s[..i]] + Split(s[i + 1..], c)
  }

  /** `String.Join(c, pieces)`. */
  function Join(pieces: seq<string>, c: char): string
    requires |pieces| >= 1
  {
    if |pieces| == 1 then pieces[0] else pieces[0] + [c] + Join(pieces[1..], c)
  }

  /** Splitting on a character and joining the pieces back gives the string. */
  lemma {:induction false} JoinSplit(s: string, c: char)
    ensures Join(Split(s, c), c) == s
    decreases |s|
  {
    var i := IndexOf(s, [c], 0);
    if i >= 0 {
      assert s[i..i + 1] == [c];
      JoinSplit(s[i + 1..], c);
      assert s == s[..i] + [c] + s[i + 1..];
    }
  }

  /** Joining pieces free of `c` and splitting on `c` gives the pieces
      back. */
  lemma {:induction false} SplitJoin(pieces: seq<string>, c: char)
    requires |pieces| >= 1
    requires forall k, i :: 0 <= k < |pieces| && 0 <= i < |pieces[k]| ==> pieces[k][i] != c
    ensures Split(Join(pieces, c), c) == pieces
    decreases |pieces|
  {
    var s := Join(pieces, c);
    var p := pieces[0];
    assert s[..|p|] == p;
    forall j | 0 <= j < |p| ensures !OccursAt(s, [c], j) {
      assert s[j..j + 1] == [s[j]];
    }
    if |pieces| > 1 {
      var rest := Join(pieces[1..], c);
      assert s == p + [c] + rest;
      assert s[|p|..|p| + 1] == [c];
      assert OccursAt(s, [c], |p|);
      assert s[|p| + 1..] == rest;
      SplitJoin(pieces[1..], c);
    }
  }

  /** Lower-casing of one character; only the ASCII capitals are mapped. */
  function LowerChar(c: char): char {
    if 'A' <= c <= 'Z' then (c as int + 32) as char else c
  }

  /** `String.ToLower()`, ASCII letters only. */
  function ToLower(s: string): (r: string)
    ensures |r| == |s|
    ensures forall i :: 0 <= i < |s| ==> r[i] == LowerChar(s[i])
  {
    seq(|s|, i requires 0 <= i < |s| => LowerChar(s[i]))
  }

  /** Lower-casing is idempotent. */
  lemma ToLowerIdempotent(s: string)
    ensures ToLower(ToLower(s)) == ToLower(s)
  {
    forall i | 0 <= i < |s| ensures LowerChar(LowerChar(s[i])) == LowerChar(s[i]) {
    }
  }

  /** `StartsWith(p, StringComparison.OrdinalIgnoreCase)`, ASCII letters only. */
  predicate StartsWithIgnoreCase(s: string, p: string) {
    StartsWith(ToLower(s), ToLower(p))
  }

  /** `string.CompareOrdinal(a, b) <= 0`: character-code lexicographic order. */
  predicate Le(a: string, b: string)
    decreases |a|
  {
    if a == [] then true
    else if b == [] then false
    else if a[0] != b[0] then a[0] < b[0]
    else Le(a[1..], b[1..])
  }

  lemma {:induction false} LeReflexive(a: string)
    ensures Le(a, a)
    decreases |a|
  {
    if a != [] {
      LeReflexive(a[1..]);
    }
  }

  lemma {:induction false} LeTotal(a: string, b: string)
    ensures Le(a, b) || Le(b, a)
    decreases |a|
  {
    if a != [] && b != [] && a[0] == b[0] {
      LeTotal(a[1..], b[1..]);
    }
  }

  lemma {:induction false} LeAntisymmetric(a: string, b: string)
    requires Le(a, b) && Le(b, a)
    ensures a == b
    decreases |a|
  {
    if a != [] && b != [] {
      LeAntisymmetric(a[1..], b[1..]);
      assert a == [a[0]] + a[1..] && b == [b[0]] + b[1..];
    }
  }

  /** A prefix comes first in ordinal order. */
  lemma {:induction false} PrefixLe(a: string, b: string)
    requires StartsWith(b, a)
    ensures Le(a, b)
    decreases |a|
  {
    if a != [] {
      assert b[1..][..|a| - 1] == a[1..];
      PrefixLe(a[1..], b[1..]);
    }
  }

  lemma {:induction false} LeTransitive(a: string, b: string, c: string)
    requires Le(a, b) && Le(b, c)
    ensures Le(a, c)
    decreases |a|
  {
    if a != [] && b != [] && c != [] && a[0] == b[0] && b[0] == c[0] {
      LeTransitive(a[1..], b[1..], c[1..]);
    }
  }

  /** The decimal digit for `d`. */
  function Digit(d: nat): (c: char)
    requires d < 10
    ensures '0' <= c <= '9' && c as int - '0' as int == d
  {
    ('0' as int + d) as char
  }

  /** Formatting a non-negative integer in decimal, as string interpolation does. */
  function NatToString(n: nat): (r: string)
    ensures |r| >= 1
    ensures forall i :: 0 <= i < |r| ==> '0' <= r[i] <= '9'
  {
    if n < 10 then [Digit(n)] else NatToString(n / 10) + [Digit(n % 10)]
  }

  /** The value of a string of decimal digits. */
  function DecimalValue(s: string): nat
    requires forall i :: 0 <= i < |s| ==> '0' <= s[i] <= '9'
  {
    if s == [] then 0 else 10 * DecimalValue(s[..|s| - 1]) + (s[|s| - 1] as int - '0' as int)
  }

  /** Reading back a formatted integer gives the integer. */
  lemma {:induction false} NatToStringRoundTrip(n: nat)
    ensures DecimalValue(NatToString(n)) == n
  {
    if n < 10 {
      assert NatToString(n) == [Digit(n)];
    } else {
      var front := NatToString(n / 10);
      var r := front + [Digit(n % 10)];
      assert NatToString(n) == r;
      assert r[..|r| - 1] == front;
      assert r[|r| - 1] == Digit(n % 10);
      NatToStringRoundTrip(n / 10);
      assert DecimalValue(r) == 10 * DecimalValue(front) + (Digit(n % 10) as int - '0' as int);
    }
  }
}
